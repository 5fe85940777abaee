/** The robot's side of a spoken survey (`app.py`): the dialogue state
    machine of `get_next_robot_turn` (lines 87-135), the permission check and
    turn logging of `handle_chat` (lines 152-177) and the opening turn of
    `start_conversation` (lines 143-150). The random choices are indices
    supplied by the caller; speech synthesis and recognition are left out, so
    the patient's words arrive as text. */
module Dialogue {
  import opened Text
  import opened Records

  datatype State =
    | Start
    | AwaitingPermission
    | PermissionDenied
    | AskDailyActivity
    | AwaitingActivity
    | AskingQuestions
    | End

  /** One conversation: its state, the plan chosen for it and its log. */
  datatype Session = Session(
    state: State,
    mainModuleName: string,
    submodules: seq<Submodule>,
    submoduleIndex: nat,
    turns: seq<Turn>)

  const Greeting: string := "สวัสดีครับ ผมขอรบกวนถามคำถามสั้นๆ ได้ไหมครับ"
  const Farewell: string := "ขอบคุณครับ แล้วขอให้มีวันที่ดีนะครับ"
  const ActivityQuestion: string := "วันนี้ท่านมาใช้บริการอะไรที่โรงพยาบาลครับ"
  const Closing: string := "ขอบคุณมากสำหรับคำตอบของท่าน ขอให้มีวันที่ดีนะครับ"

  /** The line announcing the chosen main module (line 118). */
  function Intro(name: string): string {
    "ขออนุญาติสอบถามเกี่ยวกับ'" + name + "' สั้นๆ นะครับ"
  }

  /** Words that, anywhere in the patient's reply, refuse the survey (line 167). */
  const RefusalWords: seq<string> := ["ไม่", "ไม่สะดวก", "ไม่เอา"]

  /** What the robot says, if anything, and the session afterwards. */
  datatype Reply = Reply(text: Option<string>, session: Session)

  /** The caller's stand-in for `random.choice` picks an existing element:
      a main module when one is chosen, a phrasing of the current
      submodule's question when one is asked. */
  predicate PickInRange(s: Session, modules: seq<MainModule>, pick: nat) {
    && (s.state == AwaitingActivity ==> pick < |modules|)
    && (s.state == AskingQuestions && s.submoduleIndex < |s.submodules| ==>
          pick < |s.submodules[s.submoduleIndex].questions|)
  }

  /** `get_next_robot_turn`. */
  function NextRobotTurn(s: Session, modules: seq<MainModule>, pick: nat): (r: Reply)
    requires PickInRange(s, modules, pick)
    ensures r.session.turns == s.turns
    ensures r.text.None? ==> r.session == s
    ensures s.state == AskingQuestions && s.submoduleIndex < |s.submodules| ==>
              r.text.Some? && r.text.value in s.submodules[s.submoduleIndex].questions
              && r.session.submoduleIndex == s.submoduleIndex + 1
              && r.session.submodules == s.submodules
    ensures s.state == AwaitingActivity ==>
              && r.session.mainModuleName == modules[pick].kind
              && r.session.submodules == modules[pick].submodules
              && r.session.submoduleIndex == 0 && r.session.state == AskingQuestions
              && r.text == Some(Intro(modules[pick].kind))
  {
    match s.state
    case Start => Reply(Some(Greeting), s.(state := AwaitingPermission))
    case PermissionDenied => Reply(Some(Farewell), s.(state := End))
    case AskDailyActivity => Reply(Some(ActivityQuestion), s.(state := AwaitingActivity))
    case AwaitingActivity =>
      var chosen := modules[pick];
      Reply(Some(Intro(chosen.kind)),
            s.(state := AskingQuestions, mainModuleName := chosen.kind,
               submodules := chosen.submodules, submoduleIndex := 0))
    case AskingQuestions =>
      if s.submoduleIndex < |s.submodules| then
        Reply(Some(s.submodules[s.submoduleIndex].questions[pick]),
              s.(submoduleIndex := s.submoduleIndex + 1))
      else
        Reply(Some(Closing), s.(state := End))
    case AwaitingPermission => Reply(None, s)
    case End => Reply(None, s)
  }

  // ------------------------------------------------ the transition table

  /** The moves the dialogue may make in one robot turn. */
  predicate Allowed(from: State, to: State) {
    match from
    case Start => to == AwaitingPermission
    case AwaitingPermission => to == AwaitingPermission
    case PermissionDenied => to == End
    case AskDailyActivity => to == AwaitingActivity
    case AwaitingActivity => to == AskingQuestions
    case AskingQuestions => to == AskingQuestions || to == End
    case End => to == End
  }

  /** The submodule cursor never passes the end of the plan. */
  predicate CursorValid(s: Session) {
    s.submoduleIndex <= |s.submodules|
  }

  /** Every robot turn moves along the table, keeps the cursor valid, and
      stays silent exactly while permission is awaited or after the end. */
  lemma NextRobotTurnSpec(s: Session, modules: seq<MainModule>, pick: nat)
    requires PickInRange(s, modules, pick)
    ensures Allowed(s.state, NextRobotTurn(s, modules, pick).session.state)
    ensures CursorValid(s) ==> CursorValid(NextRobotTurn(s, modules, pick).session)
    ensures NextRobotTurn(s, modules, pick).text.None? <==> s.state in {AwaitingPermission, End}
    ensures NextRobotTurn(s, modules, pick).session.state == End ==>
              NextRobotTurn(s, modules, pick).text in {None, Some(Farewell), Some(Closing)}
  {
  }

  /** How far a session is from the end: the phase, then the submodules
      left to ask. */
  function Phase(st: State): nat {
    match st
    case Start => 5
    case AwaitingPermission => 4
    case AskDailyActivity => 3
    case AwaitingActivity => 2
    case PermissionDenied => 1
    case AskingQuestions => 1
    case End => 0
  }

  /** `b` is strictly closer to the end than `a`. */
  predicate Closer(a: Session, b: Session)
    requires CursorValid(a) && CursorValid(b)
  {
    || Phase(b.state) < Phase(a.state)
    || (Phase(b.state) == Phase(a.state) && a.state == b.state
        && |b.submodules| - b.submoduleIndex < |a.submodules| - a.submoduleIndex)
  }

  /** Every turn in which the robot speaks brings the session closer to the
      end, so a conversation cannot go on forever. */
  lemma NextRobotTurnProgress(s: Session, modules: seq<MainModule>, pick: nat)
    requires PickInRange(s, modules, pick) && CursorValid(s)
    requires NextRobotTurn(s, modules, pick).text.Some?
    ensures CursorValid(NextRobotTurn(s, modules, pick).session)
    ensures Closer(s, NextRobotTurn(s, modules, pick).session)
  {
  }

  // ------------------------------------------------------ handle_chat

  /** Lines 165-170: awaiting permission, a reply holding a refusal word
      refuses; any other reply grants. Other states are left alone. */
  function ApplyPermission(st: State, userText: string): State {
    if st == AwaitingPermission then
      if exists k :: 0 <= k < |RefusalWords| && Contains(userText, RefusalWords[k]) then PermissionDenied
      else AskDailyActivity
    else st
  }

  /** The longer refusal words add nothing: the survey is refused exactly
      when the reply contains "ไม่" anywhere, whatever else it says. */
  lemma RefusalIff(st: State, userText: string)
    ensures ApplyPermission(st, userText) == PermissionDenied
        <==> (st == AwaitingPermission && Contains(userText, "ไม่")) || st == PermissionDenied
    ensures st != AwaitingPermission ==> ApplyPermission(st, userText) == st
  {
    if st == AwaitingPermission {
      assert RefusalWords[0] == "ไม่";
      assert RefusalWords[1] == "ไม่" + "สะดวก";
      assert RefusalWords[2] == "ไม่" + "เอา";
      if Contains(userText, RefusalWords[1]) { ContainsPrefixOf(userText, "ไม่", "สะดวก"); }
      if Contains(userText, RefusalWords[2]) { ContainsPrefixOf(userText, "ไม่", "เอา"); }
    }
  }

  /** The session after the reply is logged and the permission is applied. */
  function Heard(s: Session, userText: string): Session {
    s.(turns := s.turns + [Turn(Patient, "", userText)], state := ApplyPermission(s.state, userText))
  }

  /** What `handle_chat` answers, and the session it keeps. */
  datatype ChatResult = ChatResult(userText: string, robotText: Option<string>, finished: bool, session: Session)

  /** Lines 162-175: log the patient's reply, apply the permission check,
      take the robot's turn, log it unless it is empty, and report whether
      the conversation has ended: after a refusal, after the last question,
      or when it had already ended. */
  function Chat(s: Session, modules: seq<MainModule>, userText: string, pick: nat): (r: ChatResult)
    requires PickInRange(Heard(s, userText), modules, pick)
    ensures r.userText == userText
    ensures r.finished <==> r.session.state == End
    ensures r.finished <==> || (s.state == AwaitingPermission && Contains(userText, "ไม่"))
                            || s.state == PermissionDenied || s.state == End
                            || (s.state == AskingQuestions && s.submoduleIndex >= |s.submodules|)
  {
    RefusalIff(s.state, userText);
    var reply := NextRobotTurn(Heard(s, userText), modules, pick);
    var after :=
      if reply.text.Some? && reply.text.value != "" then
        reply.session.(turns := reply.session.turns + [Turn(Robot, reply.text.value, "")])
      else reply.session;
    ChatResult(userText, reply.text, after.state == End, after)
  }

  /** A chat appends the patient's turn and, when the robot said something
      non-empty, the robot's turn; nothing else is logged. */
  lemma ChatLog(s: Session, modules: seq<MainModule>, userText: string, pick: nat)
    requires PickInRange(Heard(s, userText), modules, pick)
    ensures var r := Chat(s, modules, userText, pick);
            r.session.turns == s.turns + [Turn(Patient, "", userText)]
              + (if r.robotText.Some? && r.robotText.value != "" then [Turn(Robot, r.robotText.value, "")] else [])
    ensures CursorValid(s) ==> CursorValid(Chat(s, modules, userText, pick).session)
  {
    NextRobotTurnSpec(Heard(s, userText), modules, pick);
  }

  /** Lines 143-150: a new session greets the patient and logs the greeting. */
  function StartConversation(): (r: Reply)
    ensures r.text == Some(Greeting)
    ensures r.session.state == AwaitingPermission && r.session.turns == [Turn(Robot, Greeting, "")]
  {
    var initial := Session(Start, "", [], 0, []);
    var reply := NextRobotTurn(initial, [], 0);
    Reply(reply.text, reply.session.(turns := [Turn(Robot, reply.text.value, "")]))
  }

  // -------------------------------------------------- whole conversations

  /** One reply of the patient and the choice made after it. */
  datatype Input = Input(userText: string, pick: nat)

  /** Every choice made along `inputs` picks an existing element. */
  predicate Feasible(s: Session, modules: seq<MainModule>, inputs: seq<Input>)
    decreases |inputs|
  {
    inputs == []
    || (PickInRange(Heard(s, inputs[0].userText), modules, inputs[0].pick)
        && Feasible(Chat(s, modules, inputs[0].userText, inputs[0].pick).session, modules, inputs[1..]))
  }

  /** The results of the chats of `inputs`, in order. */
  function Run(s: Session, modules: seq<MainModule>, inputs: seq<Input>): seq<ChatResult>
    requires Feasible(s, modules, inputs)
    decreases |inputs|
  {
    if inputs == [] then []
    else
      var r := Chat(s, modules, inputs[0].userText, inputs[0].pick);
      [r] + Run(r.session, modules, inputs[1..])
  }

  /** The robot's lines of the results. */
  function Said(results: seq<ChatResult>): seq<Option<string>>
    decreases |results|
  {
    if results == [] then [] else [results[0].robotText] + Said(results[1..])
  }

  /** The question phrasings chosen by `picks` for submodules `i..`. */
  function Chosen(subs: seq<Submodule>, i: nat, picks: seq<nat>): seq<Option<string>>
    requires i + |picks| <= |subs|
    requires forall j :: 0 <= j < |picks| ==> picks[j] < |subs[i + j].questions|
    decreases |picks|
  {
    if picks == [] then []
    else [Some(subs[i].questions[picks[0]])] + Chosen(subs, i + 1, picks[1..])
  }

  lemma ChosenCons(subs: seq<Submodule>, i: nat, picks: seq<nat>)
    requires picks != [] && i + |picks| <= |subs|
    requires forall j :: 0 <= j < |picks| ==> picks[j] < |subs[i + j].questions|
    ensures forall j :: 0 <= j < |picks[1..]| ==> picks[1..][j] < |subs[i + 1 + j].questions|
    ensures Chosen(subs, i, picks) + [Some(Closing)]
         == [Some(subs[i].questions[picks[0]])] + (Chosen(subs, i + 1, picks[1..]) + [Some(Closing)])
  {
    assert forall j :: 0 <= j < |picks[1..]| ==> picks[1..][j] == picks[j + 1];
  }

  /** The inputs of the question phase: each reply paired with the next pick,
      the last reply (the one that ends the survey) with pick 0. */
  function QuestionInputs(replies: seq<string>, picks: seq<nat>): seq<Input>
    requires |replies| == |picks| + 1
    decreases |picks|
  {
    if picks == [] then [Input(replies[0], 0)]
    else [Input(replies[0], picks[0])] + QuestionInputs(replies[1..], picks[1..])
  }

  /** A chat while a submodule is left asks the chosen phrasing of it. */
  lemma AskStep(s: Session, modules: seq<MainModule>, reply: string, pick: nat)
    requires s.state == AskingQuestions && s.submoduleIndex < |s.submodules|
    requires pick < |s.submodules[s.submoduleIndex].questions|
    ensures PickInRange(Heard(s, reply), modules, pick)
    ensures var r := Chat(s, modules, reply, pick);
            && r.robotText == Some(s.submodules[s.submoduleIndex].questions[pick]) && !r.finished
            && r.session.state == AskingQuestions && r.session.submodules == s.submodules
            && r.session.submoduleIndex == s.submoduleIndex + 1
  {
    assert Heard(s, reply).state == AskingQuestions;
  }

  /** A chat once every submodule is asked closes the survey. */
  lemma CloseStep(s: Session, modules: seq<MainModule>, reply: string)
    requires s.state == AskingQuestions && s.submoduleIndex == |s.submodules|
    ensures PickInRange(Heard(s, reply), modules, 0)
    ensures var r := Chat(s, modules, reply, 0); r.robotText == Some(Closing) && r.finished
  {
    assert Heard(s, reply).state == AskingQuestions;
  }

  /** Running a non-empty script is one chat followed by the rest. */
  lemma RunCons(s: Session, modules: seq<MainModule>, inputs: seq<Input>)
    requires inputs != [] && PickInRange(Heard(s, inputs[0].userText), modules, inputs[0].pick)
    requires Feasible(Chat(s, modules, inputs[0].userText, inputs[0].pick).session, modules, inputs[1..])
    ensures Feasible(s, modules, inputs)
    ensures Run(s, modules, inputs)
         == [Chat(s, modules, inputs[0].userText, inputs[0].pick)]
            + Run(Chat(s, modules, inputs[0].userText, inputs[0].pick).session, modules, inputs[1..])
  {
  }

  /** A run, one chat at a time. */
  lemma RunStep(s: Session, modules: seq<MainModule>, x: Input, rest: seq<Input>)
    requires PickInRange(Heard(s, x.userText), modules, x.pick)
    requires Feasible(Chat(s, modules, x.userText, x.pick).session, modules, rest)
    ensures Feasible(s, modules, [x] + rest)
    ensures Run(s, modules, [x] + rest)
         == [Chat(s, modules, x.userText, x.pick)] + Run(Chat(s, modules, x.userText, x.pick).session, modules, rest)
  {
    var ins := [x] + rest;
    assert ins[0] == x && ins[1..] == rest;
    RunCons(s, modules, ins);
  }

  /** The robot's lines of a run, one chat at a time. */
  lemma SaidStep(s: Session, modules: seq<MainModule>, x: Input, rest: seq<Input>)
    requires PickInRange(Heard(s, x.userText), modules, x.pick)
    requires Feasible(Chat(s, modules, x.userText, x.pick).session, modules, rest)
    ensures Feasible(s, modules, [x] + rest)
    ensures Said(Run(s, modules, [x] + rest))
         == [Chat(s, modules, x.userText, x.pick).robotText]
            + Said(Run(Chat(s, modules, x.userText, x.pick).session, modules, rest))
  {
    var ins := [x] + rest;
    assert ins[0] == x && ins[1..] == rest;
    RunCons(s, modules, ins);
    SaidCons(Chat(s, modules, x.userText, x.pick), Run(Chat(s, modules, x.userText, x.pick).session, modules, rest));
  }

  lemma SaidCons(r: ChatResult, rest: seq<ChatResult>)
    ensures Said([r] + rest) == [r.robotText] + Said(rest)
  {
    assert ([r] + rest)[1..] == rest;
  }

  /** The question phase from the cursor at submodule `i`: one reply per
      remaining submodule and one more that closes. */
  predicate QuestionScript(s: Session, replies: seq<string>, picks: seq<nat>) {
    && s.state == AskingQuestions && s.submoduleIndex + |picks| == |s.submodules|
    && |replies| == |picks| + 1
    && forall j :: 0 <= j < |picks| ==> picks[j] < |s.submodules[s.submoduleIndex + j].questions|
  }

  /** After one question the rest of the script is a script again. */
  lemma QuestionScriptTail(s: Session, modules: seq<MainModule>, replies: seq<string>, picks: seq<nat>)
    requires QuestionScript(s, replies, picks) && picks != []
    ensures PickInRange(Heard(s, replies[0]), modules, picks[0])
    ensures QuestionScript(Chat(s, modules, replies[0], picks[0]).session, replies[1..], picks[1..])
  {
    AskStep(s, modules, replies[0], picks[0]);
    var s1 := Chat(s, modules, replies[0], picks[0]).session;
    forall j | 0 <= j < |picks[1..]|
      ensures picks[1..][j] < |s1.submodules[s1.submoduleIndex + j].questions|
    {
      assert picks[1..][j] == picks[j + 1];
    }
  }

  /** Every choice of the question phase is in range. */
  lemma {:induction false} QuestionFeasible(s: Session, modules: seq<MainModule>, replies: seq<string>, picks: seq<nat>)
    requires QuestionScript(s, replies, picks)
    ensures Feasible(s, modules, QuestionInputs(replies, picks))
    decreases |picks|
  {
    var ins := QuestionInputs(replies, picks);
    if picks == [] {
      CloseStep(s, modules, replies[0]);
      assert ins == [Input(replies[0], 0)] && ins[1..] == [];
    } else {
      QuestionScriptTail(s, modules, replies, picks);
      assert ins[0] == Input(replies[0], picks[0]) && ins[1..] == QuestionInputs(replies[1..], picks[1..]);
      QuestionFeasible(Chat(s, modules, replies[0], picks[0]).session, modules, replies[1..], picks[1..]);
    }
  }

  /** What the robot says in the question phase: the chosen phrasing of
      every remaining submodule, then the closing line. */
  lemma {:induction false} QuestionSaid(s: Session, modules: seq<MainModule>, replies: seq<string>, picks: seq<nat>)
    requires QuestionScript(s, replies, picks)
    ensures Feasible(s, modules, QuestionInputs(replies, picks))
    ensures Said(Run(s, modules, QuestionInputs(replies, picks)))
         == Chosen(s.submodules, s.submoduleIndex, picks) + [Some(Closing)]
    decreases |picks|
  {
    QuestionFeasible(s, modules, replies, picks);
    var ins := QuestionInputs(replies, picks);
    if picks == [] {
      CloseStep(s, modules, replies[0]);
      assert ins == [Input(replies[0], 0)] && ins[1..] == [];
      RunCons(s, modules, ins);
      SaidCons(Chat(s, modules, replies[0], 0), []);
    } else {
      ChosenCons(s.submodules, s.submoduleIndex, picks);
      AskStep(s, modules, replies[0], picks[0]);
      QuestionScriptTail(s, modules, replies, picks);
      var r := Chat(s, modules, replies[0], picks[0]);
      assert ins[0] == Input(replies[0], picks[0]) && ins[1..] == QuestionInputs(replies[1..], picks[1..]);
      QuestionSaid(r.session, modules, replies[1..], picks[1..]);
      RunCons(s, modules, ins);
      SaidCons(r, Run(r.session, modules, ins[1..]));
    }
  }

  /** Only the closing chat of the question phase finishes the conversation. */
  lemma {:induction false} QuestionFinished(s: Session, modules: seq<MainModule>, replies: seq<string>, picks: seq<nat>)
    requires QuestionScript(s, replies, picks)
    ensures Feasible(s, modules, QuestionInputs(replies, picks))
    ensures var rs := Run(s, modules, QuestionInputs(replies, picks));
            |rs| == |picks| + 1 && forall k :: 0 <= k < |rs| ==> (rs[k].finished <==> k == |rs| - 1)
    decreases |picks|
  {
    QuestionFeasible(s, modules, replies, picks);
    var ins := QuestionInputs(replies, picks);
    if picks == [] {
      CloseStep(s, modules, replies[0]);
      assert ins == [Input(replies[0], 0)] && ins[1..] == [];
      RunCons(s, modules, ins);
    } else {
      AskStep(s, modules, replies[0], picks[0]);
      QuestionScriptTail(s, modules, replies, picks);
      var r := Chat(s, modules, replies[0], picks[0]);
      assert ins[0] == Input(replies[0], picks[0]) && ins[1..] == QuestionInputs(replies[1..], picks[1..]);
      QuestionFinished(r.session, modules, replies[1..], picks[1..]);
      RunCons(s, modules, ins);
      FinishedLast(r, Run(r.session, modules, ins[1..]));
    }
  }

  lemma FinishedLast(r: ChatResult, rest: seq<ChatResult>)
    requires !r.finished && rest != []
    requires forall k :: 0 <= k < |rest| ==> (rest[k].finished <==> k == |rest| - 1)
    ensures forall k :: 0 <= k < |[r] + rest| ==> (([r] + rest)[k].finished <==> k == |[r] + rest| - 1)
  {
    forall k | 0 <= k < |[r] + rest| ensures (([r] + rest)[k].finished <==> k == |[r] + rest| - 1) {
      if k > 0 { assert ([r] + rest)[k] == rest[k - 1]; }
    }
  }

  /** A whole survey: after the greeting the patient grants permission and
      names an activity; the robot introduces main module `k`, asks one
      phrasing per submodule, and closes. Only the last chat finishes. */
  lemma FullSurvey(modules: seq<MainModule>, k: nat, consent: string, activity: string,
                   replies: seq<string>, picks: seq<nat>)
    requires k < |modules| && |picks| == |modules[k].submodules| && |replies| == |picks| + 1
    requires forall j :: 0 <= j < |picks| ==> picks[j] < |modules[k].submodules[j].questions|
    requires !Contains(consent, "ไม่")
    ensures var s0 := StartConversation().session;
            var ins := [Input(consent, 0), Input(activity, k)] + QuestionInputs(replies, picks);
            Feasible(s0, modules, ins)
            && Said(Run(s0, modules, ins))
               == [Some(ActivityQuestion), Some(Intro(modules[k].kind))]
                  + Chosen(modules[k].submodules, 0, picks) + [Some(Closing)]
            && var rs := Run(s0, modules, ins);
               |rs| == |picks| + 3 && forall j :: 0 <= j < |rs| ==> (rs[j].finished <==> j == |rs| - 1)
  {
    var qs := QuestionInputs(replies, picks);
    var x1, x2 := Input(consent, 0), Input(activity, k);
    SurveyFrom(StartConversation().session, modules, k, consent, activity, replies, picks);
    SurveyFinishes(StartConversation().session, modules, k, consent, activity, replies, picks);
    ConsTwo(x1, x2, qs);
    var chosen := Chosen(modules[k].submodules, 0, picks);
    ConsTwo(Some(ActivityQuestion), Some(Intro(modules[k].kind)), chosen + [Some(Closing)]);
  }

  lemma ConsTwo<T>(a: T, b: T, rest: seq<T>)
    ensures [a] + ([b] + rest) == [a, b] + rest
  {
  }

  /** The survey from any session awaiting permission. */
  lemma SurveyFrom(s0: Session, modules: seq<MainModule>, k: nat, consent: string, activity: string,
                   replies: seq<string>, picks: seq<nat>)
    requires s0.state == AwaitingPermission
    requires k < |modules| && |picks| == |modules[k].submodules| && |replies| == |picks| + 1
    requires forall j :: 0 <= j < |picks| ==> picks[j] < |modules[k].submodules[j].questions|
    requires !Contains(consent, "ไม่")
    ensures var ins := [Input(consent, 0)] + ([Input(activity, k)] + QuestionInputs(replies, picks));
            Feasible(s0, modules, ins)
            && Said(Run(s0, modules, ins))
               == [Some(ActivityQuestion)] + ([Some(Intro(modules[k].kind))]
                  + (Chosen(modules[k].submodules, 0, picks) + [Some(Closing)]))
  {
    var qs := QuestionInputs(replies, picks);
    var x1, x2 := Input(consent, 0), Input(activity, k);
    ConsentStep(s0, modules, consent);
    var r1 := Chat(s0, modules, consent, 0);
    ActivityStep(r1.session, modules, activity, k);
    var r2 := Chat(r1.session, modules, activity, k);
    QuestionSaid(r2.session, modules, replies, picks);
    SaidStep(r1.session, modules, x2, qs);
    SaidStep(s0, modules, x1, [x2] + qs);
  }

  /** In a survey from any session awaiting permission, only the last chat
      finishes the conversation. */
  lemma SurveyFinishes(s0: Session, modules: seq<MainModule>, k: nat, consent: string, activity: string,
                       replies: seq<string>, picks: seq<nat>)
    requires s0.state == AwaitingPermission
    requires k < |modules| && |picks| == |modules[k].submodules| && |replies| == |picks| + 1
    requires forall j :: 0 <= j < |picks| ==> picks[j] < |modules[k].submodules[j].questions|
    requires !Contains(consent, "ไม่")
    ensures var ins := [Input(consent, 0)] + ([Input(activity, k)] + QuestionInputs(replies, picks));
            Feasible(s0, modules, ins)
            && var rs := Run(s0, modules, ins);
               |rs| == |picks| + 3 && forall j :: 0 <= j < |rs| ==> (rs[j].finished <==> j == |rs| - 1)
  {
    var qs := QuestionInputs(replies, picks);
    var x1, x2 := Input(consent, 0), Input(activity, k);
    ConsentStep(s0, modules, consent);
    var r1 := Chat(s0, modules, consent, 0);
    ActivityStep(r1.session, modules, activity, k);
    var r2 := Chat(r1.session, modules, activity, k);
    QuestionFinished(r2.session, modules, replies, picks);
    var rest := Run(r2.session, modules, qs);
    RunStep(r1.session, modules, x2, qs);
    RunStep(s0, modules, x1, [x2] + qs);
    FinishedLast(r2, rest);
    FinishedLast(r1, [r2] + rest);
  }

  /** Consent, awaiting permission, leads to the question about the visit. */
  lemma ConsentStep(s: Session, modules: seq<MainModule>, consent: string)
    requires s.state == AwaitingPermission && !Contains(consent, "ไม่")
    ensures PickInRange(Heard(s, consent), modules, 0)
    ensures var r := Chat(s, modules, consent, 0);
            r.robotText == Some(ActivityQuestion) && r.session.state == AwaitingActivity
  {
    RefusalIff(AwaitingPermission, consent);
  }

  /** The answer about the visit leads to main module `k` being introduced. */
  lemma ActivityStep(s: Session, modules: seq<MainModule>, activity: string, k: nat)
    requires s.state == AwaitingActivity && k < |modules|
    ensures PickInRange(Heard(s, activity), modules, k)
    ensures var r := Chat(s, modules, activity, k);
            && r.robotText == Some(Intro(modules[k].kind)) && r.session.state == AskingQuestions
            && r.session.submodules == modules[k].submodules && r.session.submoduleIndex == 0
  {
  }

  /** A refusal ends the conversation at once with the farewell. */
  lemma Refusal(modules: seq<MainModule>, reply: string)
    requires Contains(reply, "ไม่")
    ensures var r := Chat(StartConversation().session, modules, reply, 0);
            r.robotText == Some(Farewell) && r.finished
            && r.session.turns == [Turn(Robot, Greeting, ""), Turn(Patient, "", reply), Turn(Robot, Farewell, "")]
  {
    RefusalIff(AwaitingPermission, reply);
  }
}
