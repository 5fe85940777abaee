/** Reconstruction of question/answer pairs from a conversation log
    (`llm_analyze.py`, lines 65-150): the question classifier, the fuzzy
    submodule attribution and the walk over the turns with one pending
    question slot. */
module Pairing {
  import opened Text
  import opened Records

  /** Greeting and closing words: a robot line containing one is never a question. */
  const IgnoreWords: seq<string> :=
    ["สวัสดี", "ขอรบกวน", "ขออนุญาต", "ขออนุญาติ", "ขอบคุณ", "เริ่ม", "สิ้นสุด", "จบเซสชัน"]

  /** Interrogative particles whose presence marks a question. */
  const QuestionWords: seq<string> := ["หรือไม่", "ไหม", "อะไร", "อย่างไร", "เพิ่มเติม"]

  /** Openings that mark a question. */
  const LeadIns: seq<string> := ["วันนี้ท่านมาใช้บริการอะไร", "ท่าน"]

  /** The module label given to a pair with no submodule and no main module. */
  const GeneralModule: string := "ทั่วไป"

  /** The least similarity ratio at which a submodule is attributed. */
  const MatchThreshold: real := 0.45

  type Ratio = r: real | 0.0 <= r <= 1.0

  /** The similarity ratio of a question and a candidate phrasing, as the
      sequence matcher of Python's `difflib` computes it; left abstract. */
  type Similarity = (string, string) -> Ratio

  predicate ContainsAny(t: string, words: seq<string>) {
    exists k :: 0 <= k < |words| && Contains(t, words[k])
  }

  predicate StartsWithAny(t: string, words: seq<string>) {
    exists k :: 0 <= k < |words| && StartsWith(t, words[k])
  }

  // ---------------------------------------------------------------- answers

  /** The answer text of a patient turn: `text_raw` if it is non-empty, else
      `text`, stripped. */
  function ChooseAnswerText(turn: Turn): (r: string)
    ensures IsStripped(r)
    ensures turn.textRaw != "" ==> r == Strip(turn.textRaw)
    ensures turn.textRaw == "" ==> r == Strip(turn.text)
  {
    Strip(Or(turn.textRaw, turn.text))
  }

  /** A `text_raw` of white space only still wins over `text`, so the answer
      is empty even when `text` holds words. */
  lemma BlankRawHidesText(turn: Turn)
    requires turn.textRaw != "" && AllSpace(turn.textRaw)
    ensures ChooseAnswerText(turn) == ""
  {
    StripMiddle(turn.textRaw);
  }

  // ------------------------------------------------------------- classifier

  /** An occurrence of a non-empty pattern without white space at its ends
      survives `strip()`. */
  lemma ContainsSurvivesStrip(s: string, p: string)
    requires |p| > 0 && IsStripped(p) && Contains(s, p)
    ensures Contains(Strip(s), p)
  {
    StripMiddle(s);
    var r := Strip(s);
    var i :| 0 <= i <= |s| - |r| && AllSpace(s[..i]) && r == s[i..i + |r|] && AllSpace(s[i + |r|..]);
    var j := ContainsWitness(s, p);
    OccurrenceInside(s, r, i, p, j);
  }

  /** An occurrence of `p` at `j` lies inside the middle part `r` of `s`
      when the parts around `r` are white space and `p` does not begin or
      end with white space. */
  lemma OccurrenceInside(s: string, r: string, i: nat, p: string, j: nat)
    requires i + |r| <= |s| && r == s[i..i + |r|]
    requires AllSpace(s[..i]) && AllSpace(s[i + |r|..])
    requires |p| > 0 && IsStripped(p) && j + |p| <= |s| && s[j..j + |p|] == p
    ensures Contains(r, p)
  {
    var e := j + |p|;
    assert !IsSpace(s[j]) by { assert s[j] == p[0]; }
    assert !IsSpace(s[e - 1]) by { assert s[e - 1] == p[|p| - 1]; }
    SpaceBefore(s, i, j);
    SpaceAfter(s, i + |r|, e - 1);
    ContainsInside(s, i, i + |r|, j, p);
  }

  /** Positions inside an all-space prefix or suffix hold white space. */
  lemma SpaceBefore(s: string, n: nat, k: nat)
    requires n <= |s| && AllSpace(s[..n]) && k < |s|
    ensures k < n ==> IsSpace(s[k])
  {
    if k < n {
      assert s[..n][k] == s[k];
    }
  }

  lemma SpaceAfter(s: string, n: nat, k: nat)
    requires n <= |s| && AllSpace(s[n..]) && k < |s|
    ensures n <= k ==> IsSpace(s[k])
  {
    if n <= k {
      assert s[n..][k - n] == s[k];
    }
  }

  /** An occurrence inside `s[lo..hi]` is an occurrence in that slice. */
  lemma ContainsInside(s: string, lo: nat, hi: nat, a: nat, p: string)
    requires lo <= a && a + |p| <= hi <= |s| && s[a..a + |p|] == p
    ensures Contains(s[lo..hi], p)
  {
    SliceOfSlice(s, lo, hi, a, a + |p|);
    ContainsAt(s[lo..hi], a - lo, p);
  }

  lemma SliceOfSlice(s: string, lo: nat, hi: nat, a: nat, b: nat)
    requires lo <= a <= b <= hi <= |s|
    ensures s[lo..hi][a - lo..b - lo] == s[a..b]
  {
    var t := s[lo..hi][a - lo..b - lo];
    assert |t| == b - a;
    forall k | 0 <= k < b - a
      ensures t[k] == s[a..b][k]
    {
      assert t[k] == s[lo..hi][a - lo + k] == s[a + k];
    }
  }

  lemma IgnoreWordsStripped()
    ensures forall k :: 0 <= k < |IgnoreWords| ==> |IgnoreWords[k]| > 0 && IsStripped(IgnoreWords[k])
  {
  }

  lemma IgnoreWordSurvivesStrip(text: string)
    ensures ContainsAny(text, IgnoreWords) ==> ContainsAny(Strip(text), IgnoreWords)
  {
    if ContainsAny(text, IgnoreWords) {
      var k :| 0 <= k < |IgnoreWords| && Contains(text, IgnoreWords[k]);
      IgnoreWordsStripped();
      ContainsSurvivesStrip(text, IgnoreWords[k]);
    }
  }

  /** Whether a robot line is taken for a survey question (lines 75-89). */
  function LooksLikeQuestion(text: string): bool {
    var t := Strip(text);
    if t == "" || ContainsAny(t, IgnoreWords) then
      false
    else
      EndsWith(t, "?") || ContainsAny(t, QuestionWords) || StartsWithAny(t, LeadIns)
  }

  /** Blank lines and lines holding a greeting or closing word anywhere are
      not questions; any other line is one exactly when it ends in "?",
      holds a particle or opens with "ท่าน". */
  lemma LooksLikeQuestionSpec(text: string)
    ensures AllSpace(text) ==> !LooksLikeQuestion(text)
    ensures ContainsAny(text, IgnoreWords) ==> !LooksLikeQuestion(text)
    ensures LooksLikeQuestion(text) ==> Strip(text) != "" && !ContainsAny(Strip(text), IgnoreWords)
    ensures Strip(text) != "" && !ContainsAny(Strip(text), IgnoreWords)
            && (EndsWith(Strip(text), "?") || ContainsAny(Strip(text), QuestionWords)
                || StartsWith(Strip(text), "ท่าน"))
            ==> LooksLikeQuestion(text)
    ensures LooksLikeQuestion(text) ==>
              EndsWith(Strip(text), "?") || ContainsAny(Strip(text), QuestionWords)
              || StartsWith(Strip(text), "ท่าน")
  {
    var t := Strip(text);
    StripMiddle(text);
    IgnoreWordSurvivesStrip(text);
    assert LeadIns[1] == "ท่าน";
    assert StartsWith(t, "ท่าน") ==> StartsWith(t, LeadIns[1]);
    if StartsWith(t, LeadIns[0]) {
      LongLeadInRedundant(t);
      assert Contains(t, QuestionWords[2]);
    }
  }

  /** The first opening is redundant: a line starting with it contains the
      particle "อะไร" anyway. */
  lemma LongLeadInRedundant(t: string)
    requires StartsWith(t, LeadIns[0])
    ensures Contains(t, QuestionWords[2])
  {
    assert LeadIns[0][21..25] == QuestionWords[2];
    assert t[21..25] == LeadIns[0][21..25];
    ContainsAt(t, 21, QuestionWords[2]);
  }

  // ------------------------------------------------------ submodule guessing

  datatype Candidate = Candidate(name: string, question: string)

  /** The questions of one submodule, tagged with its name. */
  function OwnCandidates(sub: Submodule): (r: seq<Candidate>)
    ensures |r| == |sub.questions|
    ensures forall j :: 0 <= j < |r| ==> r[j] == Candidate(sub.name, sub.questions[j])
  {
    seq(|sub.questions|, j requires 0 <= j < |sub.questions| => Candidate(sub.name, sub.questions[j]))
  }

  /** Every submodule question, in the order the nested loops of lines 95-97 visit them. */
  function Candidates(subs: seq<Submodule>): seq<Candidate>
    decreases |subs|
  {
    if subs == [] then [] else Candidates(subs[..|subs| - 1]) + OwnCandidates(subs[|subs| - 1])
  }

  /** Submodule `sub` holds candidate `c` among its questions. */
  predicate Owns(sub: Submodule, c: Candidate) {
    c.name == sub.name && c.question in sub.questions
  }

  /** The candidates are exactly the (name, question) pairs of the submodules. */
  lemma {:induction false} CandidatesMembers(subs: seq<Submodule>)
    ensures forall k :: 0 <= k < |Candidates(subs)| ==>
              exists i :: 0 <= i < |subs| && Owns(subs[i], Candidates(subs)[k])
    ensures forall i, j :: 0 <= i < |subs| && 0 <= j < |subs[i].questions| ==>
              Candidate(subs[i].name, subs[i].questions[j]) in Candidates(subs)
    decreases |subs|
  {
    if subs != [] {
      var front := subs[..|subs| - 1];
      var last := subs[|subs| - 1];
      CandidatesMembers(front);
      var c := Candidates(front);
      var r := Candidates(subs);
      assert r == c + OwnCandidates(last);
      assert forall i :: 0 <= i < |front| ==> front[i] == subs[i];
      forall k | 0 <= k < |r|
        ensures exists i :: 0 <= i < |subs| && Owns(subs[i], r[k])
      {
        if k < |c| {
          assert r[k] == c[k];
          var i :| 0 <= i < |front| && Owns(front[i], c[k]);
          assert front[i] == subs[i];
        } else {
          var n := |subs| - 1;
          assert r[k] == Candidate(last.name, last.questions[k - |c|]);
          assert last.questions[k - |c|] in last.questions;
          assert Owns(subs[n], r[k]);
        }
      }
      forall i, j | 0 <= i < |subs| && 0 <= j < |subs[i].questions|
        ensures Candidate(subs[i].name, subs[i].questions[j]) in r
      {
        if i < |front| {
          assert Candidate(front[i].name, front[i].questions[j]) in c;
        } else {
          assert r[|c| + j] == Candidate(subs[i].name, subs[i].questions[j]);
        }
      }
    } else {
      assert Candidates(subs) == [];
    }
  }

  /** The scan's running best: the name it holds and the ratio it reached. */
  datatype Best = Best(name: Option<string>, ratio: real)

  /** Candidate `k` has the greatest ratio, and no earlier candidate reaches it. */
  predicate IsFirstMax(question: string, cands: seq<Candidate>, sim: Similarity, k: int) {
    && 0 <= k < |cands|
    && (forall j :: 0 <= j < |cands| ==> sim(question, cands[j].question) <= sim(question, cands[k].question))
    && (forall j :: 0 <= j < k ==> sim(question, cands[j].question) < sim(question, cands[k].question))
  }

  /** The state of the loop of lines 93-101 once it has seen `cands`: a
      candidate replaces the best only with a strictly greater ratio. */
  function Scan(question: string, cands: seq<Candidate>, sim: Similarity): Best
    decreases |cands|
  {
    if cands == [] then Best(None, 0.0)
    else
      var prev := Scan(question, cands[..|cands| - 1], sim);
      var c := cands[|cands| - 1];
      if sim(question, c.question) > prev.ratio then Best(Some(c.name), sim(question, c.question)) else prev
  }

  /** The scan ends holding the greatest ratio (or 0.0), and a name exactly
      when some ratio is positive: that of the first candidate reaching it. */
  lemma {:induction false} ScanSpec(question: string, cands: seq<Candidate>, sim: Similarity)
    ensures var r := Scan(question, cands, sim);
      && 0.0 <= r.ratio
      && (forall j :: 0 <= j < |cands| ==> sim(question, cands[j].question) <= r.ratio)
      && (r.name == None <==> r.ratio == 0.0)
      && (r.name != None ==>
            exists k :: (IsFirstMax(question, cands, sim, k)
                         && cands[k].name == r.name.value && sim(question, cands[k].question) == r.ratio))
    decreases |cands|
  {
    if cands != [] {
      var front := cands[..|cands| - 1];
      var c := cands[|cands| - 1];
      ScanSpec(question, front, sim);
      var prev := Scan(question, front, sim);
      assert forall j :: 0 <= j < |front| ==> front[j] == cands[j];
      if sim(question, c.question) > prev.ratio {
        assert IsFirstMax(question, cands, sim, |cands| - 1);
      } else if prev.name != None {
        var k :| IsFirstMax(question, front, sim, k)
                 && front[k].name == prev.name.value && sim(question, front[k].question) == prev.ratio;
        assert IsFirstMax(question, cands, sim, k);
      }
    }
  }

  /** `best_submodule_for`: the submodule owning the first best-matching
      question, provided its ratio reaches the threshold. */
  function BestSubmoduleFor(question: string, subs: seq<Submodule>, sim: Similarity): Option<string> {
    var best := Scan(question, Candidates(subs), sim);
    if best.ratio >= MatchThreshold then best.name else None
  }

  /** No submodule is guessed when there are none or when no question
      reaches the threshold; otherwise the guess names the submodule of the
      first question with the greatest ratio. */
  lemma BestSubmoduleSpec(question: string, subs: seq<Submodule>, sim: Similarity)
    ensures var r := BestSubmoduleFor(question, subs, sim);
      && (subs == [] ==> r == None)
      && (r == None <==> forall k :: 0 <= k < |Candidates(subs)| ==>
                           sim(question, Candidates(subs)[k].question) < MatchThreshold)
      && (r != None ==> exists k :: IsFirstMax(question, Candidates(subs), sim, k)
                          && Candidates(subs)[k].name == r.value
                          && MatchThreshold <= sim(question, Candidates(subs)[k].question))
      && (r != None ==> exists i :: 0 <= i < |subs| && subs[i].name == r.value)
  {
    var cands := Candidates(subs);
    var best := Scan(question, cands, sim);
    CandidatesMembers(subs);
    ScanSpec(question, cands, sim);
    if subs == [] {
      assert cands == [];
    }
    if best.ratio < MatchThreshold {
      assert forall k :: 0 <= k < |cands| ==> sim(question, cands[k].question) < MatchThreshold;
    } else {
      assert best.name != None;
      var k :| IsFirstMax(question, cands, sim, k) && cands[k].name == best.name.value
               && sim(question, cands[k].question) == best.ratio;
      assert 0 <= k < |cands| && !(sim(question, cands[k].question) < MatchThreshold);
      var i :| 0 <= i < |subs| && Owns(subs[i], cands[k]);
    }
  }

  /** One more candidate moves the scan only if it beats the best strictly. */
  lemma ScanStep(question: string, cands: seq<Candidate>, c: Candidate, sim: Similarity)
    ensures Scan(question, cands + [c], sim)
         == if sim(question, c.question) > Scan(question, cands, sim).ratio
            then Best(Some(c.name), sim(question, c.question))
            else Scan(question, cands, sim)
  {
    assert (cands + [c])[..|cands|] == cands;
    assert (cands + [c])[|cands|] == c;
  }

  lemma CandidatesStep(subs: seq<Submodule>, i: nat)
    requires i < |subs|
    ensures Candidates(subs[..i + 1]) == Candidates(subs[..i]) + OwnCandidates(subs[i])
  {
    assert subs[..i + 1][..i] == subs[..i];
    assert subs[..i + 1][i] == subs[i];
  }

  lemma TakeOneMore<T>(a: seq<T>, b: seq<T>, j: nat)
    requires j < |b|
    ensures a + b[..j + 1] == (a + b[..j]) + [b[j]]
  {
    assert b[..j + 1] == b[..j] + [b[j]];
  }

  /** The inner loop of lines 97-101 over the questions of one submodule,
      continuing a scan that has already seen `seen`. */
  method ScanSubmodule(question: string, sub: Submodule, sim: Similarity, ghost seen: seq<Candidate>, start: Best)
    returns (best: Best)
    requires start == Scan(question, seen, sim)
    ensures best == Scan(question, seen + OwnCandidates(sub), sim)
  {
    best := start;
    ghost var own := OwnCandidates(sub);
    assert seen + own[..0] == seen;
    for j := 0 to |sub.questions|
      invariant best == Scan(question, seen + own[..j], sim)
    {
      var c := Candidate(sub.name, sub.questions[j]);
      ghost var before := seen + own[..j];
      ScanStep(question, before, c, sim);
      TakeOneMore(seen, own, j);
      var ratio := sim(question, sub.questions[j]);
      if ratio > best.ratio {
        best := Best(Some(sub.name), ratio);
      }
    }
    assert own[..|sub.questions|] == own;
  }

  /** The nested loops of lines 91-103, computing the same answer. */
  method FindBestSubmodule(question: string, subs: seq<Submodule>, sim: Similarity) returns (r: Option<string>)
    ensures r == BestSubmoduleFor(question, subs, sim)
  {
    var best := Best(None, 0.0);
    assert subs[..0] == [];
    for i := 0 to |subs|
      invariant best == Scan(question, Candidates(subs[..i]), sim)
    {
      CandidatesStep(subs, i);
      best := ScanSubmodule(question, subs[i], sim, Candidates(subs[..i]), best);
    }
    assert subs[..|subs|] == subs;
    r := if best.ratio >= MatchThreshold then best.name else None;
  }

  // ------------------------------------------------------------ the walk

  /** What the analyser reads from a log besides its turns. */
  datatype Survey = Survey(mainModule: string, submodules: seq<Submodule>)

  /** The pending slot: a captured question and the module it is filed under. */
  datatype Pending = Pending(question: string, moduleName: string)

  datatype QAPair = QAPair(moduleName: string, question: string, answer: string)

  /** Robot turn `t` is captured as a question. */
  predicate IsCaptured(t: Turn) {
    t.who == Robot && LooksLikeQuestion(Strip(t.text))
  }

  /** The module a captured question is filed under (line 129): the guessed
      submodule if that name is non-empty, else the main module. */
  function GuessModule(sv: Survey, sim: Similarity, question: string): (m: string)
    ensures BestSubmoduleFor(question, sv.submodules, sim) == None ==> m == sv.mainModule
    ensures BestSubmoduleFor(question, sv.submodules, sim).Some?
            && BestSubmoduleFor(question, sv.submodules, sim).value != "" ==>
              m == BestSubmoduleFor(question, sv.submodules, sim).value
    ensures BestSubmoduleFor(question, sv.submodules, sim) == Some("") ==> m == sv.mainModule
    ensures m == "" ==> sv.mainModule == ""
  {
    match BestSubmoduleFor(question, sv.submodules, sim)
    case Some(name) => Or(name, sv.mainModule)
    case None => sv.mainModule
  }

  /** The slot after turn `t`: a captured question overwrites it, a patient
      turn empties it, and any other turn leaves it as it is. */
  function NextPending(sv: Survey, sim: Similarity, t: Turn, pending: Option<Pending>): Option<Pending> {
    match t.who
    case Robot =>
      var q := Strip(t.text);
      if LooksLikeQuestion(q) then Some(Pending(q, GuessModule(sv, sim, q))) else pending
    case Patient => None
    case Unknown => pending
  }

  /** The pair turn `t` completes: only a patient turn meeting a pending question. */
  function Emitted(sv: Survey, t: Turn, pending: Option<Pending>): seq<QAPair> {
    if t.who == Patient && pending.Some? then
      [QAPair(Or(pending.value.moduleName, sv.mainModule), pending.value.question, ChooseAnswerText(t))]
    else
      []
  }

  /** The loop of lines 121-144 from slot `pending` onwards. */
  function Walk(sv: Survey, sim: Similarity, turns: seq<Turn>, pending: Option<Pending>): seq<QAPair>
    decreases |turns|
  {
    if turns == [] then []
    else Emitted(sv, turns[0], pending) + Walk(sv, sim, turns[1..], NextPending(sv, sim, turns[0], pending))
  }

  /** The slot after the loop has consumed `turns`. */
  function After(sv: Survey, sim: Similarity, turns: seq<Turn>, pending: Option<Pending>): Option<Pending>
    decreases |turns|
  {
    if turns == [] then pending else After(sv, sim, turns[1..], NextPending(sv, sim, turns[0], pending))
  }

  /** Lines 147-149: a pair left without a module is filed under the general module. */
  function FillGeneral(pairs: seq<QAPair>): (r: seq<QAPair>)
    ensures |r| == |pairs|
    ensures forall k :: 0 <= k < |r| ==> r[k].moduleName != ""
    ensures forall k :: 0 <= k < |r| && pairs[k].moduleName != "" ==> r[k] == pairs[k]
    ensures forall k :: 0 <= k < |r| && pairs[k].moduleName == "" ==>
              r[k] == pairs[k].(moduleName := GeneralModule)
  {
    seq(|pairs|, k requires 0 <= k < |pairs| =>
      var p := pairs[k];
      if p.moduleName == "" then p.(moduleName := GeneralModule) else p)
  }

  function PatientCount(turns: seq<Turn>): nat
    decreases |turns|
  {
    if turns == [] then 0 else (if turns[0].who == Patient then 1 else 0) + PatientCount(turns[1..])
  }

  /** `chatlog_turns_to_qa_list`. */
  function TurnsToQAList(sv: Survey, sim: Similarity, turns: seq<Turn>): (r: seq<QAPair>)
    ensures |r| <= PatientCount(turns)
    ensures forall k :: 0 <= k < |r| ==> r[k].moduleName != ""
  {
    WalkBound(sv, sim, turns, None);
    FillGeneral(Walk(sv, sim, turns, None))
  }

  /** At most one pair per patient turn. */
  lemma {:induction false} WalkBound(sv: Survey, sim: Similarity, turns: seq<Turn>, pending: Option<Pending>)
    ensures |Walk(sv, sim, turns, pending)| <= PatientCount(turns)
    decreases |turns|
  {
    if turns != [] {
      WalkBound(sv, sim, turns[1..], NextPending(sv, sim, turns[0], pending));
    }
  }

  /** The pairs of a log are those of its first part followed by those of
      the rest, read from the slot the first part leaves. */
  lemma {:induction false} WalkSplit(sv: Survey, sim: Similarity, a: seq<Turn>, b: seq<Turn>, pending: Option<Pending>)
    ensures Walk(sv, sim, a + b, pending)
         == Walk(sv, sim, a, pending) + Walk(sv, sim, b, After(sv, sim, a, pending))
    decreases |a|
  {
    if a == [] {
      assert a + b == b;
    } else {
      assert (a + b)[0] == a[0];
      assert (a + b)[1..] == a[1..] + b;
      WalkSplit(sv, sim, a[1..], b, NextPending(sv, sim, a[0], pending));
    }
  }

  /** Removing turn `t` from between `a` and `b` changes nothing when `t`
      emits no pair and leaves the slot as `a` left it. */
  lemma {:induction false} InertTurn(sv: Survey, sim: Similarity, a: seq<Turn>, t: Turn, b: seq<Turn>)
    requires Emitted(sv, t, After(sv, sim, a, None)) == []
    requires NextPending(sv, sim, t, After(sv, sim, a, None)) == After(sv, sim, a, None)
    ensures TurnsToQAList(sv, sim, a + [t] + b) == TurnsToQAList(sv, sim, a + b)
  {
    var p := After(sv, sim, a, None);
    WalkSplit(sv, sim, a, [t] + b, None);
    WalkSplit(sv, sim, a, b, None);
    WalkCons(sv, sim, [t] + b, p);
    assert ([t] + b)[0] == t && ([t] + b)[1..] == b;
    assert a + [t] + b == a + ([t] + b);
    assert Walk(sv, sim, [t] + b, p) == Walk(sv, sim, b, p);
  }

  /** A robot line that is not taken for a question changes nothing. */
  lemma MetaTurnIgnored(sv: Survey, sim: Similarity, a: seq<Turn>, t: Turn, b: seq<Turn>)
    requires t.who == Robot && !LooksLikeQuestion(Strip(t.text))
    ensures TurnsToQAList(sv, sim, a + [t] + b) == TurnsToQAList(sv, sim, a + b)
  {
    InertTurn(sv, sim, a, t, b);
  }

  /** A patient turn met by an empty slot is dropped. */
  lemma OrphanAnswerDropped(sv: Survey, sim: Similarity, a: seq<Turn>, t: Turn, b: seq<Turn>)
    requires t.who == Patient && After(sv, sim, a, None) == None
    ensures TurnsToQAList(sv, sim, a + [t] + b) == TurnsToQAList(sv, sim, a + b)
  {
    InertTurn(sv, sim, a, t, b);
  }

  /** A captured question followed directly by another is dropped: only the
      newer one can be answered. */
  lemma NewerQuestionOverwrites(sv: Survey, sim: Similarity, a: seq<Turn>, q1: Turn, q2: Turn, b: seq<Turn>)
    requires IsCaptured(q1) && IsCaptured(q2)
    ensures TurnsToQAList(sv, sim, a + [q1, q2] + b) == TurnsToQAList(sv, sim, a + [q2] + b)
  {
    var p := After(sv, sim, a, None);
    var p1 := NextPending(sv, sim, q1, p);
    WalkSplit(sv, sim, a, [q1, q2] + b, None);
    WalkSplit(sv, sim, a, [q2] + b, None);
    WalkCons(sv, sim, [q1, q2] + b, p);
    WalkCons(sv, sim, [q2] + b, p1);
    WalkCons(sv, sim, [q2] + b, p);
    assert ([q1, q2] + b)[0] == q1 && ([q1, q2] + b)[1..] == [q2] + b;
    assert ([q2] + b)[0] == q2 && ([q2] + b)[1..] == b;
    assert NextPending(sv, sim, q2, p1) == NextPending(sv, sim, q2, p);
    assert Walk(sv, sim, [q1, q2] + b, p) == Walk(sv, sim, [q2] + b, p1) == Walk(sv, sim, [q2] + b, p);
    assert a + [q1, q2] + b == a + ([q1, q2] + b);
    assert a + [q2] + b == a + ([q2] + b);
  }

  // ------------------------------------------- reference reading of a log

  /** Index of the question open just before turn `i`: the latest captured
      question with no patient turn after it. */
  function OpenQuestion(turns: seq<Turn>, i: nat): (r: Option<nat>)
    requires i <= |turns|
    ensures r != None ==>
              && r.value < i && IsCaptured(turns[r.value])
              && forall j :: r.value < j < i ==> turns[j].who != Patient && !IsCaptured(turns[j])
    decreases i
  {
    if i == 0 then None
    else if turns[i - 1].who == Patient then None
    else if IsCaptured(turns[i - 1]) then Some(i - 1)
    else OpenQuestion(turns, i - 1)
  }

  /** When no question is open, every captured question so far has been
      followed by a patient turn. */
  lemma {:induction false} NoOpenQuestion(turns: seq<Turn>, i: nat)
    requires i <= |turns| && OpenQuestion(turns, i) == None
    ensures forall j {:trigger IsCaptured(turns[j])} :: 0 <= j < i && IsCaptured(turns[j]) ==>
              exists p :: j < p < i && turns[p].who == Patient
    decreases i
  {
    if i > 0 && turns[i - 1].who != Patient {
      NoOpenQuestion(turns, i - 1);
    }
  }

  /** The pair answered by patient turn `p` to the question at turn `j`. */
  function PairAt(sv: Survey, sim: Similarity, turns: seq<Turn>, j: nat, p: nat): QAPair
    requires j < p < |turns|
  {
    var q := Strip(turns[j].text);
    QAPair(Or(GuessModule(sv, sim, q), sv.mainModule), q, ChooseAnswerText(turns[p]))
  }

  /** The pairs expected from `turns[..i]`: one for each patient turn that
      finds a question open, in the order of the patient turns. */
  function Expected(sv: Survey, sim: Similarity, turns: seq<Turn>, i: nat): seq<QAPair>
    requires i <= |turns|
    decreases i
  {
    if i == 0 then []
    else
      var p := i - 1;
      Expected(sv, sim, turns, p)
        + match OpenQuestion(turns, p)
          case Some(j) => if turns[p].who == Patient then [PairAt(sv, sim, turns, j, p)] else []
          case None => []
  }

  function SlotAt(sv: Survey, sim: Similarity, turns: seq<Turn>, i: nat): Option<Pending>
    requires i <= |turns|
  {
    match OpenQuestion(turns, i)
    case Some(j) => var q := Strip(turns[j].text); Some(Pending(q, GuessModule(sv, sim, q)))
    case None => None
  }

  /** One turn moves the slot of the walk as the reference reading predicts. */
  lemma StepMatches(sv: Survey, sim: Similarity, turns: seq<Turn>, i: nat)
    requires i < |turns|
    ensures NextPending(sv, sim, turns[i], SlotAt(sv, sim, turns, i)) == SlotAt(sv, sim, turns, i + 1)
    ensures Expected(sv, sim, turns, i + 1) == Expected(sv, sim, turns, i) + Emitted(sv, turns[i], SlotAt(sv, sim, turns, i))
  {
    var t := turns[i];
    if t.who == Patient {
      assert OpenQuestion(turns, i + 1) == None;
    } else if IsCaptured(t) {
      assert OpenQuestion(turns, i + 1) == Some(i);
    } else {
      assert OpenQuestion(turns, i + 1) == OpenQuestion(turns, i);
    }
  }

  lemma WalkCons(sv: Survey, sim: Similarity, turns: seq<Turn>, pending: Option<Pending>)
    requires turns != []
    ensures Walk(sv, sim, turns, pending)
         == Emitted(sv, turns[0], pending) + Walk(sv, sim, turns[1..], NextPending(sv, sim, turns[0], pending))
  {
  }

  lemma Regroup<T>(all: seq<T>, front: seq<T>, back: seq<T>, x: seq<T>, e: seq<T>, w: seq<T>)
    requires all == front + back && front == x + e && w == e + back
    ensures all == x + w
  {
  }

  lemma {:induction false} WalkFrom(sv: Survey, sim: Similarity, turns: seq<Turn>, i: nat)
    requires i <= |turns|
    ensures Expected(sv, sim, turns, |turns|) == Expected(sv, sim, turns, i) + Walk(sv, sim, turns[i..], SlotAt(sv, sim, turns, i))
    decreases |turns| - i
  {
    if i < |turns| {
      var rest := turns[i..];
      var s0 := SlotAt(sv, sim, turns, i);
      var s1 := SlotAt(sv, sim, turns, i + 1);
      var e := Emitted(sv, turns[i], s0);
      WalkFrom(sv, sim, turns, i + 1);
      StepMatches(sv, sim, turns, i);
      WalkCons(sv, sim, rest, s0);
      assert rest[0] == turns[i];
      assert rest[1..] == turns[i + 1..];
      Regroup(Expected(sv, sim, turns, |turns|), Expected(sv, sim, turns, i + 1), Walk(sv, sim, turns[i + 1..], s1),
              Expected(sv, sim, turns, i), e, Walk(sv, sim, rest, s0));
    } else {
      assert turns[i..] == [];
    }
  }

  /** The walk with one pending slot yields exactly the expected pairs: each
      patient turn answers the latest captured question after the previous
      patient turn, if there is one, and pairs come in turn order. */
  lemma WalkMatchesExpected(sv: Survey, sim: Similarity, turns: seq<Turn>)
    ensures Walk(sv, sim, turns, None) == Expected(sv, sim, turns, |turns|)
  {
    WalkFrom(sv, sim, turns, 0);
    assert turns[0..] == turns;
  }

  /** A question superseded by a later one before any patient turn is never answered. */
  lemma SupersededNeverAnswered(turns: seq<Turn>, j: nat, j2: nat, p: nat)
    requires j < j2 < |turns| && IsCaptured(turns[j]) && IsCaptured(turns[j2])
    requires forall k :: j < k < j2 ==> turns[k].who != Patient
    requires p < |turns| && turns[p].who == Patient
    ensures OpenQuestion(turns, p) != Some(j)
  {
  }

  // --------------------------------------------------- complete exchanges

  /** Questions each answered at once by the next turn. */
  function Exchanges(qs: seq<Turn>, answers: seq<Turn>): seq<Turn>
    requires |qs| == |answers|
    decreases |qs|
  {
    if qs == [] then [] else [qs[0], answers[0]] + Exchanges(qs[1..], answers[1..])
  }

  /** A captured question answered by the very next turn yields its pair and
      leaves the slot empty. */
  lemma ExchangeStep(sv: Survey, sim: Similarity, q: Turn, a: Turn, rest: seq<Turn>, pending: Option<Pending>)
    requires IsCaptured(q) && a.who == Patient
    ensures var w := Walk(sv, sim, [q, a] + rest, pending);
            |w| >= 1 && w[0].question == Strip(q.text) && w[0].answer == ChooseAnswerText(a)
            && w[1..] == Walk(sv, sim, rest, None)
  {
    var ts := [q, a] + rest;
    var slot := NextPending(sv, sim, q, pending);
    assert slot.Some? && slot.value.question == Strip(q.text);
    WalkCons(sv, sim, ts, pending);
    assert ts[0] == q && ts[1..] == [a] + rest;
    WalkCons(sv, sim, [a] + rest, slot);
    assert ([a] + rest)[0] == a && ([a] + rest)[1..] == rest;
  }

  /** N captured questions each directly followed by a patient turn give
      exactly N pairs, in order. */
  lemma {:induction false} ExchangesAllPaired(sv: Survey, sim: Similarity, qs: seq<Turn>, answers: seq<Turn>, pending: Option<Pending>)
    requires |qs| == |answers|
    requires forall k :: 0 <= k < |qs| ==> IsCaptured(qs[k]) && answers[k].who == Patient
    ensures var r := Walk(sv, sim, Exchanges(qs, answers), pending);
            |r| == |qs| && forall k :: 0 <= k < |r| ==>
              r[k].question == Strip(qs[k].text) && r[k].answer == ChooseAnswerText(answers[k])
    decreases |qs|
  {
    if qs != [] {
      var rest := Exchanges(qs[1..], answers[1..]);
      assert Exchanges(qs, answers) == [qs[0], answers[0]] + rest;
      ExchangeStep(sv, sim, qs[0], answers[0], rest, pending);
      ExchangesAllPaired(sv, sim, qs[1..], answers[1..], None);
      var w := Walk(sv, sim, Exchanges(qs, answers), pending);
      forall k | 1 <= k < |w|
        ensures w[k].question == Strip(qs[k].text) && w[k].answer == ChooseAnswerText(answers[k])
      {
        assert w[k] == w[1..][k - 1];
        assert qs[1..][k - 1] == qs[k] && answers[1..][k - 1] == answers[k];
      }
    } else {
      assert Exchanges(qs, answers) == [];
    }
  }
}
