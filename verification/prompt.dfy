/** The text handed to the language model (`build_prompt_text`,
    `llm_analyze.py` lines 153-157): one section per pair, "module", "Q: ..."
    and "A: ..." on three lines, stripped, the sections joined by a single
    line feed. */
module Prompt {
  import opened Text
  import opened Pairing

  /** One pair's section, stripped as a whole. */
  function Section(p: QAPair): string {
    Strip(p.moduleName + "\nQ: " + p.question + "\nA: " + p.answer)
  }

  function Sections(log: seq<QAPair>): (r: seq<string>)
    ensures |r| == |log|
    ensures forall k :: 0 <= k < |r| ==> r[k] == Section(log[k])
  {
    seq(|log|, k requires 0 <= k < |log| => Section(log[k]))
  }

  function BuildPromptText(log: seq<QAPair>): string {
    Join(Sections(log), "\n")
  }

  // ------------------------------------------------------- section shape

  /** A field that fits on one line and has no white space at its ends. */
  predicate Plain(s: string) {
    IsStripped(s) && NoLineBreak(s)
  }

  /** A pair whose section reads back unchanged: a non-empty module name
      and plain fields. The analyser's own pairs have stripped questions and
      answers; module names come from the survey configuration. */
  predicate Promptable(p: QAPair) {
    p.moduleName != "" && Plain(p.moduleName) && Plain(p.question) && Plain(p.answer)
  }

  /** The three lines of a section. An empty answer leaves "A:" without its
      space, since the section is stripped. */
  function SectionLines(p: QAPair): seq<string> {
    [p.moduleName, "Q: " + p.question, if p.answer == "" then "A:" else "A: " + p.answer]
  }

  lemma JoinThree(a: string, b: string, c: string)
    ensures Join([a, b, c], "\n") == a + "\n" + b + "\n" + c
  {
    assert [a, b, c][1..] == [b, c];
    assert [b, c][1..] == [c];
    assert Join([b, c], "\n") == b + "\n" + c;
    assert a + "\n" + (b + "\n" + c) == a + "\n" + b + "\n" + c;
  }

  /** The section of a promptable pair is its three lines. */
  lemma SectionShape(p: QAPair)
    requires Promptable(p)
    ensures Section(p) == Join(SectionLines(p), "\n")
  {
    var m, q, a := p.moduleName, p.question, p.answer;
    var raw := m + "\nQ: " + q + "\nA: " + a;
    JoinThree(m, "Q: " + q, if a == "" then "A:" else "A: " + a);
    if a == "" {
      var mid := m + "\nQ: " + q + "\nA:";
      assert raw == "" + mid + " ";
      assert IsStripped(mid) by { assert mid[0] == m[0]; assert mid[|mid| - 1] == ':'; }
      StripOfPadded("", mid, " ");
      assert mid == m + "\n" + ("Q: " + q) + "\n" + "A:";
    } else {
      assert IsStripped(raw) by { assert raw[0] == m[0]; assert raw[|raw| - 1] == a[|a| - 1]; }
      StripStripped(raw);
      assert raw == m + "\n" + ("Q: " + q) + "\n" + ("A: " + a);
    }
  }

  /** The lines of all sections, in order. */
  function PromptLines(log: seq<QAPair>): seq<string>
    decreases |log|
  {
    if log == [] then [] else SectionLines(log[0]) + PromptLines(log[1..])
  }

  lemma {:induction false} PromptLinesSize(log: seq<QAPair>)
    ensures |PromptLines(log)| == 3 * |log|
    decreases |log|
  {
    if log != [] {
      PromptLinesSize(log[1..]);
    }
  }

  lemma {:induction false} PromptLinesPlain(log: seq<QAPair>)
    requires forall k :: 0 <= k < |log| ==> Promptable(log[k])
    ensures forall k :: 0 <= k < |PromptLines(log)| ==> NoLineBreak(PromptLines(log)[k])
    decreases |log|
  {
    if log != [] {
      PromptLinesPlain(log[1..]);
      var p := log[0];
      var sl := SectionLines(p);
      assert NoLineBreak(sl[1]) by {
        forall i | 0 <= i < |sl[1]| ensures !IsLineBreak(sl[1][i]) {
          if i >= 3 { assert sl[1][i] == p.question[i - 3]; }
        }
      }
      assert NoLineBreak(sl[2]) by {
        forall i | 0 <= i < |sl[2]| ensures !IsLineBreak(sl[2][i]) {
          if i >= 3 { assert sl[2][i] == p.answer[i - 3]; }
        }
      }
      var rest := PromptLines(log[1..]);
      forall k | 0 <= k < |sl + rest| ensures NoLineBreak((sl + rest)[k]) {
        if k >= 3 { assert (sl + rest)[k] == rest[k - 3]; }
      }
    }
  }

  /** Joining the sections equals joining all their lines. */
  lemma {:induction false} JoinSections(log: seq<QAPair>)
    requires |log| > 0
    requires forall k :: 0 <= k < |log| ==> Promptable(log[k])
    ensures BuildPromptText(log) == Join(PromptLines(log), "\n")
    decreases |log|
  {
    var p := log[0];
    SectionShape(p);
    var ss := Sections(log);
    if |log| == 1 {
      assert PromptLines(log[1..]) == [];
      assert PromptLines(log) == SectionLines(p) + [] == SectionLines(p);
      assert Join(ss, "\n") == ss[0];
    } else {
      var rest := log[1..];
      JoinSections(rest);
      PromptLinesSize(rest);
      assert ss[1..] == Sections(rest);
      JoinAppend(SectionLines(p), PromptLines(rest), "\n");
    }
  }

  // ---------------------------------------------------------- reading back

  /** `s` without a leading `tag`, if it has one. */
  function DropLabel(tag: string, s: string): string {
    if StartsWith(s, tag) then s[|tag|..] else s
  }

  /** Reads the lines of a prompt back, three at a time. */
  function ReadSections(lines: seq<string>): seq<QAPair>
    decreases |lines|
  {
    if |lines| < 3 then []
    else
      [QAPair(lines[0], Strip(DropLabel("Q:", lines[1])), Strip(DropLabel("A:", lines[2])))]
        + ReadSections(lines[3..])
  }

  function ReadPrompt(text: string): seq<QAPair> {
    ReadSections(Lines(text))
  }

  lemma ReadSectionBack(p: QAPair)
    requires Promptable(p)
    ensures var sl := SectionLines(p);
            QAPair(sl[0], Strip(DropLabel("Q:", sl[1])), Strip(DropLabel("A:", sl[2]))) == p
  {
    var sl := SectionLines(p);
    assert DropLabel("Q:", sl[1]) == " " + p.question by {
      assert sl[1][..2] == "Q:";
    }
    StripOfPadded(" ", p.question, "");
    assert " " + p.question + "" == " " + p.question;
    if p.answer == "" {
      assert DropLabel("A:", sl[2]) == "";
      StripStripped("");
    } else {
      assert DropLabel("A:", sl[2]) == " " + p.answer by {
        assert sl[2][..2] == "A:";
      }
      StripOfPadded(" ", p.answer, "");
      assert " " + p.answer + "" == " " + p.answer;
    }
  }

  lemma {:induction false} ReadSectionsBack(log: seq<QAPair>)
    requires forall k :: 0 <= k < |log| ==> Promptable(log[k])
    ensures ReadSections(PromptLines(log)) == log
    decreases |log|
  {
    if log != [] {
      var p, tail := log[0], PromptLines(log[1..]);
      var sl := SectionLines(p);
      var lines := sl + tail;
      assert PromptLines(log) == lines;
      assert lines[0] == sl[0] && lines[1] == sl[1] && lines[2] == sl[2] && lines[3..] == tail;
      ReadSectionBack(p);
      ReadSectionsBack(log[1..]);
      assert ReadSections(lines) == [p] + ReadSections(tail);
      assert log == [p] + log[1..];
    }
  }

  /** Reading the prompt's lines three at a time gives back every pair, when
      each module name is non-empty and every field is a single stripped line. */
  lemma PromptRoundTrip(log: seq<QAPair>)
    requires forall k :: 0 <= k < |log| ==> Promptable(log[k])
    ensures ReadPrompt(BuildPromptText(log)) == log
  {
    if log == [] {
      assert BuildPromptText(log) == "";
      assert Lines("") == [""];
    } else {
      JoinSections(log);
      PromptLinesSize(log);
      PromptLinesPlain(log);
      LinesOfJoin(PromptLines(log));
      ReadSectionsBack(log);
    }
  }
}
