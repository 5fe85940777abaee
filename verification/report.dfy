/** Reading the model's reply into CSV rows and appending them
    (`parse_for_csv` and `append_rows_to_csv`, `llm_analyze.py` lines
    171-210). Block `i` of the reply belongs to pair `i`, whatever it says. */
module Report {
  import opened Text
  import opened Records
  import opened Pairing
  import opened Paragraphs

  // ------------------------------------------------------ lines of a block

  /** The stripped lines of `ls` that are not empty, in order. */
  function KeepNonBlank(ls: seq<string>): seq<string>
    decreases |ls|
  {
    if ls == [] then []
    else
      var x := Strip(ls[0]);
      (if x == "" then [] else [x]) + KeepNonBlank(ls[1..])
  }

  /** The lines of a block (line 177), each stripped, the empty ones dropped. */
  function NonBlankLines(block: string): seq<string> {
    KeepNonBlank(Lines(block))
  }

  /** A stripped line that is not empty. */
  predicate Filled(ln: string) {
    ln != "" && IsStripped(ln) && NoLineBreak(ln)
  }

  lemma StripNoBreak(s: string)
    requires NoLineBreak(s)
    ensures NoLineBreak(Strip(s))
  {
    StripMiddle(s);
    var r := Strip(s);
    var i :| 0 <= i <= |s| - |r| && AllSpace(s[..i]) && r == s[i..i + |r|] && AllSpace(s[i + |r|..]);
    forall j | 0 <= j < |r| ensures !IsLineBreak(r[j]) {
      assert r[j] == s[i + j];
    }
  }

  /** Every kept line is stripped, non-empty and a single line, and every
      filled line is kept as it is. */
  lemma {:induction false} KeepNonBlankSpec(ls: seq<string>)
    requires forall k :: 0 <= k < |ls| ==> NoLineBreak(ls[k])
    ensures forall k :: 0 <= k < |KeepNonBlank(ls)| ==> Filled(KeepNonBlank(ls)[k])
    ensures (forall k :: 0 <= k < |ls| ==> Filled(ls[k])) ==> KeepNonBlank(ls) == ls
    decreases |ls|
  {
    if ls != [] {
      KeepNonBlankSpec(ls[1..]);
      var x := Strip(ls[0]);
      StripNoBreak(ls[0]);
      var head := if x == "" then [] else [x];
      var rest := KeepNonBlank(ls[1..]);
      forall k | 0 <= k < |head + rest| ensures Filled((head + rest)[k]) {
        if k >= |head| { assert (head + rest)[k] == rest[k - |head|]; }
      }
      if forall k :: 0 <= k < |ls| ==> Filled(ls[k]) {
        assert Filled(ls[0]);
        StripStripped(ls[0]);
        assert forall k :: 0 <= k < |ls[1..]| ==> Filled(ls[1..][k]) by {
          forall k | 0 <= k < |ls[1..]| ensures Filled(ls[1..][k]) { assert ls[1..][k] == ls[k + 1]; }
        }
        assert ls == [ls[0]] + ls[1..];
      }
    }
  }

  /** Filtering a concatenation filters each part on its own: lines are kept or
      dropped one at a time, in order. */
  lemma {:induction false} KeepNonBlankAppend(a: seq<string>, b: seq<string>)
    ensures KeepNonBlank(a + b) == KeepNonBlank(a) + KeepNonBlank(b)
    decreases |a|
  {
    if a == [] {
      assert a + b == b;
    } else {
      assert (a + b)[0] == a[0];
      assert (a + b)[1..] == a[1..] + b;
      KeepNonBlankAppend(a[1..], b);
    }
  }

  /** A single line survives, stripped, exactly when it is not blank. */
  lemma KeepNonBlankOne(x: string)
    ensures KeepNonBlank([x]) == if Strip(x) == "" then [] else [Strip(x)]
  {
    assert [x][1..] == [];
  }

  /** Filled lines joined by line feeds come back unchanged. */
  lemma NonBlankLinesOfJoin(ls: seq<string>)
    requires forall k :: 0 <= k < |ls| ==> Filled(ls[k])
    ensures NonBlankLines(Join(ls, "\n")) == ls
  {
    if ls == [] {
      assert Lines("") == [""];
      assert KeepNonBlank([""]) == [] + KeepNonBlank([]) by {
        assert Strip("") == "" by { StripStripped(""); }
        assert [""][1..] == [];
      }
    } else {
      LinesOfJoin(ls);
      KeepNonBlankSpec(ls);
    }
  }

  // ------------------------------------------------------------- summary

  /** Index of the first `c` in `s`, or `|s|`. */
  function IndexOf(s: string, c: char): (i: nat)
    ensures i <= |s| && (i < |s| ==> s[i] == c)
    ensures forall j :: 0 <= j < i ==> s[j] != c
    decreases |s|
  {
    if |s| == 0 || s[0] == c then 0 else 1 + IndexOf(s[1..], c)
  }

  /** What follows the first colon of a line that has one, stripped (line 181). */
  function AfterColon(ln: string): string
    requires ':' in ln
  {
    Strip(ln[IndexOf(ln, ':') + 1..])
  }

  /** Lines 179-183: the text after the first colon of the first line that
      has one, or "" when no line has one. */
  function Summary(lines: seq<string>): string
    decreases |lines|
  {
    if lines == [] then ""
    else if ':' in lines[0] then AfterColon(lines[0])
    else Summary(lines[1..])
  }

  /** Line `k` is the first of `lines` to hold a colon. */
  predicate FirstWithColon(lines: seq<string>, k: int) {
    0 <= k < |lines| && ':' in lines[k] && forall j :: 0 <= j < k ==> ':' !in lines[j]
  }

  /** The summary comes from the first line with a colon, and is empty when
      there is none. */
  lemma {:induction false} SummarySpec(lines: seq<string>)
    ensures (forall k :: 0 <= k < |lines| ==> ':' !in lines[k]) ==> Summary(lines) == ""
    ensures forall k :: FirstWithColon(lines, k) ==> Summary(lines) == AfterColon(lines[k])
    ensures IsStripped(Summary(lines))
    decreases |lines|
  {
    if lines != [] {
      SummarySpec(lines[1..]);
      forall k | FirstWithColon(lines, k) ensures Summary(lines) == AfterColon(lines[k]) {
        if k > 0 {
          assert FirstWithColon(lines[1..], k - 1) by {
            forall j | 0 <= j < k - 1 ensures ':' !in lines[1..][j] { assert lines[1..][j] == lines[j + 1]; }
          }
        }
      }
      if forall k :: 0 <= k < |lines| ==> ':' !in lines[k] {
        forall k | 0 <= k < |lines[1..]| ensures ':' !in lines[1..][k] { assert lines[1..][k] == lines[k + 1]; }
      }
    }
  }

  // --------------------------------------------------------------- score

  /** Index of the first digit of `s` at or after `i`, or `|s|`. */
  function FirstDigit(s: string, i: nat): (j: nat)
    requires i <= |s|
    ensures i <= j <= |s| && (j < |s| ==> IsDigit(s[j]))
    ensures forall k :: i <= k < j ==> !IsDigit(s[k])
    decreases |s| - i
  {
    if i == |s| || IsDigit(s[i]) then i else FirstDigit(s, i + 1)
  }

  /** The end of the run of digits of `s` starting at `i`. */
  function DigitRunEnd(s: string, i: nat): (j: nat)
    requires i <= |s|
    ensures i <= j <= |s| && (j < |s| ==> !IsDigit(s[j]))
    ensures forall k :: i <= k < j ==> IsDigit(s[k])
    decreases |s| - i
  {
    if i == |s| || !IsDigit(s[i]) then i else DigitRunEnd(s, i + 1)
  }

  /** The digits captured by the score search of line 188: the leftmost run
      of digits, as long as it goes; none when the line has no digit. */
  function FirstDigitRun(ln: string): Option<string> {
    var i := FirstDigit(ln, 0);
    if i == |ln| then None else Some(ln[i..DigitRunEnd(ln, i)])
  }

  /** A run is found exactly when the line has a digit; it is non-empty, all
      digits, preceded by no digit and not followed by one. */
  lemma FirstDigitRunSpec(ln: string)
    ensures FirstDigitRun(ln).None? <==> NoDigit(ln)
    ensures FirstDigitRun(ln).Some? ==>
              exists pre, post :: ln == pre + FirstDigitRun(ln).value + post
                && NoDigit(pre) && FirstDigitRun(ln).value != "" && AllDigits(FirstDigitRun(ln).value)
                && (post == "" || !IsDigit(post[0]))
  {
    var i := FirstDigit(ln, 0);
    if i < |ln| {
      var j := DigitRunEnd(ln, i);
      var pre, run, post := ln[..i], ln[i..j], ln[j..];
      assert ln == pre + run + post;
      assert NoDigit(pre) by { forall k | 0 <= k < |pre| ensures !IsDigit(pre[k]) { assert pre[k] == ln[k]; } }
      assert AllDigits(run) by { forall k | 0 <= k < |run| ensures IsDigit(run[k]) { assert run[k] == ln[i + k]; } }
      assert post != "" ==> post[0] == ln[j];
    } else {
      assert NoDigit(ln);
    }
  }

  /** The score marker a line must hold. */
  const ScoreWord: string := "คะแนน"

  /** Lines 185-191: the first digit run of the first line that holds the
      marker and a digit; a marked line without a digit is passed over. */
  function Score(lines: seq<string>): string
    decreases |lines|
  {
    if lines == [] then ""
    else if Contains(lines[0], ScoreWord) && FirstDigitRun(lines[0]).Some? then FirstDigitRun(lines[0]).value
    else Score(lines[1..])
  }

  /** Line `k` holds the marker and a digit. */
  predicate Scored(ln: string) {
    Contains(ln, ScoreWord) && FirstDigitRun(ln).Some?
  }

  /** The score is empty exactly when no line holds both the marker and a
      digit; otherwise it is the first digit run of the first such line. */
  lemma {:induction false} ScoreSpec(lines: seq<string>)
    ensures Score(lines) == "" <==> forall k :: 0 <= k < |lines| ==> !Scored(lines[k])
    ensures forall k :: 0 <= k < |lines| && Scored(lines[k]) && (forall j :: 0 <= j < k ==> !Scored(lines[j]))
              ==> Score(lines) == FirstDigitRun(lines[k]).value
    decreases |lines|
  {
    if lines != [] {
      ScoreSpec(lines[1..]);
      var tail := lines[1..];
      assert forall k :: 0 <= k < |tail| ==> tail[k] == lines[k + 1];
      if Scored(lines[0]) {
        FirstDigitRunSpec(lines[0]);
      }
      forall k | 0 <= k < |lines| && Scored(lines[k]) && (forall j :: 0 <= j < k ==> !Scored(lines[j]))
        ensures Score(lines) == FirstDigitRun(lines[k]).value
      {
        if k > 0 {
          assert !Scored(lines[0]);
          assert forall j :: 0 <= j < k - 1 ==> !Scored(tail[j]);
        }
      }
    }
  }

  // ----------------------------------------------------------------- rows

  /** One CSV row, the columns in the order of line 205. */
  datatype Row = Row(moduleName: string, questions: string, answers: string, summary: string, score: string)

  /** The block of pair `i`, or "" past the last block (line 176). */
  function BlockFor(blocks: seq<string>, i: nat): string {
    if i < |blocks| then blocks[i] else ""
  }

  function RowFor(blocks: seq<string>, p: QAPair, i: nat): Row {
    var lines := NonBlankLines(BlockFor(blocks, i));
    Row(p.moduleName, p.question, p.answer, Summary(lines), Score(lines))
  }

  /** Lines 171-200: one row per pair, summary and score read from the
      block at the same position. */
  function ParseForCsv(resultText: string, log: seq<QAPair>): (rows: seq<Row>)
    ensures |rows| == |log|
    ensures forall i :: 0 <= i < |rows| ==>
              rows[i].moduleName == log[i].moduleName && rows[i].questions == log[i].question
              && rows[i].answers == log[i].answer
  {
    var blocks := Blocks(resultText);
    seq(|log|, i requires 0 <= i < |log| => RowFor(blocks, log[i], i))
  }

  /** Pairs beyond the reply's last block get an empty summary and score,
      and an empty reply leaves every summary and score empty. */
  lemma MissingBlocksEmpty(resultText: string, log: seq<QAPair>, i: nat)
    requires i < |log| && i >= |Blocks(resultText)|
    ensures ParseForCsv(resultText, log)[i].summary == ""
    ensures ParseForCsv(resultText, log)[i].score == ""
  {
    assert NonBlankLines("") == [] by {
      assert Lines("") == [""];
      StripStripped("");
      assert KeepNonBlank([""]) == [] + KeepNonBlank([""][1..]);
    }
  }

  /** A summary read from the block is stripped; the score is either empty
      or a run of digits. */
  lemma RowFieldsSpec(resultText: string, log: seq<QAPair>, i: nat)
    requires i < |log|
    ensures IsStripped(ParseForCsv(resultText, log)[i].summary)
    ensures var sc := ParseForCsv(resultText, log)[i].score; sc == "" || AllDigits(sc)
  {
    var lines := NonBlankLines(BlockFor(Blocks(resultText), i));
    SummarySpec(lines);
    ScoreDigits(lines);
  }

  lemma {:induction false} ScoreDigits(lines: seq<string>)
    ensures Score(lines) == "" || AllDigits(Score(lines))
    decreases |lines|
  {
    if lines != [] {
      ScoreDigits(lines[1..]);
      FirstDigitRunSpec(lines[0]);
    }
  }

  /** Row `i` is read from block `i` alone (or from nothing past the last
      block): its summary is the text after the colon of the block's first
      line with a colon, or "" when there is none; its score is the first
      digit run of the block's first line holding the marker and a digit,
      or "" when no line holds both. */
  lemma RowFromBlock(resultText: string, log: seq<QAPair>, i: nat)
    requires i < |log|
    ensures var lines := NonBlankLines(BlockFor(Blocks(resultText), i));
            var row := ParseForCsv(resultText, log)[i];
            && row.summary == Summary(lines)
            && row.score == Score(lines)
            && ((forall k :: 0 <= k < |lines| ==> ':' !in lines[k]) ==> row.summary == "")
            && (forall k :: FirstWithColon(lines, k) ==> row.summary == AfterColon(lines[k]))
            && (row.score == "" <==> forall k :: 0 <= k < |lines| ==> !Scored(lines[k]))
            && (forall k :: 0 <= k < |lines| && Scored(lines[k]) && (forall j :: 0 <= j < k ==> !Scored(lines[j]))
                  ==> row.score == FirstDigitRun(lines[k]).value)
  {
    var lines := NonBlankLines(BlockFor(Blocks(resultText), i));
    SummarySpec(lines);
    ScoreSpec(lines);
  }

  // ------------------------------------------------------------------ CSV

  /** A line of the CSV file: the header or one row. */
  datatype CsvLine = Header | Record(row: Row)

  function AsRecords(rows: seq<Row>): (r: seq<CsvLine>)
    ensures |r| == |rows|
    ensures forall k :: 0 <= k < |r| ==> r[k] == Record(rows[k])
  {
    seq(|rows|, k requires 0 <= k < |rows| => Record(rows[k]))
  }

  /** Lines 202-210: the header is written only when the file does not exist
      yet; the rows are appended after whatever the file holds. */
  function AppendRows(file: Option<seq<CsvLine>>, rows: seq<Row>): seq<CsvLine> {
    match file
    case None => [Header] + AsRecords(rows)
    case Some(lines) => lines + AsRecords(rows)
  }

  function HeaderCount(lines: seq<CsvLine>): nat
    decreases |lines|
  {
    if lines == [] then 0 else (if lines[0] == Header then 1 else 0) + HeaderCount(lines[1..])
  }

  lemma {:induction false} HeaderCountAppend(a: seq<CsvLine>, b: seq<CsvLine>)
    ensures HeaderCount(a + b) == HeaderCount(a) + HeaderCount(b)
    decreases |a|
  {
    if a != [] {
      assert (a + b)[1..] == a[1..] + b;
      HeaderCountAppend(a[1..], b);
    } else {
      assert a + b == b;
    }
  }

  lemma {:induction false} NoHeaderInRecords(rows: seq<Row>)
    ensures HeaderCount(AsRecords(rows)) == 0
    decreases |rows|
  {
    if rows != [] {
      assert AsRecords(rows)[1..] == AsRecords(rows[1..]);
      NoHeaderInRecords(rows[1..]);
    }
  }

  lemma RecordsAppend(a: seq<Row>, b: seq<Row>)
    ensures [Header] + AsRecords(a) + AsRecords(b) == [Header] + AsRecords(a + b)
  {
    assert AsRecords(a + b) == AsRecords(a) + AsRecords(b);
  }

  /** The file after one run per batch of rows, starting without a file. */
  function AppendAll(batches: seq<seq<Row>>): Option<seq<CsvLine>>
    decreases |batches|
  {
    if batches == [] then None
    else Some(AppendRows(AppendAll(batches[..|batches| - 1]), batches[|batches| - 1]))
  }

  function Flatten(batches: seq<seq<Row>>): seq<Row>
    decreases |batches|
  {
    if batches == [] then [] else Flatten(batches[..|batches| - 1]) + batches[|batches| - 1]
  }

  /** However many runs append to the file, it holds one header, first,
      followed by every row in the order the runs wrote them. */
  lemma {:induction false} AppendAllSpec(batches: seq<seq<Row>>)
    requires batches != []
    ensures AppendAll(batches) == Some([Header] + AsRecords(Flatten(batches)))
    ensures HeaderCount(AppendAll(batches).value) == 1
    decreases |batches|
  {
    var front := batches[..|batches| - 1];
    var last := batches[|batches| - 1];
    if front == [] {
      assert Flatten(batches) == [] + last;
      assert [] + last == last;
    } else {
      AppendAllSpec(front);
      RecordsAppend(Flatten(front), last);
    }
    HeaderCountAppend([Header], AsRecords(Flatten(batches)));
    NoHeaderInRecords(Flatten(batches));
    assert HeaderCount([Header]) == 1 by { assert [Header][1..] == []; }
  }
}
