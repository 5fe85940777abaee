/** Python `str` behaviour needed by the survey analyser and the dialogue:
    `isspace`, `strip`, substring tests, `startswith`/`endswith`,
    `splitlines` and `join`. Strings are sequences of Unicode code points
    other than surrogates; a Python `str` may also hold lone surrogates,
    which the model does not represent. */
module Text {

  /** The characters for which Python's `str.isspace()` holds; `strip()`
      removes exactly these and the regular expression class `\s` matches them. */
  predicate IsSpace(c: char) {
    || c == ' '
    || '\t' <= c <= '\r'
    || '\U{1C}' <= c <= '\U{1F}'
    || c == '\U{85}' || c == '\U{A0}' || c == '\U{1680}'
    || '\U{2000}' <= c <= '\U{200A}'
    || c == '\U{2028}' || c == '\U{2029}' || c == '\U{202F}' || c == '\U{205F}'
    || c == '\U{3000}'
  }

  /** The line boundaries recognised by Python's `str.splitlines()`. */
  predicate IsLineBreak(c: char) {
    || c == '\n' || c == '\r' || c == '\U{0B}' || c == '\U{0C}'
    || '\U{1C}' <= c <= '\U{1E}'
    || c == '\U{85}' || c == '\U{2028}' || c == '\U{2029}'
  }

  /** Decimal digits matched by `\d`: the ASCII digits and the Thai digits. */
  predicate IsDigit(c: char) {
    '0' <= c <= '9' || '\U{0E50}' <= c <= '\U{0E59}'
  }

  predicate AllSpace(s: string) {
    forall i :: 0 <= i < |s| ==> IsSpace(s[i])
  }

  predicate NoLineBreak(s: string) {
    forall i :: 0 <= i < |s| ==> !IsLineBreak(s[i])
  }

  predicate NoDigit(s: string) {
    forall i :: 0 <= i < |s| ==> !IsDigit(s[i])
  }

  predicate AllDigits(s: string) {
    forall i :: 0 <= i < |s| ==> IsDigit(s[i])
  }

  /** A string `strip()` leaves unchanged: no white space at either end. */
  predicate IsStripped(s: string) {
    s == [] || (!IsSpace(s[0]) && !IsSpace(s[|s| - 1]))
  }

  /** Python's truthiness-based `a or b` on strings. */
  function Or(a: string, b: string): (r: string)
    ensures r == "" <==> a == "" && b == ""
    ensures a != "" ==> r == a
  {
    if a != "" then a else b
  }

  function TrimStart(s: string): string {
    if |s| > 0 && IsSpace(s[0]) then TrimStart(s[1..]) else s
  }

  lemma {:induction false} TrimStartFacts(s: string)
    ensures var r := TrimStart(s);
            && |r| <= |s| && r == s[|s| - |r|..]
            && AllSpace(s[..|s| - |r|])
            && (r == [] || !IsSpace(r[0]))
  {
    if |s| > 0 && IsSpace(s[0]) {
      TrimStartFacts(s[1..]);
      var r := TrimStart(s[1..]);
      assert s[..|s| - |r|] == [s[0]] + s[1..][..|s| - 1 - |r|];
    }
  }

  function TrimEnd(s: string): string {
    if |s| > 0 && IsSpace(s[|s| - 1]) then TrimEnd(s[..|s| - 1]) else s
  }

  lemma {:induction false} TrimEndFacts(s: string)
    ensures var r := TrimEnd(s);
            && |r| <= |s| && r == s[..|r|]
            && AllSpace(s[|r|..])
            && (r == [] || !IsSpace(r[|r| - 1]))
  {
    if |s| > 0 && IsSpace(s[|s| - 1]) {
      TrimEndFacts(s[..|s| - 1]);
      var r := TrimEnd(s[..|s| - 1]);
      assert s[|r|..] == s[..|s| - 1][|r|..] + [s[|s| - 1]];
    }
  }

  /** Python's `str.strip()`: the result is the middle of `s` left once the
      white space at both ends is cut off. */
  function Strip(s: string): (r: string)
    ensures IsStripped(r)
  {
    TrimStartFacts(s);
    TrimEndFacts(TrimStart(s));
    TrimEnd(TrimStart(s))
  }

  /** What `strip()` leaves: white space, then the result, then white space,
      and nothing at all exactly when `s` is white space throughout. */
  lemma StripMiddle(s: string)
    ensures Strip(s) == [] <==> AllSpace(s)
    ensures exists i :: 0 <= i <= |s| - |Strip(s)| && AllSpace(s[..i])
              && Strip(s) == s[i..i + |Strip(s)|] && AllSpace(s[i + |Strip(s)|..])
  {
    var a := TrimStart(s);
    TrimStartFacts(s);
    TrimEndFacts(a);
    assert Strip(s) == TrimEnd(a);
    StripWitness(s, a, TrimEnd(a));
  }

  lemma StripWitness(s: string, a: string, r: string)
    requires |a| <= |s| && a == s[|s| - |a|..] && AllSpace(s[..|s| - |a|])
    requires |r| <= |a| && r == a[..|r|] && AllSpace(a[|r|..])
    requires r == [] || (!IsSpace(r[0]) && !IsSpace(r[|r| - 1]))
    ensures r == [] <==> AllSpace(s)
    ensures exists i :: 0 <= i <= |s| - |r| && AllSpace(s[..i]) && r == s[i..i + |r|] && AllSpace(s[i + |r|..])
  {
    var i := |s| - |a|;
    assert s[i..i + |r|] == a[..|r|];
    assert s[i + |r|..] == a[|r|..];
    if r == [] {
      forall k | 0 <= k < |s| ensures IsSpace(s[k]) {
        if k < i {
          assert s[..i][k] == s[k];
        } else {
          assert a[|r|..][k - i] == s[k];
        }
      }
    } else {
      assert r[0] == s[i];
    }
  }

  lemma {:induction false} TrimStartPadded(a: string, x: string)
    requires AllSpace(a) && (x == [] || !IsSpace(x[0]))
    ensures TrimStart(a + x) == x
    decreases |a|
  {
    if a == [] {
      assert a + x == x;
      TrimStartFacts(x);
    } else {
      assert (a + x)[1..] == a[1..] + x;
      TrimStartPadded(a[1..], x);
    }
  }

  lemma {:induction false} TrimEndPadded(x: string, b: string)
    requires AllSpace(b) && (x == [] || !IsSpace(x[|x| - 1]))
    ensures TrimEnd(x + b) == x
    decreases |b|
  {
    if b == [] {
      assert x + b == x;
      TrimEndFacts(x);
    } else {
      assert (x + b)[..|x + b| - 1] == x + b[..|b| - 1];
      TrimEndPadded(x, b[..|b| - 1]);
    }
  }

  /** `strip()` is determined by the split of a string into white space, a
      stripped middle and white space. */
  lemma StripOfPadded(a: string, m: string, b: string)
    requires AllSpace(a) && AllSpace(b) && IsStripped(m)
    ensures Strip(a + m + b) == m
  {
    if m == [] {
      assert a + m + b == a + b;
      AllSpaceConcat(a, b);
      StripMiddle(a + b);
    } else {
      assert a + m + b == a + (m + b);
      TrimStartPadded(a, m + b);
      TrimEndPadded(m, b);
      assert Strip(a + m + b) == TrimEnd(TrimStart(a + (m + b)));
    }
  }

  lemma AllSpaceConcat(a: string, b: string)
    requires AllSpace(a) && AllSpace(b)
    ensures AllSpace(a + b)
  {
    forall k | 0 <= k < |a + b| ensures IsSpace((a + b)[k]) {
      if k >= |a| { assert (a + b)[k] == b[k - |a|]; }
    }
  }

  lemma StripStripped(s: string)
    requires IsStripped(s)
    ensures Strip(s) == s
  {
    StripOfPadded("", s, "");
    assert "" + s + "" == s;
  }

  predicate StartsWith(s: string, p: string) {
    |p| <= |s| && s[..|p|] == p
  }

  predicate EndsWith(s: string, p: string) {
    |p| <= |s| && s[|s| - |p|..] == p
  }

  /** Python's substring test `p in s`. */
  function Contains(s: string, p: string): bool
    decreases |s|
  {
    StartsWith(s, p) || (|s| > 0 && Contains(s[1..], p))
  }

  /** `p in s` holds exactly when `p` starts at some position of `s`. */
  lemma {:induction false} ContainsIff(s: string, p: string)
    ensures Contains(s, p) <==> exists i :: 0 <= i <= |s| && StartsWith(s[i..], p)
    decreases |s|
  {
    if StartsWith(s, p) {
      assert s[0..] == s;
    } else if |s| > 0 {
      ContainsIff(s[1..], p);
      ContainsStep(s, p);
      assert !StartsWith(s[0..], p) by { assert s[0..] == s; }
    }
  }

  lemma ContainsStep(s: string, p: string)
    requires |s| > 0
    ensures (exists i :: 0 <= i <= |s| - 1 && StartsWith(s[1..][i..], p))
        <==> (exists i :: 1 <= i <= |s| && StartsWith(s[i..], p))
  {
    forall i | 0 <= i <= |s| - 1 ensures s[1..][i..] == s[i + 1..] { }
    if exists i :: 1 <= i <= |s| && StartsWith(s[i..], p) {
      var i :| 1 <= i <= |s| && StartsWith(s[i..], p);
      assert s[1..][i - 1..] == s[i..];
    }
  }

  lemma ContainsAt(s: string, i: nat, p: string)
    requires i + |p| <= |s| && s[i..i + |p|] == p
    ensures Contains(s, p)
  {
    assert s[i..][..|p|] == s[i..i + |p|];
    ContainsIff(s, p);
  }

  /** A position where `p` occurs in `s`. */
  lemma ContainsWitness(s: string, p: string) returns (j: nat)
    requires Contains(s, p)
    ensures j + |p| <= |s| && s[j..j + |p|] == p
  {
    ContainsIff(s, p);
    j :| 0 <= j <= |s| && StartsWith(s[j..], p);
    assert s[j..][..|p|] == s[j..j + |p|];
  }

  /** A string containing `p + q` contains `p`. */
  lemma ContainsPrefixOf(s: string, p: string, q: string)
    requires Contains(s, p + q)
    ensures Contains(s, p)
  {
    ContainsIff(s, p + q);
    ContainsIff(s, p);
    var i :| 0 <= i <= |s| && StartsWith(s[i..], p + q);
    assert s[i..][..|p|] == (p + q)[..|p|] == p;
  }

  /** A pattern whose first character does not occur in `s` is not in `s`. */
  lemma AbsentFirstChar(s: string, p: string)
    requires |p| > 0 && p[0] !in s
    ensures !Contains(s, p)
  {
    ContainsIff(s, p);
    forall i | 0 <= i <= |s| ensures !StartsWith(s[i..], p) {
      if i < |s| {
        assert s[i] in s;
        assert s[i..][0] == s[i];
      }
    }
  }

  /** Index of the first line break of `s`, or `|s|` if there is none. */
  function FirstLineBreak(s: string): (i: nat)
    ensures i <= |s| && NoLineBreak(s[..i])
    ensures i < |s| ==> IsLineBreak(s[i])
    decreases |s|
  {
    if |s| == 0 || IsLineBreak(s[0]) then 0
    else
      var i := 1 + FirstLineBreak(s[1..]);
      assert s[..i] == [s[0]] + s[1..][..i - 1];
      i
  }

  /** `s` cut at every line-break character. Python's `splitlines()` treats
      "\r\n" as one boundary and drops a final empty piece; cutting at each
      character instead only adds empty pieces, which every caller here
      filters out. */
  function Lines(s: string): (r: seq<string>)
    ensures |r| >= 1
    ensures forall k :: 0 <= k < |r| ==> NoLineBreak(r[k])
    decreases |s|
  {
    var i := FirstLineBreak(s);
    if i == |s| then [s] else [s[..i]] + Lines(s[i + 1..])
  }

  /** Python's `sep.join(parts)`. */
  function Join(parts: seq<string>, sep: string): string
    decreases |parts|
  {
    if |parts| == 0 then ""
    else if |parts| == 1 then parts[0]
    else parts[0] + sep + Join(parts[1..], sep)
  }

  lemma {:induction false} JoinAppend(a: seq<string>, b: seq<string>, sep: string)
    requires |a| > 0 && |b| > 0
    ensures Join(a + b, sep) == Join(a, sep) + sep + Join(b, sep)
    decreases |a|
  {
    if |a| == 1 {
      assert (a + b)[1..] == b;
    } else {
      assert (a + b)[1..] == a[1..] + b;
      JoinAppend(a[1..], b, sep);
    }
  }

  /** Splitting a newline-joined text into lines gives back the parts. */
  lemma {:induction false} LinesOfJoin(parts: seq<string>)
    requires |parts| > 0
    requires forall k :: 0 <= k < |parts| ==> NoLineBreak(parts[k])
    ensures Lines(Join(parts, "\n")) == parts
    decreases |parts|
  {
    var s := Join(parts, "\n");
    NoBreakFirst(parts[0], if |parts| == 1 then "" else "\n" + Join(parts[1..], "\n"));
    if |parts| > 1 {
      assert s == parts[0] + ("\n" + Join(parts[1..], "\n"));
      assert s[|parts[0]| + 1..] == Join(parts[1..], "\n");
      LinesOfJoin(parts[1..]);
      assert parts == [parts[0]] + parts[1..];
    } else {
      assert s == parts[0] + "";
    }
  }

  lemma NoBreakFirst(a: string, rest: string)
    requires NoLineBreak(a)
    requires rest == "" || rest[0] == '\n'
    ensures FirstLineBreak(a + rest) == |a|
    ensures (a + rest)[..|a|] == a
    decreases |a|
  {
    if |a| > 0 {
      assert (a + rest)[1..] == a[1..] + rest;
      NoBreakFirst(a[1..], rest);
    }
  }
}
