/** The split of the model's reply into blocks (`llm_analyze.py` line 173):
    the stripped reply is cut at every blank line, and an empty reply has no
    blocks at all. A separator is a line feed, white space, and a
    line feed; the regular expression engine takes the leftmost separator
    and, by backtracking from a greedy `\s*`, the longest one starting there. */
module Paragraphs {
  import opened Text
  import opened Records

  /** Every position of `s` in `[a, b)` holds white space. */
  predicate SpacesBetween(s: string, a: int, b: int)
    requires 0 <= a && b <= |s|
  {
    forall j :: a <= j < b ==> IsSpace(s[j])
  }

  /** A separator of `s` runs from the line feed at `k` to the line feed at `m`. */
  predicate BlankAt(s: string, k: int, m: int) {
    0 <= k < m < |s| && s[k] == '\n' && s[m] == '\n' && SpacesBetween(s, k + 1, m)
  }

  /** `s` contains no separator. */
  predicate NoBlank(s: string) {
    forall k, m :: 0 <= k < m < |s| ==> !BlankAt(s, k, m)
  }

  /** `s` opens with white space and a line feed: after a separator, the
      longest match would have swallowed it. */
  predicate OpensBlank(s: string) {
    exists m :: 0 <= m < |s| && s[m] == '\n' && SpacesBetween(s, 0, m)
  }

  /** A separator as text: two line feeds with only white space between. */
  predicate IsSeparator(sep: string) {
    |sep| >= 2 && sep[0] == '\n' && sep[|sep| - 1] == '\n' && AllSpace(sep)
  }

  // --------------------------------------------------------- one match

  /** The end of the white-space run of `s` starting at `k`. */
  function SpaceRunEnd(s: string, k: nat): (e: nat)
    requires k <= |s|
    ensures k <= e <= |s| && SpacesBetween(s, k, e)
    ensures e < |s| ==> !IsSpace(s[e])
    decreases |s| - k
  {
    if k == |s| || !IsSpace(s[k]) then k else SpaceRunEnd(s, k + 1)
  }

  /** The last line feed of `s` in `[lo, hi)`. */
  function LastNewline(s: string, lo: nat, hi: nat): (r: Option<nat>)
    requires lo <= hi <= |s|
    ensures r.Some? ==> lo <= r.value < hi && s[r.value] == '\n'
    ensures r.Some? ==> forall m :: r.value < m < hi ==> s[m] != '\n'
    ensures r.None? ==> forall m :: lo <= m < hi ==> s[m] != '\n'
    decreases hi - lo
  {
    if hi == lo then None
    else if s[hi - 1] == '\n' then Some(hi - 1)
    else LastNewline(s, lo, hi - 1)
  }

  /** Where a match of the separator pattern starting at `i` ends, if one
      starts there: after the last line feed of the white-space run that
      follows the line feed at `i`. */
  function MatchEnd(s: string, i: nat): (r: Option<nat>)
    requires i <= |s|
    ensures r.Some? ==> i + 2 <= r.value <= |s|
  {
    if i < |s| && s[i] == '\n' then
      match LastNewline(s, i + 1, SpaceRunEnd(s, i + 1))
      case Some(m) => Some(m + 1)
      case None => None
    else None
  }

  /** A match starts at `i` exactly when a separator does, and it is the
      longest separator starting there. */
  lemma MatchEndSpec(s: string, i: nat)
    requires i <= |s|
    ensures MatchEnd(s, i).None? ==> forall m :: i < m < |s| ==> !BlankAt(s, i, m)
    ensures MatchEnd(s, i).Some? ==>
              var e := MatchEnd(s, i).value;
              BlankAt(s, i, e - 1) && forall m :: i < m < |s| && BlankAt(s, i, m) ==> m <= e - 1
  {
    if i < |s| && s[i] == '\n' {
      var run := SpaceRunEnd(s, i + 1);
      forall m | i < m < |s| && BlankAt(s, i, m)
        ensures m < run
      {
        assert IsSpace(s[m]);
      }
    }
  }

  // ------------------------------------------------------------ the split

  /** The blocks and the separators between them. */
  datatype Pieces = Pieces(blocks: seq<string>, seps: seq<string>)

  /** `re.split` from the block starting at `start`, looking for the next
      match at `i`. */
  function SplitFrom(s: string, start: nat, i: nat): Pieces
    requires start <= i <= |s|
    decreases |s| - i
  {
    if i == |s| then Pieces([s[start..]], [])
    else
      match MatchEnd(s, i)
      case Some(e) =>
        var rest := SplitFrom(s, e, e);
        Pieces([s[start..i]] + rest.blocks, [s[i..e]] + rest.seps)
      case None => SplitFrom(s, start, i + 1)
  }

  /** The blocks of the model's reply. */
  function Blocks(text: string): seq<string> {
    var t := Strip(text);
    if t == "" then [] else SplitFrom(t, 0, 0).blocks
  }

  /** Blocks and separators put back together. */
  function Interleave(blocks: seq<string>, seps: seq<string>): string
    requires |blocks| == |seps| + 1
    decreases |seps|
  {
    if seps == [] then blocks[0] else blocks[0] + seps[0] + Interleave(blocks[1..], seps[1..])
  }

  /** What a result of `SplitFrom(s, start, _)` promises: the pieces
      interleave back to `s[start..]`, each separator is one, no block holds
      a separator, a block followed by a separator does not end in a line
      feed and white space (the match would have started earlier), and a
      block after a separator, and all the text from it on, does not open
      with white space and a line feed (the match would have been longer). */
  predicate SplitOf(s: string, start: nat, r: Pieces)
    requires start <= |s|
  {
    && |r.blocks| == |r.seps| + 1
    && Interleave(r.blocks, r.seps) == s[start..]
    && (forall k :: 0 <= k < |r.seps| ==> IsSeparator(r.seps[k]))
    && (forall k :: 0 <= k < |r.blocks| ==> NoBlank(r.blocks[k]))
    && (forall k :: 0 <= k < |r.seps| ==> NoBlank(r.blocks[k] + "\n"))
    && (forall k :: 1 <= k < |r.blocks| ==> !OpensBlank(r.blocks[k]))
    && (forall k :: 1 <= k < |r.blocks| ==> !OpensBlank(Interleave(r.blocks[k..], r.seps[k..])))
  }

  // -------------------------------------------- facts about slices of s

  /** No separator starts in `[start, i)`. */
  predicate Clear(s: string, start: nat, i: nat)
    requires start <= i <= |s|
  {
    forall k, m :: start <= k < i && k < m < |s| ==> !BlankAt(s, k, m)
  }

  /** A separator inside a slice is a separator of the whole string. */
  lemma BlankOfSlice(s: string, lo: nat, hi: nat, k: int, m: int)
    requires lo <= hi <= |s|
    ensures BlankAt(s[lo..hi], k, m) ==> BlankAt(s, lo + k, lo + m)
  {
    if BlankAt(s[lo..hi], k, m) {
      var b := s[lo..hi];
      assert s[lo + k] == b[k] && s[lo + m] == b[m];
      forall j | lo + k + 1 <= j < lo + m ensures IsSpace(s[j]) {
        assert s[j] == b[j - lo];
      }
    }
  }

  /** A slice none of whose positions starts a separator has none. */
  lemma ClearSliceNoBlank(s: string, start: nat, i: nat, hi: nat)
    requires start <= i <= hi <= |s| && hi <= i + 1 && Clear(s, start, i)
    ensures NoBlank(s[start..hi])
  {
    forall k, m | 0 <= k < m < hi - start ensures !BlankAt(s[start..hi], k, m) {
      BlankOfSlice(s, start, hi, k, m);
    }
  }

  lemma ClearStep(s: string, start: nat, i: nat)
    requires start <= i < |s| && Clear(s, start, i) && MatchEnd(s, i).None?
    ensures Clear(s, start, i + 1)
  {
    MatchEndSpec(s, i);
  }

  /** A longest match leaves nothing that opens with white space and a line feed. */
  lemma GreedyNoOpen(s: string, i: nat)
    requires i <= |s| && MatchEnd(s, i).Some?
    ensures !OpensBlank(s[MatchEnd(s, i).value..])
  {
    var e := MatchEnd(s, i).value;
    MatchEndSpec(s, i);
    LongerSeparator(s, i, e);
  }

  /** A separator ending just before `e`, followed by white space and a line
      feed, extends to a longer one. */
  lemma LongerSeparator(s: string, i: nat, e: nat)
    requires 1 <= e <= |s| && BlankAt(s, i, e - 1)
    ensures OpensBlank(s[e..]) ==> exists m :: e - 1 < m < |s| && BlankAt(s, i, m)
  {
    if OpensBlank(s[e..]) {
      var t := s[e..];
      var m :| 0 <= m < |t| && t[m] == '\n' && SpacesBetween(t, 0, m);
      forall j | i + 1 <= j < e + m ensures IsSpace(s[j]) {
        if j >= e { assert s[j] == t[j - e]; }
        else if j == e - 1 { assert s[j] == '\n'; }
      }
      assert s[e + m] == t[m];
      assert BlankAt(s, i, e + m);
    }
  }

  lemma SeparatorSlice(s: string, i: nat)
    requires i <= |s| && MatchEnd(s, i).Some?
    ensures IsSeparator(s[i..MatchEnd(s, i).value])
  {
    var e := MatchEnd(s, i).value;
    MatchEndSpec(s, i);
    var sep := s[i..e];
    assert sep[0] == s[i] && sep[|sep| - 1] == s[e - 1];
    forall j | 0 <= j < |sep| ensures IsSpace(sep[j]) {
      assert sep[j] == s[i + j];
    }
  }

  lemma ClearBlockNewline(s: string, start: nat, i: nat)
    requires start <= i < |s| && Clear(s, start, i) && s[i] == '\n'
    ensures NoBlank(s[start..i] + "\n")
  {
    assert s[start..i] + "\n" == s[start..i + 1];
    ClearSliceNoBlank(s, start, i, i + 1);
  }

  /** Every result of `SplitFrom` started from a clear prefix is a split. */
  lemma {:induction false} SplitFromSpec(s: string, start: nat, i: nat)
    requires start <= i <= |s| && Clear(s, start, i)
    ensures SplitOf(s, start, SplitFrom(s, start, i))
    decreases |s| - i
  {
    var r := SplitFrom(s, start, i);
    if i == |s| {
      ClearSliceNoBlank(s, start, i, i);
      assert s[start..i] == s[start..];
    } else {
      match MatchEnd(s, i)
      case None =>
        ClearStep(s, start, i);
        SplitFromSpec(s, start, i + 1);
      case Some(e) =>
        var rest := SplitFrom(s, e, e);
        SplitFromSpec(s, e, e);
        var b := s[start..i];
        var sep := s[i..e];
        ClearSliceNoBlank(s, start, i, i);
        MatchEndSpec(s, i);
        ClearBlockNewline(s, start, i);
        SeparatorSlice(s, i);
        GreedyNoOpen(s, i);
        InterleaveCons(b, sep, rest);
        assert s[start..] == b + sep + s[e..];
        SplitTail(s, start, i, e, r, rest);
    }
  }

  lemma InterleaveCons(b: string, sep: string, rest: Pieces)
    requires |rest.blocks| == |rest.seps| + 1
    ensures Interleave([b] + rest.blocks, [sep] + rest.seps) == b + sep + Interleave(rest.blocks, rest.seps)
  {
    assert ([b] + rest.blocks)[1..] == rest.blocks && ([sep] + rest.seps)[1..] == rest.seps;
  }

  /** The per-piece facts of a split carried over to one more leading block. */
  lemma SplitTail(s: string, start: nat, i: nat, e: nat, r: Pieces, rest: Pieces)
    requires start <= i < e <= |s|
    requires SplitOf(s, e, rest)
    requires r.blocks == [s[start..i]] + rest.blocks && r.seps == [s[i..e]] + rest.seps
    requires NoBlank(s[start..i]) && NoBlank(s[start..i] + "\n") && IsSeparator(s[i..e])
    requires !OpensBlank(s[e..])
    ensures forall k :: 0 <= k < |r.seps| ==> IsSeparator(r.seps[k])
    ensures forall k :: 0 <= k < |r.blocks| ==> NoBlank(r.blocks[k])
    ensures forall k :: 0 <= k < |r.seps| ==> NoBlank(r.blocks[k] + "\n")
    ensures forall k :: 1 <= k < |r.blocks| ==> !OpensBlank(r.blocks[k])
    ensures forall k :: 1 <= k < |r.blocks| ==> !OpensBlank(Interleave(r.blocks[k..], r.seps[k..]))
  {
    forall k | 1 <= k < |r.blocks| ensures !OpensBlank(Interleave(r.blocks[k..], r.seps[k..])) {
      assert r.blocks[k..] == rest.blocks[k - 1..] && r.seps[k..] == rest.seps[k - 1..];
      if k == 1 {
        assert rest.blocks[0..] == rest.blocks && rest.seps[0..] == rest.seps;
      }
    }
    forall k | 1 <= k < |r.blocks| ensures !OpensBlank(r.blocks[k]) {
      assert r.blocks[k] == rest.blocks[k - 1];
      if k == 1 {
        OpensBlankPrefix(rest, s, e);
      }
    }
    forall k | 0 <= k < |r.blocks| ensures NoBlank(r.blocks[k]) {
      if k > 0 { assert r.blocks[k] == rest.blocks[k - 1]; }
    }
    forall k | 0 <= k < |r.seps| ensures IsSeparator(r.seps[k]) && NoBlank(r.blocks[k] + "\n") {
      if k > 0 { assert r.seps[k] == rest.seps[k - 1] && r.blocks[k] == rest.blocks[k - 1]; }
    }
  }

  /** The first block of a split of `s[e..]` is a prefix of `s[e..]`, so it
      opens blank only if `s[e..]` does. */
  lemma OpensBlankPrefix(rest: Pieces, s: string, e: nat)
    requires e <= |s| && SplitOf(s, e, rest)
    requires !OpensBlank(s[e..])
    ensures !OpensBlank(rest.blocks[0])
  {
    var b := rest.blocks[0];
    var t := s[e..];
    InterleavePrefix(rest.blocks, rest.seps);
    assert t[..|b|] == b;
    OpensBlankExtends(b, t);
  }

  lemma OpensBlankExtends(b: string, t: string)
    requires |b| <= |t| && t[..|b|] == b
    ensures OpensBlank(b) ==> OpensBlank(t)
  {
    if OpensBlank(b) {
      var m :| 0 <= m < |b| && b[m] == '\n' && SpacesBetween(b, 0, m);
      assert t[m] == b[m];
      forall j | 0 <= j < m ensures IsSpace(t[j]) { assert t[j] == b[j]; }
    }
  }

  lemma InterleavePrefix(blocks: seq<string>, seps: seq<string>)
    requires |blocks| == |seps| + 1
    ensures |blocks[0]| <= |Interleave(blocks, seps)|
    ensures Interleave(blocks, seps)[..|blocks[0]|] == blocks[0]
  {
    if seps != [] {
      var w := Interleave(blocks, seps);
      assert w == blocks[0] + (seps[0] + Interleave(blocks[1..], seps[1..]));
    }
  }

  /** The blocks of the stripped reply, with separators between them that
      give it back, satisfy every promise of a split; an empty reply has none. */
  lemma BlocksSpec(text: string)
    ensures Strip(text) == "" ==> Blocks(text) == []
    ensures Strip(text) != "" ==>
              exists seps :: SplitOf(Strip(text), 0, Pieces(Blocks(text), seps))
  {
    var t := Strip(text);
    if t != "" {
      SplitFromSpec(t, 0, 0);
      var r := SplitFrom(t, 0, 0);
      assert Pieces(Blocks(text), r.seps) == r;
    }
  }

  /** A reply without any separator is one block: the stripped reply. */
  lemma NoSeparatorOneBlock(text: string)
    requires Strip(text) != "" && NoBlank(Strip(text))
    ensures Blocks(text) == [Strip(text)]
  {
    var t := Strip(text);
    forall i | 0 <= i < |t| ensures MatchEnd(t, i).None? {
      MatchEndSpec(t, i);
    }
    NoMatchOneBlock(t, 0);
    assert t[0..] == t;
  }

  lemma {:induction false} NoMatchOneBlock(s: string, i: nat)
    requires i <= |s|
    requires forall j :: i <= j < |s| ==> MatchEnd(s, j).None?
    ensures SplitFrom(s, 0, i) == Pieces([s[0..]], [])
    decreases |s| - i
  {
    if i < |s| {
      NoMatchOneBlock(s, i + 1);
    }
  }
}
