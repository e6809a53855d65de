/**
 * The Python `str` operations the menu parsers are built from: `find`/`index`,
 * `in`, `startswith`, `strip`, `split`, `splitlines`, `join` and `lower`,
 * on strings as sequences of characters.
 */
module Str {
  import opened Wrappers
  import opened Chars

  /** `pat` occurs in `s` starting at index `i`. */
  predicate OccursAt(s: string, pat: string, i: int) {
    0 <= i && i + |pat| <= |s| && s[i..i + |pat|] == pat
  }

  /** `s.startswith(prefix)`. */
  predicate StartsWith(s: string, prefix: string) {
    OccursAt(s, prefix, 0)
  }

  /** `s.find(pat, from)`: the first occurrence at or after `from`, if any. */
  function Find(s: string, pat: string, from: nat): (r: Option<nat>)
    ensures r.Some? ==> from <= r.value && r.value + |pat| <= |s|
    decreases |s| - from
  {
    if from + |pat| > |s| then None
    else if OccursAt(s, pat, from) then Some(from)
    else Find(s, pat, from + 1)
  }

  /** `find` returns the first occurrence at or after `from`, and `None` only when there is none. */
  lemma {:induction false} FindSpec(s: string, pat: string, from: nat)
    ensures var r := Find(s, pat, from);
            && (r.Some? ==> from <= r.value && OccursAt(s, pat, r.value))
            && (r.Some? ==> forall j :: from <= j < r.value ==> !OccursAt(s, pat, j))
            && (r.None? ==> forall j :: from <= j ==> !OccursAt(s, pat, j))
    decreases |s| - from
  {
    if from + |pat| <= |s| && !OccursAt(s, pat, from) {
      FindSpec(s, pat, from + 1);
    }
  }

  /** `pat in s`. */
  predicate Contains(s: string, pat: string) {
    Find(s, pat, 0).Some?
  }

  lemma ContainsIff(s: string, pat: string)
    ensures Contains(s, pat) <==> exists j :: OccursAt(s, pat, j)
  {
    FindSpec(s, pat, 0);
  }

  /** An occurrence inside a slice is an occurrence in the whole string, shifted. */
  lemma OccursInSlice(s: string, pat: string, lo: int, hi: int, j: int)
    requires 0 <= lo <= hi <= |s|
    ensures OccursAt(s[lo..hi], pat, j) ==> OccursAt(s, pat, lo + j)
  {
    if OccursAt(s[lo..hi], pat, j) {
      forall k | 0 <= k < |pat|
        ensures s[lo + j..lo + j + |pat|][k] == pat[k]
      {
        assert s[lo..hi][j..j + |pat|][k] == pat[k];
      }
      assert s[lo + j..lo + j + |pat|] == pat;
    }
  }

  /** An occurrence that lies wholly inside a slice is an occurrence in the slice, shifted. */
  lemma OccursInSliceBack(s: string, pat: string, lo: int, hi: int, j: int)
    requires 0 <= lo <= j && j + |pat| <= hi <= |s|
    requires OccursAt(s, pat, j)
    ensures OccursAt(s[lo..hi], pat, j - lo)
  {
    var t := s[lo..hi];
    forall i | 0 <= i < |pat|
      ensures t[j - lo..j - lo + |pat|][i] == pat[i]
    {
      assert t[j - lo + i] == s[j + i];
      assert s[j..j + |pat|][i] == pat[i];
    }
    assert t[j - lo..j - lo + |pat|] == pat;
  }

  /** `find` in a slice locates the first occurrence in the whole string from the slice's start that ends inside it. */
  lemma FindInSlice(s: string, pat: string, lo: int, hi: int, f: nat)
    requires 0 <= lo <= hi <= |s| && Find(s[lo..hi], pat, 0) == Some(f)
    ensures OccursAt(s, pat, lo + f)
    ensures forall j :: lo <= j < lo + f ==> !OccursAt(s, pat, j)
  {
    FindSpec(s[lo..hi], pat, 0);
    OccursInSlice(s, pat, lo, hi, f);
    forall j | lo <= j < lo + f
      ensures !OccursAt(s, pat, j)
    {
      if OccursAt(s, pat, j) {
        OccursInSliceBack(s, pat, lo, hi, j);
        assert false;
      }
    }
  }

  /** The non-whitespace characters of `s`, in order: what a reader sees of the text. */
  function Visible(s: string): (r: string)
    ensures |r| <= |s|
  {
    if s == [] then [] else (if IsSpace(s[0]) then [] else [s[0]]) + Visible(s[1..])
  }

  lemma {:induction false} VisibleConcat(a: string, b: string)
    ensures Visible(a + b) == Visible(a) + Visible(b)
    decreases |a|
  {
    if a == [] {
      assert a + b == b;
    } else {
      var h := if IsSpace(a[0]) then [] else [a[0]];
      assert (a + b)[0] == a[0];
      assert (a + b)[1..] == a[1..] + b;
      VisibleConcat(a[1..], b);
      assert Visible(a + b) == h + Visible(a[1..] + b);
      assert Visible(a) == h + Visible(a[1..]);
    }
  }

  /** A run of whitespace shows nothing. */
  lemma {:induction false} VisibleOfSpaces(s: string)
    requires forall i :: 0 <= i < |s| ==> IsSpace(s[i])
    ensures Visible(s) == []
    decreases |s|
  {
    if s != [] {
      VisibleOfSpaces(s[1..]);
    }
  }

  /** `s.lstrip()`: drops the leading whitespace. */
  function TrimStart(s: string): (r: string)
    ensures |r| <= |s| && r == s[|s| - |r|..]
    ensures forall i :: 0 <= i < |s| - |r| ==> IsSpace(s[i])
    ensures r == [] || !IsSpace(r[0])
  {
    if s != [] && IsSpace(s[0]) then
      var r := TrimStart(s[1..]);
      assert s[1..][|s| - 1 - |r|..] == s[|s| - |r|..];
      assert forall i :: 1 <= i < |s| - |r| ==> s[i] == s[1..][i - 1];
      r
    else s
  }

  /** `s.rstrip()`: drops the trailing whitespace. */
  function TrimEnd(s: string): (r: string)
    ensures |r| <= |s| && r == s[..|r|]
    ensures forall i :: |r| <= i < |s| ==> IsSpace(s[i])
    ensures r == [] || !IsSpace(r[|r| - 1])
  {
    if s != [] && IsSpace(s[|s| - 1]) then TrimEnd(s[..|s| - 1]) else s
  }

  /** `r` is the slice `s[lo..lo+|r|]` and everything of `s` outside it is whitespace. */
  ghost predicate IsTrimmedSlice(s: string, r: string, lo: int) {
    && 0 <= lo && lo + |r| <= |s|
    && r == s[lo..lo + |r|]
    && (forall i :: 0 <= i < lo ==> IsSpace(s[i]))
    && (forall i :: lo + |r| <= i < |s| ==> IsSpace(s[i]))
  }

  /** `s.strip()`. */
  function Strip(s: string): (r: string)
    ensures r == [] || (!IsSpace(r[0]) && !IsSpace(r[|r| - 1]))
    ensures |r| <= |s|
  {
    var t := TrimStart(s);
    TrimEnd(t)
  }

  /** Strip keeps one slice of the text and drops only whitespace around it. */
  lemma StripSlice(s: string) returns (lo: nat)
    ensures IsTrimmedSlice(s, Strip(s), lo)
  {
    var t := TrimStart(s);
    lo := |s| - |t|;
    TrimmedSlice(s, t, TrimEnd(t), lo);
  }

  lemma TrimmedSlice(s: string, t: string, r: string, lo: nat)
    requires lo + |t| == |s| && t == s[lo..] && forall i :: 0 <= i < lo ==> IsSpace(s[i])
    requires |r| <= |t| && r == t[..|r|] && forall i :: |r| <= i < |t| ==> IsSpace(t[i])
    ensures IsTrimmedSlice(s, r, lo)
  {
    assert r == s[lo..lo + |r|];
    forall i | lo + |r| <= i < |s|
      ensures IsSpace(s[i])
    {
      assert s[i] == t[i - lo];
    }
  }

  /** Strip drops only whitespace: the visible text is unchanged. */
  lemma StripVisible(s: string)
    ensures Visible(Strip(s)) == Visible(s)
  {
    TrimStartVisible(s);
    TrimEndVisible(TrimStart(s));
  }

  lemma {:induction false} TrimStartVisible(s: string)
    ensures Visible(TrimStart(s)) == Visible(s)
    decreases |s|
  {
    if s != [] && IsSpace(s[0]) {
      TrimStartVisible(s[1..]);
    }
  }

  lemma {:induction false} TrimEndVisible(s: string)
    ensures Visible(TrimEnd(s)) == Visible(s)
    decreases |s|
  {
    if s != [] && IsSpace(s[|s| - 1]) {
      var init := s[..|s| - 1];
      TrimEndVisible(init);
      assert s == init + [s[|s| - 1]];
      VisibleConcat(init, [s[|s| - 1]]);
    }
  }

  /** A text that starts with a visible character shows something. */
  lemma VisibleEmptyIff(r: string)
    requires r == [] || !IsSpace(r[0])
    ensures Visible(r) == [] <==> r == []
  {
  }

  /** A string without surrounding whitespace is its own strip. */
  lemma StripNoop(s: string)
    requires s == [] || (!IsSpace(s[0]) && !IsSpace(s[|s| - 1]))
    ensures Strip(s) == s
  {
  }

  /** Strip keeps exactly the content between the first and last non-whitespace characters. */
  lemma StripEmptyIff(s: string)
    ensures Strip(s) == [] <==> forall i :: 0 <= i < |s| ==> IsSpace(s[i])
  {
    var r := Strip(s);
    var lo := StripSlice(s);
    if r == [] {
      forall i | 0 <= i < |s|
        ensures IsSpace(s[i])
      {
        assert i < lo || lo + |r| <= i;
      }
    } else {
      assert r[0] == s[lo];
    }
  }

  /** A character not in the margins of a strip survives it: some non-whitespace is kept. */
  lemma StripKeepsContent(s: string, i: int)
    requires 0 <= i < |s| && !IsSpace(s[i])
    ensures Strip(s) != []
  {
    StripEmptyIff(s);
  }

  /** A slice of a slice is a slice of the whole. */
  lemma SliceOfSlice(s: string, a: nat, b: nat, c: nat, d: nat)
    requires a <= b <= |s| && c <= d <= b - a
    ensures s[a..b][c..d] == s[a + c..a + d]
  {
    forall k | 0 <= k < d - c
      ensures s[a..b][c..d][k] == s[a + c..a + d][k]
    {
      assert s[a..b][c..d][k] == s[a..b][c + k] == s[a + c + k];
    }
  }

  /** `s[lo:hi]` for non-negative bounds: both are clamped to the length, and crossed bounds give the empty string. */
  function Slice(s: string, lo: nat, hi: nat): (r: string)
    ensures |r| <= |s|
    ensures lo <= hi <= |s| ==> r == s[lo..hi]
    ensures hi <= lo ==> r == []
  {
    var a := if lo < |s| then lo else |s|;
    var b := if hi < |s| then hi else |s|;
    if a < b then s[a..b] else []
  }

  /** `sep.join(parts)`. */
  function Join(sep: string, parts: seq<string>): string
  {
    if |parts| == 0 then []
    else if |parts| == 1 then parts[0]
    else parts[0] + sep + Join(sep, parts[1..])
  }

  /** `s.split(sep)` for a non-empty separator (Python raises on an empty one). */
  function Split(s: string, sep: string): (r: seq<string>)
    requires |sep| > 0
    ensures |r| >= 1
  {
    SplitFrom(s, sep, 0)
  }

  /** The pieces of `s[from..].split(sep)`, found by searching `s` itself from `from`. */
  function SplitFrom(s: string, sep: string, from: nat): (r: seq<string>)
    requires |sep| > 0 && from <= |s|
    ensures |r| >= 1
    decreases |s| - from
  {
    match Find(s, sep, from)
    case None => [s[from..]]
    case Some(i) => [s[from..i]] + SplitFrom(s, sep, i + |sep|)
  }

  /** Splitting and rejoining with the same separator restores the text. */
  lemma {:induction false} SplitJoin(s: string, sep: string, from: nat)
    requires |sep| > 0 && from <= |s|
    ensures Join(sep, SplitFrom(s, sep, from)) == s[from..]
    decreases |s| - from, 1
  {
    var f := Find(s, sep, from);
    if f.Some? {
      SplitJoinAt(s, sep, from, f.value);
    } else {
      SplitFromNone(s, sep, from);
    }
  }

  /** With no separator left the split is the remainder alone. */
  lemma SplitFromNone(s: string, sep: string, from: nat)
    requires |sep| > 0 && from <= |s| && Find(s, sep, from).None?
    ensures Join(sep, SplitFrom(s, sep, from)) == s[from..]
  {
    assert SplitFrom(s, sep, from) == [s[from..]];
  }

  /** `SplitJoin` when the first separator after `from` is at `i`. */
  lemma {:induction false} SplitJoinAt(s: string, sep: string, from: nat, i: nat)
    requires |sep| > 0 && from <= |s| && Find(s, sep, from) == Some(i)
    ensures Join(sep, SplitFrom(s, sep, from)) == s[from..]
    decreases |s| - from, 0
  {
    var j := i + |sep|;
    assert Join(sep, SplitFrom(s, sep, from)) == s[from..i] + sep + s[j..] by {
      var rest := SplitFrom(s, sep, j);
      SplitJoin(s, sep, j);
      SplitFromSome(s, sep, from, i, rest);
      JoinPrepend(sep, s[from..i], rest);
    }
    assert s[from..] == s[from..i] + sep + s[j..] by {
      FindSpec(s, sep, from);
      SliceAround(s, sep, from, i);
    }
  }

  /** One step of the split: the piece before the first separator, then the rest. */
  lemma SplitFromSome(s: string, sep: string, from: nat, i: nat, rest: seq<string>)
    requires |sep| > 0 && from <= |s|
    requires Find(s, sep, from) == Some(i) && i + |sep| <= |s|
    requires rest == SplitFrom(s, sep, i + |sep|)
    ensures SplitFrom(s, sep, from) == [s[from..i]] + rest
  {
  }

  /** Joining a piece in front of at least one more puts the separator between them. */
  lemma JoinPrepend(sep: string, x: string, rest: seq<string>)
    requires rest != []
    ensures Join(sep, [x] + rest) == x + sep + Join(sep, rest)
  {
    assert ([x] + rest)[1..] == rest;
  }

  /** A text around an occurrence of the separator is the part before, the separator and the part after. */
  lemma SliceAround(s: string, sep: string, from: nat, i: nat)
    requires from <= i && OccursAt(s, sep, i)
    ensures s[from..] == s[from..i] + sep + s[i + |sep|..]
  {
    assert s[i..i + |sep|] == sep;
    assert s[from..] == s[from..i] + s[i..i + |sep|] + s[i + |sep|..];
  }

  /** None of `parts` holds an occurrence of `sep`. */
  ghost predicate PiecesFree(parts: seq<string>, sep: string) {
    forall k, j :: 0 <= k < |parts| ==> !OccursAt(parts[k], sep, j)
  }

  /** No piece of a split holds the separator. */
  lemma {:induction false} SplitPiecesFree(s: string, sep: string, from: nat)
    requires |sep| > 0 && from <= |s|
    ensures PiecesFree(SplitFrom(s, sep, from), sep)
    decreases |s| - from
  {
    var f := Find(s, sep, from);
    if f.Some? {
      var next := f.value + |sep|;
      SplitPiecesFree(s, sep, next);
      SplitPiecesFreeStep(s, sep, from, f.value, next);
    } else {
      assert SplitFrom(s, sep, from) == [s[from..]];
      FindSpec(s, sep, from);
      forall j
        ensures !OccursAt(s[from..], sep, j)
      {
        OccursInSlice(s, sep, from, |s|, j);
        assert s[from..|s|] == s[from..];
      }
    }
  }

  /** The inductive step of `SplitPiecesFree`: the piece before the first separator holds none. */
  lemma SplitPiecesFreeStep(s: string, sep: string, from: nat, i: nat, next: nat)
    requires |sep| > 0 && from <= |s| && Find(s, sep, from) == Some(i) && next == i + |sep|
    requires PiecesFree(SplitFrom(s, sep, next), sep)
    ensures PiecesFree(SplitFrom(s, sep, from), sep)
  {
    var rest := SplitFrom(s, sep, next);
    assert SplitFrom(s, sep, from) == [s[from..i]] + rest by {
      SplitFromSome(s, sep, from, i, rest);
    }
    forall j
      ensures !OccursAt(s[from..i], sep, j)
    {
      FindSpec(s, sep, from);
      OccursInSlice(s, sep, from, i, j);
    }
    PiecesFreeCons(s[from..i], rest, sep);
  }

  lemma PiecesFreeCons(x: string, rest: seq<string>, sep: string)
    requires forall j :: !OccursAt(x, sep, j)
    requires PiecesFree(rest, sep)
    ensures PiecesFree([x] + rest, sep)
  {
    var r := [x] + rest;
    forall k, j | 0 <= k < |r|
      ensures !OccursAt(r[k], sep, j)
    {
      if k > 0 {
        assert r[k] == rest[k - 1];
      }
    }
  }

  /** The first piece of a split is the text before the first occurrence, or all of it. */
  lemma SplitFirst(s: string, sep: string)
    requires |sep| > 0
    ensures Find(s, sep, 0).None? ==> Split(s, sep) == [s]
    ensures Find(s, sep, 0).Some? ==> Split(s, sep)[0] == s[..Find(s, sep, 0).value]
  {
  }

  /** The second piece of a split exists iff `sep` occurs; it runs to the next occurrence, or to the end. */
  lemma SplitSecond(s: string, sep: string)
    requires |sep| > 0
    ensures |Split(s, sep)| >= 2 <==> Find(s, sep, 0).Some?
    ensures Find(s, sep, 0).Some? ==>
              var k := Find(s, sep, 0).value + |sep|;
              Split(s, sep)[1] == (if Find(s, sep, k).Some? then s[k..Find(s, sep, k).value] else s[k..])
  {
    if Find(s, sep, 0).Some? {
      var k := Find(s, sep, 0).value + |sep|;
      assert Split(s, sep) == [s[..k - |sep|]] + SplitFrom(s, sep, k);
    }
  }

  /** No character of `s` is a line boundary. */
  predicate NoLineBreak(s: string) {
    forall j :: 0 <= j < |s| ==> !IsLineBreak(s[j])
  }

  /** The first line boundary at or after `from`, or `|s|`. */
  function FirstLineBreak(s: string, from: nat): (i: nat)
    requires from <= |s|
    ensures from <= i <= |s|
    ensures forall k :: from <= k < i ==> !IsLineBreak(s[k])
    ensures i < |s| ==> IsLineBreak(s[i])
    decreases |s| - from
  {
    if from == |s| || IsLineBreak(s[from]) then from else FirstLineBreak(s, from + 1)
  }

  /** `s.splitlines()`: the lines without their boundaries; a final boundary opens no new line. */
  function SplitLines(s: string): (r: seq<string>)
    ensures r == [] <==> s == []
    decreases |s|
  {
    if s == [] then []
    else
      var i := FirstLineBreak(s, 0);
      if i == |s| then [s]
      else
        [s[..i]] + SplitLines(s[i + BreakWidth(s, i)..])
  }

  /** No line of `s.splitlines()` holds a boundary. */
  lemma {:induction false} SplitLinesNoBreak(s: string)
    ensures forall k :: 0 <= k < |SplitLines(s)| ==> NoLineBreak(SplitLines(s)[k])
    decreases |s|
  {
    if s != [] {
      var i := FirstLineBreak(s, 0);
      if i < |s| {
        SplitLinesNoBreak(s[i + BreakWidth(s, i)..]);
      }
    }
  }

  /** The length of the boundary at `i`: "\r\n" counts as one boundary of two characters. */
  function BreakWidth(s: string, i: nat): (w: nat)
    requires i < |s|
    ensures 1 <= w <= 2 && i + w <= |s|
  {
    if s[i] == '\r' && i + 1 < |s| && s[i + 1] == '\n' then 2 else 1
  }

  /** One step of `SplitLines`: the text up to the first boundary, then the lines after it. */
  lemma SplitLinesCons(s: string, i: nat, rest: string)
    requires s != [] && i == FirstLineBreak(s, 0) && i < |s| && rest == s[i + BreakWidth(s, i)..]
    ensures SplitLines(s) == [s[..i]] + SplitLines(rest)
  {
  }

  /** Joining lines that hold no boundary and do not end in an empty line, then splitting, gives the lines back. */
  lemma {:induction false} SplitLinesJoin(lines: seq<string>)
    requires forall k :: 0 <= k < |lines| ==> NoLineBreak(lines[k])
    requires lines == [] || lines[|lines| - 1] != []
    ensures SplitLines(Join("\n", lines)) == lines
    decreases |lines|
  {
    if |lines| == 0 {
    } else if |lines| == 1 {
      var s := lines[0];
      assert FirstLineBreak(s, 0) == |s|;
    } else {
      var rest := Join("\n", lines[1..]);
      var s := lines[0] + "\n" + rest;
      assert Join("\n", lines) == s;
      assert s[..|lines[0]|] == lines[0];
      assert FirstLineBreak(s, 0) == |lines[0]| by {
        assert forall k :: 0 <= k < |lines[0]| ==> s[k] == lines[0][k];
        FirstLineBreakIs(s, |lines[0]|);
      }
      assert s[|lines[0]| + 1..] == rest;
      SplitLinesJoin(lines[1..]);
    }
  }

  /** Pins down `FirstLineBreak` from a known boundary. */
  lemma FirstLineBreakIs(s: string, i: nat)
    requires i < |s| && IsLineBreak(s[i])
    requires forall k :: 0 <= k < i ==> !IsLineBreak(s[k])
    ensures FirstLineBreak(s, 0) == i
  {
  }

  /** Splitting a text whose only boundaries are '\n' and rejoining the lines with '\n' restores the text, unless it ended in '\n'. */
  lemma {:induction false} JoinSplitLines(s: string)
    requires OnlyNewlines(s)
    requires s == [] || s[|s| - 1] != '\n'
    ensures Join("\n", SplitLines(s)) == s
    decreases |s|
  {
    if s != [] {
      var i := FirstLineBreak(s, 0);
      if i < |s| {
        assert s[i] == '\n';
        OnlyNewlinesSuffix(s, i + 1);
        JoinSplitLines(s[i + 1..]);
        JoinSplitLinesStep(s, i);
      }
    }
  }

  /** The inductive step of `JoinSplitLines`: the first line, a '\n', then the rejoined rest. */
  lemma JoinSplitLinesStep(s: string, i: nat)
    requires s != [] && i == FirstLineBreak(s, 0) && i + 1 < |s| && s[i] == '\n'
    requires Join("\n", SplitLines(s[i + 1..])) == s[i + 1..]
    ensures Join("\n", SplitLines(s)) == s
  {
    var rest := s[i + BreakWidth(s, i)..];
    assert rest == s[i + 1..];
    SplitLinesCons(s, i, rest);
    JoinPrepend("\n", s[..i], SplitLines(rest));
    SliceAround(s, "\n", 0, i);
  }

  /** Every line boundary of `s` is a '\n'. */
  predicate OnlyNewlines(s: string) {
    forall j :: 0 <= j < |s| && IsLineBreak(s[j]) ==> s[j] == '\n'
  }

  lemma OnlyNewlinesSuffix(s: string, k: nat)
    requires OnlyNewlines(s) && k <= |s|
    ensures OnlyNewlines(s[k..])
  {
    forall j | 0 <= j < |s| - k && IsLineBreak(s[k..][j])
      ensures s[k..][j] == '\n'
    {
      assert s[k..][j] == s[k + j];
    }
  }

  /** The first line of a text that starts with a non-space character starts with it. */
  lemma SplitLinesFirst(s: string)
    requires s != [] && !IsSpace(s[0])
    ensures SplitLines(s)[0] != [] && SplitLines(s)[0][0] == s[0]
  {
    LineBreakIsSpace(s[0]);
  }

  /** The last line of a text that does not end with a line boundary ends with the text's last character. */
  lemma {:induction false} SplitLinesLast(s: string)
    requires s != [] && !IsLineBreak(s[|s| - 1])
    ensures SplitLines(s) != []
    ensures LastLine(SplitLines(s)) != []
    ensures LastLine(SplitLines(s))[|LastLine(SplitLines(s))| - 1] == s[|s| - 1]
    decreases |s|
  {
    var i := FirstLineBreak(s, 0);
    if i < |s| {
      var w := BreakWidth(s, i);
      var rest := s[i + w..];
      assert rest != [] && rest[|rest| - 1] == s[|s| - 1];
      SplitLinesLast(rest);
      SplitLinesCons(s, i, rest);
      LastLineAppend([s[..i]], SplitLines(rest));
    } else {
      assert SplitLines(s) == [s];
    }
  }

  function LastLine(lines: seq<string>): string
    requires lines != []
  {
    lines[|lines| - 1]
  }

  lemma LastLineAppend(a: seq<string>, b: seq<string>)
    requires b != []
    ensures LastLine(a + b) == LastLine(b)
  {
  }

  /** The first index at or after `i` that is not whitespace, or `|s|`. */
  function SkipSpaces(s: string, i: nat): (k: nat)
    requires i <= |s|
    ensures i <= k <= |s|
    ensures forall j :: i <= j < k ==> IsSpace(s[j])
    ensures k < |s| ==> !IsSpace(s[k])
    decreases |s| - i
  {
    if i == |s| || !IsSpace(s[i]) then i else SkipSpaces(s, i + 1)
  }

  /** Skipping whitespace from `i` stops at `q` when only whitespace lies between and none follows. */
  lemma {:induction false} SkipSpacesIs(s: string, i: nat, q: nat)
    requires i <= q <= |s| && (q < |s| ==> !IsSpace(s[q]))
    requires forall j :: i <= j < q ==> IsSpace(s[j])
    ensures SkipSpaces(s, i) == q
    decreases q - i
  {
    if i < q {
      SkipSpacesIs(s, i + 1, q);
    }
  }

  /** Skipping whitespace inside the slice `s[lo..hi]` from its index `m` stops where skipping in `s` stops, or at the slice end. */
  lemma SkipSpacesSlice(s: string, lo: nat, hi: nat, m: nat)
    requires lo <= hi <= |s| && m <= hi - lo
    ensures var k := lo + SkipSpaces(s[lo..hi], m);
            && lo + m <= k <= hi
            && (forall x :: lo + m <= x < k ==> IsSpace(s[x]))
            && (k < hi ==> !IsSpace(s[k]))
  {
    var b := s[lo..hi];
    var k := lo + SkipSpaces(b, m);
    forall x | lo + m <= x < k
      ensures IsSpace(s[x])
    {
      assert s[x] == b[x - lo];
    }
    if k < hi {
      assert s[k] == b[k - lo];
    }
  }

  /** `s.lower()`. */
  function LowerStr(s: string): (r: string)
    ensures |r| == |s|
  {
    seq(|s|, i requires 0 <= i < |s| => Lower(s[i]))
  }

  /** `word` (lower-case) occurs at `i` in `s` when case is ignored, as `re.IGNORECASE` compares it. */
  predicate MatchesIgnoreCase(s: string, i: nat, word: string) {
    i + |word| <= |s| && forall j :: 0 <= j < |word| ==> Lower(s[i + j]) == word[j]
  }

  /** A match inside a slice is a match in the whole text, and back. */
  lemma MatchesIgnoreCaseSlice(s: string, lo: nat, hi: nat, i: nat, word: string)
    requires lo <= i && i + |word| <= hi <= |s|
    ensures MatchesIgnoreCase(s[lo..hi], i - lo, word) <==> MatchesIgnoreCase(s, i, word)
  {
    var b := s[lo..hi];
    forall x | i <= x < i + |word|
      ensures b[x - lo] == s[x]
    {
    }
  }

  /** A case-insensitive match is the lower-cased text equal to the word. */
  lemma MatchesIgnoreCaseIff(s: string, i: nat, word: string)
    requires i + |word| <= |s|
    ensures MatchesIgnoreCase(s, i, word) <==> LowerStr(s[i..i + |word|]) == word
  {
    var t := LowerStr(s[i..i + |word|]);
    if MatchesIgnoreCase(s, i, word) {
      forall j | 0 <= j < |word|
        ensures t[j] == word[j]
      {
        assert s[i..i + |word|][j] == s[i + j];
      }
    }
    if t == word {
      forall j | 0 <= j < |word|
        ensures Lower(s[i + j]) == word[j]
      {
        assert s[i..i + |word|][j] == s[i + j];
        assert t[j] == word[j];
      }
    }
  }

  /** `s.capitalize()` for ASCII text: first character upper-cased, the rest lower-cased. */
  function Capitalize(s: string): string
  {
    if s == [] then [] else [UpperAscii(s[0])] + LowerStr(s[1..])
  }

  /** All characters are decimal digits. */
  predicate AllDigits(s: string) {
    forall i :: 0 <= i < |s| ==> IsDigit(s[i])
  }

  /** `\d{4}` matches at `p`. */
  predicate FourDigitsAt(s: string, p: nat) {
    p + 4 <= |s| && AllDigits(s[p..p + 4])
  }

  /** `int(s)` for a run of decimal digits. */
  function DecimalValue(s: string): (v: nat)
    requires AllDigits(s)
    decreases |s|
  {
    if s == [] then 0 else DecimalValue(s[..|s| - 1]) * 10 + DigitValue(s[|s| - 1])
  }

  /** The end of the run of digits starting at `i`. */
  function DigitRunEnd(s: string, i: nat): (k: nat)
    requires i <= |s|
    ensures i <= k <= |s|
    ensures AllDigits(s[i..k])
    ensures k < |s| ==> !IsDigit(s[k])
    decreases |s| - i
  {
    if i == |s| || !IsDigit(s[i]) then i
    else
      var k := DigitRunEnd(s, i + 1);
      assert s[i..k] == [s[i]] + s[i + 1..k];
      k
  }

  /** The run of digits from `i` ends at `n` when every character before `n` is a digit and the one at `n` is not. */
  lemma {:induction false} DigitRunEndIs(s: string, i: nat, n: nat)
    requires i <= n <= |s|
    requires forall j :: i <= j < n ==> IsDigit(s[j])
    requires n == |s| || !IsDigit(s[n])
    ensures DigitRunEnd(s, i) == n
    decreases n - i
  {
    if i < n {
      DigitRunEndIs(s, i + 1, n);
    }
  }

  lemma AppendAssoc<T>(p: seq<T>, q: seq<T>, r: seq<T>)
    ensures p + (q + r) == (p + q) + r
  {
  }
}
