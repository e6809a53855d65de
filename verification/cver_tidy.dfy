/**
 * `_tidy_block` of the CVER parser: the block is stripped, every line has its
 * whitespace runs collapsed to one space and is stripped, consecutive
 * identical lines are merged, and the result is stripped again.
 */
module CverTidy {
  import opened Wrappers
  import opened Chars
  import opened Str
  import opened CverNormalize

  // ---------------------------------------------------------------------
  // One line

  /** `re.sub(r"\s+", " ", ln)`: every maximal run of whitespace becomes one space. */
  function CollapseSpaces(s: string): string
    decreases |s|
  {
    if s == [] then []
    else if IsSpace(s[0]) then " " + CollapseSpaces(s[SkipSpaces(s, 0)..])
    else [s[0]] + CollapseSpaces(s[1..])
  }

  /** `re.sub(r"\s+", " ", ln).strip()`. */
  function CleanLine(line: string): string {
    Strip(CollapseSpaces(line))
  }

  predicate DoubleSpaceAt(s: string, j: int) {
    0 <= j && j + 1 < |s| && s[j] == ' ' && s[j + 1] == ' '
  }

  /** The only whitespace is the plain space, and never two in a row. */
  ghost predicate SingleSpaced(s: string) {
    && (forall j :: 0 <= j < |s| && IsSpace(s[j]) ==> s[j] == ' ')
    && (forall j :: !DoubleSpaceAt(s, j))
  }

  /** A tidy line: single-spaced, with no space at either end. */
  ghost predicate IsCleanLine(line: string) {
    SingleSpaced(line) && (line == [] || (line[0] != ' ' && line[|line| - 1] != ' '))
  }

  lemma CollapseSpacesHead(s: string)
    requires s != []
    ensures CollapseSpaces(s) != []
    ensures IsSpace(s[0]) ==> CollapseSpaces(s)[0] == ' '
    ensures !IsSpace(s[0]) ==> CollapseSpaces(s)[0] == s[0]
  {
  }

  lemma {:induction false} CollapseSpacesSingle(s: string)
    ensures SingleSpaced(CollapseSpaces(s))
    decreases |s|
  {
    if s == [] {
    } else if IsSpace(s[0]) {
      var k := SkipSpaces(s, 0);
      var rest := s[k..];
      var t := CollapseSpaces(rest);
      CollapseSpacesSingle(rest);
      if rest != [] {
        CollapseSpacesHead(rest);
      }
      var r := " " + t;
      forall j | 0 <= j < |r|
        ensures IsSpace(r[j]) ==> r[j] == ' '
        ensures !DoubleSpaceAt(r, j)
      {
        if j > 0 {
          assert r[j] == t[j - 1];
          assert !DoubleSpaceAt(t, j - 1);
        }
      }
    } else {
      var t := CollapseSpaces(s[1..]);
      CollapseSpacesSingle(s[1..]);
      var r := [s[0]] + t;
      forall j | 0 <= j < |r|
        ensures IsSpace(r[j]) ==> r[j] == ' '
        ensures !DoubleSpaceAt(r, j)
      {
        if j > 0 {
          assert r[j] == t[j - 1];
          assert !DoubleSpaceAt(t, j - 1);
        }
      }
    }
  }

  /** Collapsing changes only whitespace. */
  lemma {:induction false} CollapseSpacesVisible(s: string)
    ensures Visible(CollapseSpaces(s)) == Visible(s)
    decreases |s|
  {
    if s == [] {
    } else if IsSpace(s[0]) {
      var k := SkipSpaces(s, 0);
      CollapseSpacesVisible(s[k..]);
      VisibleConcat(" ", CollapseSpaces(s[k..]));
      VisibleConcat(s[..k], s[k..]);
      VisibleOfSpaces(s[..k]);
      assert s == s[..k] + s[k..];
    } else {
      CollapseSpacesVisible(s[1..]);
      VisibleConcat([s[0]], CollapseSpaces(s[1..]));
    }
  }

  /** A single-spaced text is left as it is. */
  lemma {:induction false} CollapseSpacesIdentity(s: string)
    requires SingleSpaced(s)
    ensures CollapseSpaces(s) == s
    decreases |s|
  {
    if s != [] {
      var k := if IsSpace(s[0]) then SkipSpaces(s, 0) else 1;
      if IsSpace(s[0]) {
        assert k == 1 by {
          if |s| > 1 {
            assert !DoubleSpaceAt(s, 0);
          }
        }
      }
      assert SingleSpaced(s[k..]) by {
        forall j | 0 <= j < |s[k..]|
          ensures !DoubleSpaceAt(s[k..], j)
        {
          assert !DoubleSpaceAt(s, j + k);
        }
        assert forall j :: 0 <= j < |s[k..]| ==> s[k..][j] == s[j + k];
      }
      CollapseSpacesIdentity(s[k..]);
      assert s == s[..k] + s[k..];
    }
  }

  /** A text that does not end in whitespace is collapsed on its own: no run reaches across its end. */
  lemma {:induction false} CollapseSpacesAppend(a: string, b: string)
    requires a == [] || !IsSpace(a[|a| - 1])
    ensures CollapseSpaces(a + b) == CollapseSpaces(a) + CollapseSpaces(b)
    decreases |a|
  {
    if a == [] {
      assert a + b == b;
    } else if IsSpace(a[0]) {
      var k := SkipSpaces(a, 0);
      assert k < |a|;
      SkipSpacesIs(a + b, 0, k);
      assert (a + b)[k..] == a[k..] + b;
      CollapseSpacesAppend(a[k..], b);
      AppendAssoc(" ", CollapseSpaces(a[k..]), CollapseSpaces(b));
    } else {
      CollapseSpacesAppend(a[1..], b);
      assert (a + b)[1..] == a[1..] + b;
      AppendAssoc([a[0]], CollapseSpaces(a[1..]), CollapseSpaces(b));
    }
  }

  /** A maximal whitespace run at the head of a text, however long, becomes exactly one space. */
  lemma CollapseSpacesRun(run: string, b: string)
    requires run != [] && forall j :: 0 <= j < |run| ==> IsSpace(run[j])
    requires b == [] || !IsSpace(b[0])
    ensures CollapseSpaces(run + b) == " " + CollapseSpaces(b)
  {
    SkipSpacesIs(run + b, 0, |run|);
    assert (run + b)[|run|..] == b;
  }

  /**
   * A maximal whitespace run inside a text becomes exactly one space, and
   * the text on each side is collapsed on its own.
   */
  lemma CollapseSpacesMiddle(a: string, run: string, b: string)
    requires run != [] && forall j :: 0 <= j < |run| ==> IsSpace(run[j])
    requires a == [] || !IsSpace(a[|a| - 1])
    requires b == [] || !IsSpace(b[0])
    ensures CollapseSpaces(a + run + b) == CollapseSpaces(a) + " " + CollapseSpaces(b)
  {
    assert a + run + b == a + (run + b);
    CollapseSpacesAppend(a, run + b);
    CollapseSpacesRun(run, b);
    AppendAssoc(CollapseSpaces(a), " ", CollapseSpaces(b));
  }

  /** A slice of a single-spaced text is single-spaced. */
  lemma SingleSpacedSlice(s: string, lo: int, hi: int)
    requires 0 <= lo <= hi <= |s| && SingleSpaced(s)
    ensures SingleSpaced(s[lo..hi])
  {
    forall j | 0 <= j < hi - lo
      ensures !DoubleSpaceAt(s[lo..hi], j)
    {
      assert !DoubleSpaceAt(s, j + lo);
    }
  }

  /** Every cleaned line is a clean line, and it is empty only when the line was blank. */
  lemma CleanLineSpec(line: string)
    ensures IsCleanLine(CleanLine(line))
    ensures CleanLine(line) == [] <==> Visible(line) == []
  {
    var c := CollapseSpaces(line);
    CollapseSpacesSingle(line);
    CollapseSpacesVisible(line);
    StripVisible(c);
    VisibleEmptyIff(Strip(c));
    StripSingleSpaced(c);
  }

  /** Stripping a single-spaced text leaves a clean line. */
  lemma StripSingleSpaced(c: string)
    requires SingleSpaced(c)
    ensures IsCleanLine(Strip(c))
  {
    var r := Strip(c);
    var lo := StripSlice(c);
    SingleSpacedSlice(c, lo, lo + |r|);
  }

  /** A clean line is its own cleaning. */
  lemma CleanLineIdentity(line: string)
    requires IsCleanLine(line)
    ensures CleanLine(line) == line
  {
    CollapseSpacesIdentity(line);
    StripNoop(line);
  }

  /** A non-empty clean line neither starts nor ends with whitespace. */
  lemma CleanLineEnds(line: string)
    requires IsCleanLine(line) && line != []
    ensures !IsSpace(line[0]) && !IsSpace(line[|line| - 1])
  {
  }

  lemma CleanLineNoBreak(line: string)
    requires IsCleanLine(line)
    ensures NoLineBreak(line)
  {
    forall j | 0 <= j < |line|
      ensures !IsLineBreak(line[j])
    {
      LineBreakIsSpace(line[j]);
    }
  }

  // ---------------------------------------------------------------------
  // Consecutive duplicates

  /**
   * The `prev` loop: a line is kept when it differs from the line before it in
   * the input (`prev` is `None` before the first line).
   */
  function Dedup(lines: seq<string>, prev: Option<string>): (r: seq<string>)
    ensures |r| <= |lines|
  {
    if lines == [] then []
    else if Some(lines[0]) != prev then [lines[0]] + Dedup(lines[1..], Some(lines[0]))
    else Dedup(lines[1..], Some(lines[0]))
  }

  /** No two neighbours are equal. */
  ghost predicate NoAdjacentDuplicates(lines: seq<string>) {
    forall i, j :: 0 <= i < j < |lines| && j == i + 1 ==> lines[i] != lines[j]
  }

  lemma {:induction false} DedupFrom(lines: seq<string>, prev: Option<string>)
    ensures forall k :: 0 <= k < |Dedup(lines, prev)| ==> Dedup(lines, prev)[k] in lines
    ensures NoAdjacentDuplicates(Dedup(lines, prev))
    ensures Dedup(lines, prev) != [] ==> Some(Dedup(lines, prev)[0]) != prev
    decreases |lines|
  {
    if lines != [] {
      DedupFrom(lines[1..], Some(lines[0]));
      var t := Dedup(lines[1..], Some(lines[0]));
      var r := Dedup(lines, prev);
      if Some(lines[0]) != prev {
        assert r == [lines[0]] + t;
        forall i, j | 0 <= i < j < |r| && j == i + 1
          ensures r[i] != r[j]
        {
          if i > 0 {
            assert r[i] == t[i - 1] && r[j] == t[j - 1];
          }
        }
      }
    }
  }

  /** When nothing is kept, every line repeated `prev`. */
  lemma {:induction false} DedupEmpty(lines: seq<string>, p: string)
    requires Dedup(lines, Some(p)) == []
    ensures forall k :: 0 <= k < |lines| ==> lines[k] == p
    decreases |lines|
  {
    if lines != [] {
      DedupEmpty(lines[1..], p);
    }
  }

  /** The last line always survives, as the last kept line. */
  lemma {:induction false} DedupLast(lines: seq<string>, prev: Option<string>)
    requires Dedup(lines, prev) != []
    ensures LastLine(Dedup(lines, prev)) == LastLine(lines)
    decreases |lines|
  {
    var t := Dedup(lines[1..], Some(lines[0]));
    if t != [] {
      DedupLast(lines[1..], Some(lines[0]));
    } else if |lines| > 1 {
      DedupEmpty(lines[1..], lines[0]);
      assert lines[1..][|lines| - 2] == lines[0];
    }
  }

  /** Lines without neighbouring duplicates are kept as they are. */
  lemma {:induction false} DedupIdentity(lines: seq<string>, prev: Option<string>)
    requires NoAdjacentDuplicates(lines)
    requires lines == [] || Some(lines[0]) != prev
    ensures Dedup(lines, prev) == lines
    decreases |lines|
  {
    if lines != [] {
      if |lines| > 1 {
        assert lines[0] != lines[1];
      }
      DedupIdentity(lines[1..], Some(lines[0]));
    }
  }

  /** The `prev` in force after `lines`: the last line, or `prev` itself when there is none. */
  function LastOr(lines: seq<string>, prev: Option<string>): Option<string> {
    if lines == [] then prev else Some(lines[|lines| - 1])
  }

  /**
   * The loop line by line: appending a line to the input appends it to the
   * result exactly when it differs from the line before it.
   */
  lemma {:induction false} DedupSnoc(lines: seq<string>, prev: Option<string>, x: string)
    ensures Dedup(lines + [x], prev) ==
              Dedup(lines, prev) + (if Some(x) == LastOr(lines, prev) then [] else [x])
    decreases |lines|
  {
    if lines != [] {
      assert (lines + [x])[0] == lines[0];
      assert (lines + [x])[1..] == lines[1..] + [x];
      DedupSnoc(lines[1..], Some(lines[0]), x);
      assert LastOr(lines[1..], Some(lines[0])) == LastOr(lines, prev);
    }
  }

  // ---------------------------------------------------------------------
  // The whole block

  function CleanLines(lines: seq<string>): (r: seq<string>)
    ensures |r| == |lines|
    ensures forall k :: 0 <= k < |lines| ==> r[k] == CleanLine(lines[k])
  {
    seq(|lines|, k requires 0 <= k < |lines| => CleanLine(lines[k]))
  }

  /** `_tidy_block`. */
  function Tidy(s: string): string {
    var stripped := Strip(s);
    var cleaned := Join("\n", CleanLines(SplitLines(stripped)));
    var deduped := Join("\n", Dedup(SplitLines(cleaned), None));
    Strip(CollapseNewlineRuns(deduped))
  }

  /** The shape of a tidied description, line by line. */
  ghost predicate IsTidyLines(lines: seq<string>) {
    && (forall k :: 0 <= k < |lines| ==> IsCleanLine(lines[k]))
    && NoAdjacentDuplicates(lines)
    && (lines == [] || (lines[0] != [] && LastLine(lines) != []))
  }

  /** The lines of a tidied description: the stripped block's lines, cleaned, without neighbouring duplicates. */
  function TidyLines(s: string): seq<string> {
    Dedup(CleanLines(SplitLines(Strip(s))), None)
  }

  // Facts about joined lines

  lemma JoinCons(lines: seq<string>)
    requires |lines| > 1
    ensures Join("\n", lines) == lines[0] + "\n" + Join("\n", lines[1..])
  {
  }

  /** The joined text starts with the first line's first character, or with the separator when that line is empty. */
  lemma {:induction false} JoinHead(lines: seq<string>)
    requires |lines| > 1 || (|lines| == 1 && lines[0] != [])
    ensures Join("\n", lines) != []
    ensures lines[0] != [] ==> Join("\n", lines)[0] == lines[0][0]
    ensures lines[0] == [] ==> Join("\n", lines)[0] == '\n'
  {
  }

  /** The joined text ends with the last line's last character. */
  lemma {:induction false} JoinTail(lines: seq<string>)
    requires lines != [] && LastLine(lines) != []
    ensures Join("\n", lines) != []
    ensures Join("\n", lines)[|Join("\n", lines)| - 1] == LastLine(lines)[|LastLine(lines)| - 1]
    decreases |lines|
  {
    if |lines| > 1 {
      assert LastLine(lines[1..]) == LastLine(lines);
      JoinTail(lines[1..]);
    }
  }

  /** Lines without '\n' and without two empty neighbours join into a text without "\n\n\n". */
  lemma {:induction false} JoinNoTriple(lines: seq<string>)
    requires forall k :: 0 <= k < |lines| ==> NoLineBreak(lines[k])
    requires NoAdjacentDuplicates(lines)
    ensures NoTripleNewline(Join("\n", lines))
    decreases |lines|
  {
    if |lines| == 1 {
      forall i
        ensures !TripleNewlineAt(lines[0], i)
      {
        if 0 <= i < |lines[0]| {
          assert !IsLineBreak(lines[0][i]);
        }
      }
    } else if |lines| > 1 {
      var x := lines[0];
      var rest := lines[1..];
      var r := Join("\n", rest);
      assert NoAdjacentDuplicates(rest) by {
        forall i, j | 0 <= i < j < |rest| && j == i + 1
          ensures rest[i] != rest[j]
        {
          assert lines[i + 1] != lines[j + 1];
        }
      }
      JoinNoTriple(rest);
      JoinCons(lines);
      var s := x + "\n" + r;
      forall i
        ensures !TripleNewlineAt(s, i)
      {
        if 0 <= i < |x| {
          assert s[i] == x[i];
          assert !IsLineBreak(x[i]);
        } else if i == |x| && i + 3 <= |s| {
          assert s[i + 1] == r[0] && s[i + 2] == r[1];
          JoinHead(rest);
          if rest[0] == [] {
            assert |rest| > 1 by {
              assert |r| >= 2;
            }
            assert rest[1] != [] by {
              assert lines[1] != lines[2];
            }
            JoinCons(rest);
            JoinHead(rest[1..]);
            assert r[1] == rest[1][0];
            assert !IsLineBreak(rest[1][0]);
          } else {
            assert !IsLineBreak(rest[0][0]);
          }
        } else if i > |x| {
          assert !TripleNewlineAt(r, i - |x| - 1);
        }
      }
    }
  }

  /** Joined tidy lines: stripping and collapsing blank-line runs change nothing. */
  lemma TidyJoinStable(lines: seq<string>)
    requires IsTidyLines(lines)
    ensures CollapseNewlineRuns(Join("\n", lines)) == Join("\n", lines)
    ensures Strip(Join("\n", lines)) == Join("\n", lines)
  {
    var t := Join("\n", lines);
    forall k | 0 <= k < |lines|
      ensures NoLineBreak(lines[k])
    {
      CleanLineNoBreak(lines[k]);
    }
    JoinNoTriple(lines);
    CollapseIdentity(t);
    if lines != [] {
      JoinHead(lines);
      JoinTail(lines);
      CleanLineEnds(lines[0]);
      CleanLineEnds(LastLine(lines));
    }
    StripNoop(t);
  }

  /** The cleaned lines of a stripped block: all clean, the first and last non-empty. */
  lemma CleanedLinesShape(stripped: string)
    requires Strip(stripped) == stripped
    ensures var m := CleanLines(SplitLines(stripped));
            (forall k :: 0 <= k < |m| ==> IsCleanLine(m[k])) &&
            (m == [] || (m[0] != [] && LastLine(m) != []))
  {
    var lines := SplitLines(stripped);
    var m := CleanLines(lines);
    CleanLinesClean(lines);
    if stripped != [] {
      OuterLinesVisible(stripped);
      CleanLineSpec(lines[0]);
      CleanLineSpec(LastLine(lines));
      assert LastLine(m) == CleanLine(LastLine(lines));
    }
  }

  lemma CleanLinesClean(lines: seq<string>)
    ensures forall k :: 0 <= k < |lines| ==> IsCleanLine(CleanLines(lines)[k])
  {
    forall k | 0 <= k < |lines|
      ensures IsCleanLine(CleanLines(lines)[k])
    {
      CleanLineSpec(lines[k]);
    }
  }

  /** The first and last lines of a non-empty stripped text show something. */
  lemma OuterLinesVisible(stripped: string)
    requires stripped != [] && Strip(stripped) == stripped
    ensures SplitLines(stripped) != []
    ensures Visible(SplitLines(stripped)[0]) != []
    ensures Visible(LastLine(SplitLines(stripped))) != []
  {
    assert !IsSpace(stripped[0]) && !IsSpace(stripped[|stripped| - 1]);
    FirstLineVisible(stripped);
    LastLineVisible(stripped);
  }

  lemma FirstLineVisible(s: string)
    requires s != [] && !IsSpace(s[0])
    ensures SplitLines(s) != [] && Visible(SplitLines(s)[0]) != []
  {
    SplitLinesFirst(s);
    VisibleNonEmpty(SplitLines(s)[0], 0);
  }

  lemma LastLineVisible(s: string)
    requires s != [] && !IsSpace(s[|s| - 1])
    ensures SplitLines(s) != [] && Visible(LastLine(SplitLines(s))) != []
  {
    var lines := SplitLines(s);
    LineBreakIsSpace(s[|s| - 1]);
    SplitLinesLast(s);
    var last := LastLine(lines);
    var c := s[|s| - 1];
    assert last != [] && last[|last| - 1] == c;
    VisibleNonEmpty(last, |last| - 1);
  }

  lemma {:induction false} VisibleNonEmpty(s: string, i: nat)
    requires i < |s| && !IsSpace(s[i])
    ensures Visible(s) != []
    decreases i
  {
    if i > 0 {
      VisibleNonEmpty(s[1..], i - 1);
    }
  }

  lemma CleanLinesNoBreak(lines: seq<string>)
    requires forall k :: 0 <= k < |lines| ==> IsCleanLine(lines[k])
    ensures forall k :: 0 <= k < |lines| ==> NoLineBreak(lines[k])
  {
    forall k | 0 <= k < |lines|
      ensures NoLineBreak(lines[k])
    {
      CleanLineNoBreak(lines[k]);
    }
  }

  /** Clean lines are their own cleaning. */
  lemma CleanLinesIdentity(lines: seq<string>)
    requires forall k :: 0 <= k < |lines| ==> IsCleanLine(lines[k])
    ensures CleanLines(lines) == lines
  {
    forall k | 0 <= k < |lines|
      ensures CleanLines(lines)[k] == lines[k]
    {
      CleanLineIdentity(lines[k]);
    }
  }

  /** The lines of a tidied description have the tidy shape. */
  lemma TidyLinesShape(s: string)
    ensures IsTidyLines(TidyLines(s))
  {
    StripIdempotent(s);
    CleanedLinesShape(Strip(s));
    DedupShape(CleanLines(SplitLines(Strip(s))));
  }

  /** Dropping neighbouring duplicates from clean lines with non-empty ends leaves tidy lines. */
  lemma DedupShape(m: seq<string>)
    requires forall k :: 0 <= k < |m| ==> IsCleanLine(m[k])
    requires m == [] || (m[0] != [] && LastLine(m) != [])
    ensures IsTidyLines(Dedup(m, None))
  {
    var d := Dedup(m, None);
    DedupFrom(m, None);
    if m != [] {
      assert d[0] == m[0];
      DedupLast(m, None);
    }
  }

  /** `Tidy`'s steps, given what each of them yields. */
  lemma TidySteps(s: string, m: seq<string>, d: seq<string>)
    requires m == CleanLines(SplitLines(Strip(s)))
    requires SplitLines(Join("\n", m)) == m
    requires d == Dedup(m, None)
    requires CollapseNewlineRuns(Join("\n", d)) == Join("\n", d)
    requires Strip(Join("\n", d)) == Join("\n", d)
    ensures Tidy(s) == Join("\n", d)
  {
  }

  /** The tidied description is its lines joined with '\n'. */
  lemma TidyIsJoin(s: string)
    ensures Tidy(s) == Join("\n", TidyLines(s))
  {
    var m := CleanLines(SplitLines(Strip(s)));
    var d := Dedup(m, None);
    assert SplitLines(Join("\n", m)) == m by {
      StripIdempotent(s);
      CleanedLinesShape(Strip(s));
      CleanLinesNoBreak(m);
      SplitLinesJoin(m);
    }
    assert CollapseNewlineRuns(Join("\n", d)) == Join("\n", d) && Strip(Join("\n", d)) == Join("\n", d) by {
      TidyLinesShape(s);
      TidyJoinStable(d);
    }
    TidySteps(s, m, d);
  }

  /**
   * The tidied description is the tidy lines joined with '\n': each line
   * trimmed and single-spaced, no two neighbours equal, the first and last
   * non-empty. Such a text is stripped and holds no "\n\n\n".
   */
  lemma TidySpec(s: string)
    ensures IsTidyLines(TidyLines(s))
    ensures Tidy(s) == Join("\n", TidyLines(s))
    ensures Strip(Tidy(s)) == Tidy(s)
    ensures !Contains(Tidy(s), "\n\n\n")
  {
    TidyLinesShape(s);
    TidyIsJoin(s);
    JoinedTidy(TidyLines(s));
  }

  /** Tidy lines joined with '\n' are stripped and hold no "\n\n\n". */
  lemma JoinedTidy(d: seq<string>)
    requires IsTidyLines(d)
    ensures Strip(Join("\n", d)) == Join("\n", d)
    ensures !Contains(Join("\n", d), "\n\n\n")
  {
    TidyJoinStable(d);
    CleanLinesNoBreak(d);
    JoinNoTriple(d);
    NoTripleNewlineIff(Join("\n", d));
  }

  lemma StripIdempotent(s: string)
    ensures Strip(Strip(s)) == Strip(s)
  {
    StripNoop(Strip(s));
  }

  /** Tidy lines joined with '\n' are their own tidy form. */
  lemma TidyFixpoint(lines: seq<string>)
    requires IsTidyLines(lines)
    ensures Tidy(Join("\n", lines)) == Join("\n", lines)
  {
    var t := Join("\n", lines);
    TidyJoinStable(lines);
    CleanLinesNoBreak(lines);
    SplitLinesJoin(lines);
    CleanLinesIdentity(lines);
    DedupIdentity(lines, None);
    TidySteps(t, lines, lines);
  }

  /** Tidying is idempotent. */
  lemma TidyIdempotent(s: string)
    ensures Tidy(Tidy(s)) == Tidy(s)
  {
    TidySpec(s);
    TidyFixpoint(TidyLines(s));
  }

  /** A text is its own tidy form exactly when it is tidy lines joined with '\n'. */
  lemma TidyFixpointIff(s: string)
    ensures Tidy(s) == s <==> exists lines :: IsTidyLines(lines) && s == Join("\n", lines)
  {
    if Tidy(s) == s {
      TidySpec(s);
      assert IsTidyLines(TidyLines(s)) && s == Join("\n", TidyLines(s));
    } else {
      forall lines | IsTidyLines(lines)
        ensures s != Join("\n", lines)
      {
        TidyFixpoint(lines);
      }
    }
  }
}
