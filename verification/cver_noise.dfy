/**
 * `_remove_noise_lines` of the CVER parser: legend and boilerplate lines are
 * dropped, whitespace-only lines become empty, every other line is kept as it
 * was, and the lines are joined again with '\n'.
 */
module CverNoise {
  import opened Chars
  import opened Wrappers
  import opened Str

  /** `ignore_starts`: the lower-cased beginnings of legend and boilerplate lines. */
  const IgnoreStarts: seq<string> := [
    "rouge :", "jaune :", "bleu :", "brun :", "vert :",
    "provenance :", "poulet, ", "poisson :",
    "les menus de laure et fran\U{E7}ois"
  ]

  /** `ignore_substrings`: the lower-cased fragments that mark the week header. */
  const IgnoreSubstrings: seq<string> := ["semaine du"]

  /** `any(s.startswith(p) for p in ps)`. */
  predicate StartsWithAny(s: string, ps: seq<string>)
    decreases |ps|
  {
    ps != [] && (StartsWith(s, ps[0]) || StartsWithAny(s, ps[1..]))
  }

  /** `any(p in s for p in ps)`. */
  predicate ContainsAny(s: string, ps: seq<string>)
    decreases |ps|
  {
    ps != [] && (Contains(s, ps[0]) || ContainsAny(s, ps[1..]))
  }

  lemma {:induction false} StartsWithAnyIff(s: string, ps: seq<string>)
    ensures StartsWithAny(s, ps) <==> exists p :: p in ps && StartsWith(s, p)
    decreases |ps|
  {
    if ps != [] {
      StartsWithAnyIff(s, ps[1..]);
      assert forall p :: p in ps <==> p == ps[0] || p in ps[1..];
    }
  }

  lemma {:induction false} ContainsAnyIff(s: string, ps: seq<string>)
    ensures ContainsAny(s, ps) <==> exists p :: p in ps && Contains(s, p)
    decreases |ps|
  {
    if ps != [] {
      ContainsAnyIff(s, ps[1..]);
      assert forall p :: p in ps <==> p == ps[0] || p in ps[1..];
    }
  }

  predicate HasIgnoredStart(lsl: string) {
    StartsWithAny(lsl, IgnoreStarts)
  }

  predicate HasIgnoredSubstring(lsl: string) {
    ContainsAny(lsl, IgnoreSubstrings)
  }

  /** A non-blank line whose trimmed, lower-cased form opens with a listed prefix or holds a listed fragment. */
  predicate IsNoise(line: string) {
    var lsl := LowerStr(Strip(line));
    Strip(line) != [] && (HasIgnoredStart(lsl) || HasIgnoredSubstring(lsl))
  }

  /** What becomes of a line that is not noise: blank lines are emptied, others kept verbatim. */
  function Kept(line: string): string {
    if Strip(line) == [] then "" else line
  }

  /**
   * One pass of the loop body over `line`, in the order the source tests the
   * cases: `Some(out)` appends `out`, `None` skips the line.
   */
  function LineOutcome(line: string): Option<string> {
    var ls := Strip(line);
    var lsl := LowerStr(ls);
    if ls == [] then Some("")
    else if HasIgnoredStart(lsl) then None
    else if HasIgnoredSubstring(lsl) then None
    else Some(line)
  }

  /** The loop over `s.splitlines()`. */
  function FilterNoise(lines: seq<string>): (r: seq<string>)
    ensures |r| <= |lines|
  {
    if lines == [] then []
    else
      match LineOutcome(lines[0])
      case None => FilterNoise(lines[1..])
      case Some(out) => [out] + FilterNoise(lines[1..])
  }

  /** `_remove_noise_lines`. */
  function RemoveNoiseLines(s: string): string {
    Join("\n", FilterNoise(SplitLines(s)))
  }

  /** The loop body drops exactly the noise lines and keeps the others in their `Kept` form. */
  lemma LineOutcomeSpec(line: string)
    ensures LineOutcome(line).None? <==> IsNoise(line)
    ensures LineOutcome(line).Some? ==> LineOutcome(line).value == Kept(line)
  {
  }

  /** A single line: a noise line vanishes, any other line is kept in its `Kept` form. */
  lemma FilterNoiseSingle(line: string)
    ensures FilterNoise([line]) == (if IsNoise(line) then [] else [Kept(line)])
  {
    LineOutcomeSpec(line);
    assert [line][1..] == [];
  }

  /**
   * The filter works line by line: filtering two texts' lines one after the
   * other gives the two results one after the other. With `FilterNoiseSingle`
   * this pins the filter down on every input: the surviving lines keep their
   * order, and only noise lines are dropped.
   */
  lemma {:induction false} FilterNoiseConcat(a: seq<string>, b: seq<string>)
    ensures FilterNoise(a + b) == FilterNoise(a) + FilterNoise(b)
    decreases |a|
  {
    if a == [] {
      assert a + b == b;
    } else {
      assert (a + b)[0] == a[0];
      assert (a + b)[1..] == a[1..] + b;
      FilterNoiseConcat(a[1..], b);
    }
  }

  /** No line of the result is itself noise. */
  lemma {:induction false} FilterNoiseClean(lines: seq<string>)
    ensures forall k :: 0 <= k < |FilterNoise(lines)| ==> !IsNoise(FilterNoise(lines)[k])
    decreases |lines|
  {
    if lines != [] {
      var rest := FilterNoise(lines[1..]);
      FilterNoiseClean(lines[1..]);
      FilterNoiseCons(lines);
      if !IsNoise(lines[0]) {
        KeptNotNoise(lines[0]);
        NoNoiseCons(Kept(lines[0]), rest);
      }
    }
  }

  lemma NoNoiseCons(line: string, rest: seq<string>)
    requires !IsNoise(line)
    requires forall k :: 0 <= k < |rest| ==> !IsNoise(rest[k])
    ensures forall k :: 0 <= k < |[line] + rest| ==> !IsNoise(([line] + rest)[k])
  {
    var r := [line] + rest;
    forall k | 0 <= k < |r|
      ensures !IsNoise(r[k])
    {
      if k > 0 {
        assert r[k] == rest[k - 1];
      }
    }
  }

  /** The first line's fate, then the rest of the lines. */
  lemma FilterNoiseCons(lines: seq<string>)
    requires lines != []
    ensures FilterNoise(lines) == (if IsNoise(lines[0]) then [] else [Kept(lines[0])]) + FilterNoise(lines[1..])
  {
    LineOutcomeSpec(lines[0]);
  }

  lemma KeptNotNoise(line: string)
    requires !IsNoise(line)
    ensures !IsNoise(Kept(line))
  {
    if Strip(line) == [] {
      StripEmptyIff("");
    }
  }

  /** Every line of the result is a line of the input, or empty. */
  lemma {:induction false} FilterNoiseLines(lines: seq<string>)
    ensures forall k :: 0 <= k < |FilterNoise(lines)| ==> FilterNoise(lines)[k] == [] || FilterNoise(lines)[k] in lines
    decreases |lines|
  {
    if lines != [] {
      FilterNoiseLines(lines[1..]);
    }
  }

  /** The only line boundary left in the result is '\n'. */
  lemma RemoveNoiseLinesBreaks(s: string)
    ensures forall j :: 0 <= j < |RemoveNoiseLines(s)| && IsLineBreak(RemoveNoiseLines(s)[j]) ==>
              RemoveNoiseLines(s)[j] == '\n'
  {
    var lines := FilterNoise(SplitLines(s));
    FilterNoiseLines(SplitLines(s));
    SplitLinesNoBreak(s);
    forall k | 0 <= k < |lines|
      ensures NoLineBreak(lines[k])
    {
      if lines[k] != [] {
        var i :| 0 <= i < |SplitLines(s)| && SplitLines(s)[i] == lines[k];
      }
    }
    JoinNewlineOnly(lines);
  }

  lemma {:induction false} JoinNewlineOnly(lines: seq<string>)
    requires forall k :: 0 <= k < |lines| ==> NoLineBreak(lines[k])
    ensures forall j :: 0 <= j < |Join("\n", lines)| && IsLineBreak(Join("\n", lines)[j]) ==>
              Join("\n", lines)[j] == '\n'
    decreases |lines|
  {
    if |lines| > 1 {
      JoinNewlineOnly(lines[1..]);
      var s := Join("\n", lines);
      var rest := Join("\n", lines[1..]);
      assert s == lines[0] + "\n" + rest;
      forall j | 0 <= j < |s|
        ensures IsLineBreak(s[j]) ==> s[j] == '\n'
      {
        if j < |lines[0]| {
          assert s[j] == lines[0][j];
        } else if j > |lines[0]| {
          assert s[j] == rest[j - |lines[0]| - 1];
        }
      }
    }
  }
}
