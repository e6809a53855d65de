/**
 * `_normalize_text` of the CVER parser: every line ending becomes '\n', the
 * no-break space becomes a plain space, and runs of three or more '\n' shrink
 * to two.
 */
module CverNormalize {
  import opened Chars
  import opened Str

  const NoBreakSpace: char := '\U{A0}'

  /** Three '\n' in a row start at `i`. */
  predicate TripleNewlineAt(s: string, i: int) {
    0 <= i && i + 3 <= |s| && s[i] == '\n' && s[i + 1] == '\n' && s[i + 2] == '\n'
  }

  ghost predicate NoTripleNewline(s: string) {
    forall i :: !TripleNewlineAt(s, i)
  }

  lemma NoTripleNewlineIff(s: string)
    ensures NoTripleNewline(s) <==> !Contains(s, "\n\n\n")
  {
    ContainsIff(s, "\n\n\n");
    forall i
      ensures TripleNewlineAt(s, i) <==> OccursAt(s, "\n\n\n", i)
    {
      if 0 <= i && i + 3 <= |s| {
        assert s[i..i + 3] == [s[i], s[i + 1], s[i + 2]];
      }
    }
  }

  /** `s.replace("\r\n", "\n")`: pairs are replaced left to right, without overlap. */
  function ReplaceCrLf(s: string): (r: string)
    decreases |s|
  {
    if s == [] then []
    else if |s| >= 2 && s[0] == '\r' && s[1] == '\n' then "\n" + ReplaceCrLf(s[2..])
    else [s[0]] + ReplaceCrLf(s[1..])
  }

  /** `s.replace(a, b)` for single characters. */
  function ReplaceChar(s: string, a: char, b: char): (r: string)
    ensures |r| == |s|
    ensures forall i :: 0 <= i < |s| ==> r[i] == (if s[i] == a then b else s[i])
  {
    seq(|s|, i requires 0 <= i < |s| => if s[i] == a then b else s[i])
  }

  /** The end of the run of '\n' that starts at `i`. */
  function NewlineRunEnd(s: string, i: nat): (k: nat)
    requires i <= |s|
    ensures i <= k <= |s|
    ensures forall j :: i <= j < k ==> s[j] == '\n'
    ensures k < |s| ==> s[k] != '\n'
    decreases |s| - i
  {
    if i == |s| || s[i] != '\n' then i else NewlineRunEnd(s, i + 1)
  }

  /** `re.sub(r"\n{3,}", "\n\n", s)`: every maximal run of three or more '\n' becomes two. */
  function CollapseNewlineRuns(s: string): (r: string)
    decreases |s|
  {
    if s == [] then []
    else if s[0] != '\n' then [s[0]] + CollapseNewlineRuns(s[1..])
    else
      var k := NewlineRunEnd(s, 0);
      (if k >= 3 then "\n\n" else s[..k]) + CollapseNewlineRuns(s[k..])
  }

  /** The run of '\n' from `i` ends at `k` when all of `s[i..k]` is '\n' and no '\n' follows. */
  lemma {:induction false} NewlineRunEndIs(s: string, i: nat, k: nat)
    requires i <= k <= |s|
    requires forall j :: i <= j < k ==> s[j] == '\n'
    requires k == |s| || s[k] != '\n'
    ensures NewlineRunEnd(s, i) == k
    decreases k - i
  {
    if i < k {
      NewlineRunEndIs(s, i + 1, k);
    }
  }

  /** A character other than '\n' passes through the collapse. */
  lemma CollapseCons(c: char, x: string)
    requires c != '\n'
    ensures CollapseNewlineRuns([c] + x) == [c] + CollapseNewlineRuns(x)
  {
    assert ([c] + x)[1..] == x;
  }

  lemma CollapseConsAppend(c: char, x: string, t: string)
    requires c != '\n'
    requires CollapseNewlineRuns(x + t) == CollapseNewlineRuns(x) + CollapseNewlineRuns(t)
    ensures CollapseNewlineRuns([c] + x + t) == [c] + (CollapseNewlineRuns(x) + CollapseNewlineRuns(t))
  {
    assert [c] + x + t == [c] + (x + t);
    CollapseCons(c, x + t);
  }

  lemma CollapseAppendChar(c: char, x: string, t: string)
    requires c != '\n'
    requires CollapseNewlineRuns(x + t) == CollapseNewlineRuns(x) + CollapseNewlineRuns(t)
    ensures CollapseNewlineRuns([c] + x + t) == CollapseNewlineRuns([c] + x) + CollapseNewlineRuns(t)
  {
    CollapseConsAppend(c, x, t);
    CollapseCons(c, x);
    AppendAssoc([c], CollapseNewlineRuns(x), CollapseNewlineRuns(t));
  }

  lemma CollapseRunAppend(a: string, t: string, k: nat)
    requires a != [] && a[0] == '\n' && k == NewlineRunEnd(a, 0) && k < |a|
    ensures CollapseNewlineRuns(a + t) == (if k >= 3 then "\n\n" else a[..k]) + CollapseNewlineRuns(a[k..] + t)
  {
    var s := a + t;
    NewlineRunEndIs(s, 0, k);
    assert s[..k] == a[..k];
    assert s[k..] == a[k..] + t;
  }

  lemma CollapseAppendRun(a: string, t: string, k: nat)
    requires a != [] && a[0] == '\n' && k == NewlineRunEnd(a, 0) && k < |a|
    requires CollapseNewlineRuns(a[k..] + t) == CollapseNewlineRuns(a[k..]) + CollapseNewlineRuns(t)
    ensures CollapseNewlineRuns(a + t) == CollapseNewlineRuns(a) + CollapseNewlineRuns(t)
  {
    CollapseRunAppend(a, t, k);
    AppendAssoc(if k >= 3 then "\n\n" else a[..k], CollapseNewlineRuns(a[k..]), CollapseNewlineRuns(t));
  }

  /** A text that does not end in '\n' is collapsed on its own: no run reaches across its end. */
  lemma {:induction false} CollapseAppend(a: string, t: string)
    requires a == [] || a[|a| - 1] != '\n'
    ensures CollapseNewlineRuns(a + t) == CollapseNewlineRuns(a) + CollapseNewlineRuns(t)
    decreases |a|
  {
    if a == [] {
      assert a + t == t;
    } else if a[0] != '\n' {
      CollapseAppend(a[1..], t);
      CollapseAppendChar(a[0], a[1..], t);
      assert a == [a[0]] + a[1..];
    } else {
      assert a[|a| - 1] != '\n';
      var k := NewlineRunEnd(a, 0);
      CollapseAppend(a[k..], t);
      CollapseAppendRun(a, t, k);
    }
  }

  /** A maximal run of '\n' at the head of a text collapses to at most two. */
  lemma CollapseRunHead(run: string, b: string)
    requires forall j :: 0 <= j < |run| ==> run[j] == '\n'
    requires b == [] || b[0] != '\n'
    ensures CollapseNewlineRuns(run + b) == (if |run| >= 3 then "\n\n" else run) + CollapseNewlineRuns(b)
  {
    var x := run + b;
    var n := |run|;
    if n > 0 {
      NewlineRunEndIs(x, 0, n);
      assert x[..n] == run;
      assert x[n..] == b;
    } else {
      assert x == b;
    }
  }

  /**
   * A maximal run of '\n' inside a text: three or more become exactly "\n\n",
   * fewer are kept, and the text on each side is collapsed on its own.
   */
  lemma CollapseRun(a: string, run: string, b: string)
    requires forall j :: 0 <= j < |run| ==> run[j] == '\n'
    requires a == [] || a[|a| - 1] != '\n'
    requires b == [] || b[0] != '\n'
    ensures CollapseNewlineRuns(a + run + b) ==
              CollapseNewlineRuns(a) + (if |run| >= 3 then "\n\n" else run) + CollapseNewlineRuns(b)
  {
    var x := run + b;
    calc {
      CollapseNewlineRuns(a + run + b);
      { assert a + run + b == a + x; }
      CollapseNewlineRuns(a + x);
      { CollapseAppend(a, x); }
      CollapseNewlineRuns(a) + CollapseNewlineRuns(x);
      { CollapseRunHead(run, b); }
      CollapseNewlineRuns(a) + ((if |run| >= 3 then "\n\n" else run) + CollapseNewlineRuns(b));
      { AppendAssoc(CollapseNewlineRuns(a), if |run| >= 3 then "\n\n" else run, CollapseNewlineRuns(b)); }
      CollapseNewlineRuns(a) + (if |run| >= 3 then "\n\n" else run) + CollapseNewlineRuns(b);
    }
  }

  /** `_normalize_text`. */
  function Normalize(s: string): string
  {
    var unified := ReplaceChar(ReplaceCrLf(s), '\r', '\n');
    CollapseNewlineRuns(ReplaceChar(unified, NoBreakSpace, ' '))
  }

  // ---------------------------------------------------------------------
  // Collapsing newline runs

  /** The collapse starts with the same character unless the text starts with '\n'. */
  lemma CollapseHead(s: string)
    requires s != []
    ensures CollapseNewlineRuns(s) != []
    ensures CollapseNewlineRuns(s)[0] == s[0]
  {
  }

  /** Prepending one character that is not '\n' to a text without "\n\n\n" keeps it so. */
  lemma ConsNoTriple(c: char, x: string)
    requires c != '\n' && NoTripleNewline(x)
    ensures NoTripleNewline([c] + x)
  {
    forall i
      ensures !TripleNewlineAt([c] + x, i)
    {
      if i >= 1 {
        assert !TripleNewlineAt(x, i - 1);
      }
    }
  }

  /** Prepending at most two '\n' to a text without "\n\n\n" that does not start with '\n' keeps it so. */
  lemma NewlinesNoTriple(p: string, x: string)
    requires |p| <= 2 && forall j :: 0 <= j < |p| ==> p[j] == '\n'
    requires NoTripleNewline(x) && (x == [] || x[0] != '\n')
    ensures NoTripleNewline(p + x)
  {
    forall i
      ensures !TripleNewlineAt(p + x, i)
    {
      if i >= |p| {
        assert !TripleNewlineAt(x, i - |p|);
      } else if x != [] {
        assert (p + x)[|p|] == x[0];
      }
    }
  }

  /** No run of three '\n' survives the collapse. */
  lemma {:induction false} CollapseNoTriple(s: string)
    ensures NoTripleNewline(CollapseNewlineRuns(s))
    decreases |s|
  {
    if s == [] {
    } else if s[0] != '\n' {
      CollapseNoTriple(s[1..]);
      ConsNoTriple(s[0], CollapseNewlineRuns(s[1..]));
    } else {
      var k := NewlineRunEnd(s, 0);
      var rest := s[k..];
      CollapseNoTriple(rest);
      if rest != [] {
        CollapseHead(rest);
      }
      NewlinesNoTriple(if k >= 3 then "\n\n" else s[..k], CollapseNewlineRuns(rest));
    }
  }

  lemma NoTripleSuffix(s: string, k: nat)
    requires k <= |s| && NoTripleNewline(s)
    ensures NoTripleNewline(s[k..])
  {
    forall i
      ensures !TripleNewlineAt(s[k..], i)
    {
      assert !TripleNewlineAt(s, i + k);
    }
  }

  /** A text without "\n\n\n" is left as it is. */
  lemma {:induction false} CollapseIdentity(s: string)
    requires NoTripleNewline(s)
    ensures CollapseNewlineRuns(s) == s
    decreases |s|
  {
    if s == [] {
    } else if s[0] != '\n' {
      NoTripleSuffix(s, 1);
      CollapseIdentity(s[1..]);
    } else {
      var k := NewlineRunEnd(s, 0);
      assert k < 3 by {
        if k >= 3 {
          assert TripleNewlineAt(s, 0);
        }
      }
      NoTripleSuffix(s, k);
      CollapseIdentity(s[k..]);
      assert s == s[..k] + s[k..];
    }
  }

  lemma CollapseIdempotent(s: string)
    ensures CollapseNewlineRuns(CollapseNewlineRuns(s)) == CollapseNewlineRuns(s)
  {
    CollapseNoTriple(s);
    CollapseIdentity(CollapseNewlineRuns(s));
  }

  /** Only '\n' are removed: the visible text is unchanged. */
  lemma {:induction false} CollapseKeepsVisible(s: string)
    ensures Visible(CollapseNewlineRuns(s)) == Visible(s)
    decreases |s|
  {
    if s == [] {
    } else if s[0] != '\n' {
      CollapseKeepsVisible(s[1..]);
      CollapseVisibleChar(s);
    } else {
      var k := NewlineRunEnd(s, 0);
      CollapseKeepsVisible(s[k..]);
      CollapseVisibleRun(s, k);
    }
  }

  /** The step of `CollapseKeepsVisible` over a character other than '\n'. */
  lemma CollapseVisibleChar(s: string)
    requires s != [] && s[0] != '\n'
    requires Visible(CollapseNewlineRuns(s[1..])) == Visible(s[1..])
    ensures Visible(CollapseNewlineRuns(s)) == Visible(s)
  {
    var rest := CollapseNewlineRuns(s[1..]);
    assert CollapseNewlineRuns(s) == [s[0]] + rest;
    VisibleConcat([s[0]], rest);
    VisibleConcat([s[0]], s[1..]);
    assert s == [s[0]] + s[1..];
  }

  /** The step of `CollapseKeepsVisible` over a run of '\n' ending at `k`. */
  lemma CollapseVisibleRun(s: string, k: nat)
    requires s != [] && s[0] == '\n' && k == NewlineRunEnd(s, 0)
    requires Visible(CollapseNewlineRuns(s[k..])) == Visible(s[k..])
    ensures Visible(CollapseNewlineRuns(s)) == Visible(s)
  {
    var p := if k >= 3 then "\n\n" else s[..k];
    var rest := CollapseNewlineRuns(s[k..]);
    calc {
      Visible(CollapseNewlineRuns(s));
      Visible(p + rest);
      { VisibleConcat(p, rest); }
      Visible(p) + Visible(rest);
      { NewlinesInvisible(s, k, p); }
      Visible(s[k..]);
      { NewlinesInvisible(s, k, s[..k]); }
      Visible(s[..k]) + Visible(s[k..]);
      { VisibleConcat(s[..k], s[k..]); assert s == s[..k] + s[k..]; }
      Visible(s);
    }
  }

  /** A run of '\n' shows nothing, nor does any shorter run of them. */
  lemma NewlinesInvisible(s: string, k: nat, p: string)
    requires k <= |s| && (forall j :: 0 <= j < k ==> s[j] == '\n')
    requires p == "\n\n" || p == s[..k]
    ensures Visible(p) == []
  {
    forall j | 0 <= j < |p|
      ensures IsSpace(p[j])
    {
      assert p[j] == '\n';
    }
    VisibleOfSpaces(p);
  }

  /** A character other than '\n' that the text lacks is not introduced. */
  lemma {:induction false} CollapseAddsNothing(s: string, c: char)
    requires c != '\n' && c !in s
    ensures c !in CollapseNewlineRuns(s)
    decreases |s|
  {
    if s == [] {
    } else if s[0] != '\n' {
      CollapseAddsNothing(s[1..], c);
    } else {
      var k := NewlineRunEnd(s, 0);
      CollapseAddsNothing(s[k..], c);
    }
  }

  // ---------------------------------------------------------------------
  // Line endings

  lemma {:induction false} ReplaceCrLfKeepsVisible(s: string)
    ensures Visible(ReplaceCrLf(s)) == Visible(s)
    decreases |s|
  {
    if s == [] {
    } else if |s| >= 2 && s[0] == '\r' && s[1] == '\n' {
      ReplaceCrLfKeepsVisible(s[2..]);
      VisibleConcat("\n", ReplaceCrLf(s[2..]));
      VisibleConcat(s[..2], s[2..]);
      VisibleOfSpaces(s[..2]);
      assert s == s[..2] + s[2..];
    } else {
      ReplaceCrLfKeepsVisible(s[1..]);
      VisibleConcat([s[0]], ReplaceCrLf(s[1..]));
    }
  }

  /** A text without '\r' has nothing to replace. */
  lemma {:induction false} ReplaceCrLfIdentity(s: string)
    requires '\r' !in s
    ensures ReplaceCrLf(s) == s
    decreases |s|
  {
    if s != [] {
      ReplaceCrLfIdentity(s[1..]);
      assert s == [s[0]] + s[1..];
    }
  }

  /** A text that does not end in '\r' is rewritten on its own: no pair reaches across its end. */
  lemma {:induction false} ReplaceCrLfAppend(a: string, b: string)
    requires a == [] || a[|a| - 1] != '\r'
    ensures ReplaceCrLf(a + b) == ReplaceCrLf(a) + ReplaceCrLf(b)
    decreases |a|
  {
    if a == [] {
      assert a + b == b;
    } else if |a| >= 2 && a[0] == '\r' && a[1] == '\n' {
      ReplaceCrLfAppend(a[2..], b);
      assert (a + b)[2..] == a[2..] + b;
      AppendAssoc("\n", ReplaceCrLf(a[2..]), ReplaceCrLf(b));
    } else {
      ReplaceCrLfAppend(a[1..], b);
      assert (a + b)[1..] == a[1..] + b;
      AppendAssoc([a[0]], ReplaceCrLf(a[1..]), ReplaceCrLf(b));
    }
  }

  /** A "\r\n" pair becomes a single '\n'. */
  lemma ReplaceCrLfPair(b: string)
    ensures ReplaceCrLf("\r\n" + b) == "\n" + ReplaceCrLf(b)
  {
    assert ("\r\n" + b)[2..] == b;
  }

  /** A '\r' not followed by '\n' is left for the second replace. */
  lemma ReplaceCrLfLoneCr(b: string)
    requires b == [] || b[0] != '\n'
    ensures ReplaceCrLf("\r" + b) == "\r" + ReplaceCrLf(b)
  {
    assert ("\r" + b)[1..] == b;
  }

  /** `.replace("\r\n", "\n").replace("\r", "\n")`: a lone '\r' becomes one '\n' as well. */
  lemma UnifyLoneCr(b: string)
    requires b == [] || b[0] != '\n'
    ensures ReplaceChar(ReplaceCrLf("\r" + b), '\r', '\n') == "\n" + ReplaceChar(ReplaceCrLf(b), '\r', '\n')
  {
    ReplaceCrLfLoneCr(b);
  }

  /** Swapping one whitespace character for another leaves the visible text unchanged. */
  lemma {:induction false} ReplaceSpaceKeepsVisible(s: string, a: char, b: char)
    requires IsSpace(a) && IsSpace(b)
    ensures Visible(ReplaceChar(s, a, b)) == Visible(s)
    decreases |s|
  {
    if s != [] {
      var r := ReplaceChar(s, a, b);
      assert r[1..] == ReplaceChar(s[1..], a, b);
      ReplaceSpaceKeepsVisible(s[1..], a, b);
    }
  }

  // ---------------------------------------------------------------------
  // The normalisation as a whole

  /** The result holds no '\r', no no-break space and no run of three '\n'. */
  lemma NormalizeSpec(s: string)
    ensures '\r' !in Normalize(s)
    ensures NoBreakSpace !in Normalize(s)
    ensures !Contains(Normalize(s), "\n\n\n")
  {
    var unified := ReplaceChar(ReplaceCrLf(s), '\r', '\n');
    var spaced := ReplaceChar(unified, NoBreakSpace, ' ');
    assert '\r' !in spaced;
    assert NoBreakSpace !in spaced;
    CollapseAddsNothing(spaced, '\r');
    CollapseAddsNothing(spaced, NoBreakSpace);
    CollapseNoTriple(spaced);
    NoTripleNewlineIff(Normalize(s));
  }

  /** Normalisation changes only whitespace. */
  lemma NormalizeKeepsVisible(s: string)
    ensures Visible(Normalize(s)) == Visible(s)
  {
    var crlf := ReplaceCrLf(s);
    var unified := ReplaceChar(crlf, '\r', '\n');
    var spaced := ReplaceChar(unified, NoBreakSpace, ' ');
    ReplaceCrLfKeepsVisible(s);
    ReplaceSpaceKeepsVisible(crlf, '\r', '\n');
    ReplaceSpaceKeepsVisible(unified, NoBreakSpace, ' ');
    CollapseKeepsVisible(spaced);
  }

  /** A text that is already normal is left as it is. */
  lemma NormalizeFixpoint(s: string)
    requires '\r' !in s && NoBreakSpace !in s && !Contains(s, "\n\n\n")
    ensures Normalize(s) == s
  {
    ReplaceCrLfIdentity(s);
    assert ReplaceChar(s, '\r', '\n') == s;
    assert ReplaceChar(s, NoBreakSpace, ' ') == s;
    NoTripleNewlineIff(s);
    CollapseIdentity(s);
  }

  lemma NormalizeIdempotent(s: string)
    ensures Normalize(Normalize(s)) == Normalize(s)
  {
    NormalizeSpec(s);
    NormalizeFixpoint(Normalize(s));
  }
}
