/**
 * What `extract_menus` promises: one entry per weekday header line, in
 * document order; each date is the week's Monday plus the day's offset; each
 * description is the tidied rest of its block without the leading day name.
 */
module CverSpec {
  import opened Wrappers
  import opened Chars
  import opened Str
  import opened Calendar
  import opened Menu
  import opened CverNormalize
  import opened CverNoise
  import opened CverWeek
  import opened CverTidy
  import opened Cver

  // ---------------------------------------------------------------------
  // Day names

  /** A character that matches a day name's letter when case is ignored. */
  lemma MatchChar(s: string, k: nat, w: string, i: nat)
    requires MatchesIgnoreCase(s, k, w) && i < |w|
    ensures Lower(s[k + i]) == w[i]
  {
  }

  /** Every letter of a day name is a lower-case ASCII letter. */
  lemma DayNameLetters(d: nat, i: nat)
    requires d < |DayNames| && i < |DayNames[d]|
    ensures 'a' <= DayNames[d][i] <= 'z'
  {
  }

  /** No two day names agree on their first two letters, so none is a prefix of another. */
  lemma DayNamesDiffer(a: nat, b: nat) returns (i: nat)
    requires a < |DayNames| && b < |DayNames| && a != b
    ensures i < |DayNames[a]| && i < |DayNames[b]| && DayNames[a][i] != DayNames[b][i]
  {
    if (a == 1 && b == 2) || (a == 2 && b == 1) {
      i := 1;
    } else {
      i := 0;
    }
  }

  /** A day name found at `k` is the one the alternation picks. */
  lemma DayAtUnique(s: string, k: nat, d: nat)
    requires d < |DayNames| && MatchesIgnoreCase(s, k, DayNames[d])
    ensures DayAt(s, k) == Some(d)
  {
    var e := DayAt(s, k).value;
    if e != d {
      var i := DayNamesDiffer(d, e);
    }
  }

  /** The text of a matched day name holds no whitespace. */
  lemma MatchedNameVisible(s: string, k: nat, d: nat)
    requires d < |DayNames| && MatchesIgnoreCase(s, k, DayNames[d])
    ensures forall j :: k <= j < k + |DayNames[d]| ==> !IsSpace(s[j])
  {
    forall j | k <= j < k + |DayNames[d]|
      ensures !IsSpace(s[j])
    {
      MatchChar(s, k, DayNames[d], j - k);
      DayNameLetters(d, j - k);
    }
  }

  // ---------------------------------------------------------------------
  // Day header lines

  /** The start of the line holding position `q`. */
  function LineStart(s: string, q: nat): (p: nat)
    requires q <= |s|
    ensures p <= q && IsLineStart(s, p)
    ensures forall j :: p <= j < q ==> s[j] != '\n'
    decreases q
  {
    if q == 0 || s[q - 1] == '\n' then q else LineStart(s, q - 1)
  }

  /**
   * A day header line: its first non-whitespace character, at `q`, starts a
   * day name (case ignored) that is not followed by a word character.
   */
  ghost predicate IsDayLine(s: string, q: nat) {
    && q < |s|
    && SkipSpaces(s, LineStart(s, q)) == q
    && exists d :: 0 <= d < |DayNames| && MatchesIgnoreCase(s, q, DayNames[d]) && WordEnds(s, q + |DayNames[d]|)
  }

  /** The line of a day header holds no '\n' from the day name to the match end, which is a '\n' or the end of the text. */
  lemma HeaderLine(s: string, p: nat)
    requires p <= |s| && HeaderAt(s, p).Some?
    ensures var h := HeaderAt(s, p).value;
            (forall j :: h.name <= j < h.end ==> s[j] != '\n') &&
            (h.end == |s| || s[h.end] == '\n') &&
            h.name < |s| && !IsSpace(s[h.name])
  {
    var h := HeaderAt(s, p).value;
    var e := h.name + |DayNames[h.day]|;
    assert h.end == LineEnd(s, e);
    MatchedNameVisible(s, h.name, h.day);
    forall j | h.name <= j < e
      ensures s[j] != '\n'
    {
      assert !IsSpace(s[j]);
    }
  }

  /** Every header match sits on a day header line. */
  lemma HeaderAtDayLine(s: string, p: nat)
    requires p <= |s| && HeaderAt(s, p).Some?
    ensures IsDayLine(s, HeaderAt(s, p).value.name)
  {
    var h := HeaderAt(s, p).value;
    var q := h.name;
    HeaderLine(s, p);
    assert SkipSpaces(s, LineStart(s, q)) == q by {
      var ls := LineStart(s, q);
      assert p <= ls;
      SkipSpacesIs(s, ls, q);
    }
    assert MatchesIgnoreCase(s, q, DayNames[h.day]) && WordEnds(s, q + |DayNames[h.day]|);
  }

  /** Every day header line is matched from the start of its line. */
  lemma DayLineHeader(s: string, q: nat)
    requires IsDayLine(s, q)
    ensures HeaderAt(s, LineStart(s, q)).Some?
    ensures HeaderAt(s, LineStart(s, q)).value.name == q
  {
    var d :| 0 <= d < |DayNames| && MatchesIgnoreCase(s, q, DayNames[d]) && WordEnds(s, q + |DayNames[d]|);
    var p := LineStart(s, q);
    assert DayAt(s, q) == Some(d) by {
      DayAtUnique(s, q, d);
    }
    HeaderAtIs(s, p, q, d);
  }

  /** The match at a line start whose first non-whitespace character begins a day name followed by a word boundary. */
  lemma HeaderAtIs(s: string, p: nat, q: nat, d: nat)
    requires p <= q < |s| && IsLineStart(s, p) && SkipSpaces(s, p) == q
    requires d < |DayNames| && DayAt(s, q) == Some(d) && WordEnds(s, q + |DayNames[d]|)
    ensures HeaderAt(s, p) == Some(Header(p, q, d, LineEnd(s, q + |DayNames[d]|)))
  {
  }

  /** Each match of the scan is a day header line. */
  lemma ScanSound(s: string, from: nat)
    requires from <= |s|
    ensures forall i :: 0 <= i < |Scan(s, from)| ==> IsDayLine(s, Scan(s, from)[i].name)
  {
    var r := Scan(s, from);
    forall i | 0 <= i < |r|
      ensures IsDayLine(s, r[i].name)
    {
      HeaderAtDayLine(s, r[i].start);
    }
  }

  /**
   * Each day header line at or after `from` is matched by the scan, provided
   * the scan does not start in the middle of a line.
   */
  lemma ScanComplete(s: string, from: nat, q: nat)
    requires from <= |s| && (from == 0 || from == |s| || s[from] == '\n')
    requires from <= q && IsDayLine(s, q)
    ensures exists i :: 0 <= i < |Scan(s, from)| && Scan(s, from)[i].name == q
  {
    var p := LineStart(s, q);
    assert HeaderAt(s, p).Some? && HeaderAt(s, p).value.name == q by {
      DayLineHeader(s, q);
    }
    assert s[q] != '\n' by {
      HeaderLine(s, p);
    }
    LineStartAfter(s, from, q);
    ScanFinds(s, from, p, q);
  }

  /** A line that does not start before `from` when `from` is itself a line boundary. */
  lemma LineStartAfter(s: string, from: nat, q: nat)
    requires from <= q < |s| && s[q] != '\n'
    requires from == 0 || from == |s| || s[from] == '\n'
    ensures from <= LineStart(s, q)
  {
  }

  /** A match that starts at or before another line's match but names a different day ends before that line. */
  lemma MatchEndsBefore(s: string, h: Header, p: nat)
    requires h.start <= p <= |s| && HeaderAt(s, h.start) == Some(h)
    requires HeaderAt(s, p).Some? && HeaderAt(s, p).value.name != h.name
    ensures h.end <= p
  {
    HeaderLine(s, h.start);
    if p <= h.name {
      SkipSpacesIs(s, p, h.name);
    }
  }

  lemma ScanCons(s: string, from: nat)
    requires from <= |s| && FindHeader(s, from).Some?
    ensures Scan(s, from) == [FindHeader(s, from).value] + Scan(s, FindHeader(s, from).value.end)
  {
  }

  /**
   * When a header match starts at `p`, the search from `from` finds a first
   * match; that match ends past `from` at a line end, and before `p` unless it
   * is the match of that same line.
   */
  lemma FirstMatch(s: string, from: nat, p: nat, q: nat)
    requires from <= p <= |s| && HeaderAt(s, p).Some? && HeaderAt(s, p).value.name == q
    ensures FindHeader(s, from).Some?
    ensures var h := FindHeader(s, from).value;
            && from < h.end <= |s| && (h.end == |s| || s[h.end] == '\n')
            && (h.name != q ==> h.end <= p)
  {
    var h := FindHeader(s, from).value;
    assert from < h.end <= |s| && (h.end == |s| || s[h.end] == '\n') by {
      HeaderLine(s, h.start);
    }
    if h.name != q {
      MatchEndsBefore(s, h, p);
    }
  }

  /** The scan from `from` matches every header line that starts at or after `from`. */
  lemma {:induction false} ScanFinds(s: string, from: nat, p: nat, q: nat)
    requires from <= p <= |s| && (from == 0 || from == |s| || s[from] == '\n')
    requires HeaderAt(s, p).Some? && HeaderAt(s, p).value.name == q
    ensures exists i :: 0 <= i < |Scan(s, from)| && Scan(s, from)[i].name == q
    decreases |s| - from
  {
    FirstMatch(s, from, p, q);
    var h := FindHeader(s, from).value;
    ScanCons(s, from);
    var r := Scan(s, from);
    if h.name != q {
      ScanFinds(s, h.end, p, q);
      var rest := Scan(s, h.end);
      var i :| 0 <= i < |rest| && rest[i].name == q;
      assert r[i + 1] == rest[i];
    } else {
      assert r[0].name == q;
    }
  }

  // ---------------------------------------------------------------------
  // Dates

  lemma DayNamesDistinct(a: nat, b: nat)
    requires a < |DayNames| && b < |DayNames| && a != b
    ensures DayNames[a] != DayNames[b]
  {
    var i := DayNamesDiffer(a, b);
  }

  /** The dates from `DayNames[i]` on exist exactly when Friday is still a valid date; each day gets Monday plus its offset. */
  lemma {:induction false} DatesFromSpec(n: int, i: nat)
    requires i <= |DayNames| && 1 <= n <= MaxOrdinal
    ensures DatesFrom(n, i).Success? <==> i == |DayNames| || n + |DayNames| - 1 <= MaxOrdinal
    ensures DatesFrom(n, i).Failure? ==> DatesFrom(n, i).error == DateOverflow
    ensures DatesFrom(n, i).Success? ==>
              forall d :: i <= d < |DayNames| ==>
                DayNames[d] in DatesFrom(n, i).value && DatesFrom(n, i).value[DayNames[d]] == n + d
    decreases |DayNames| - i
  {
    if i < |DayNames| {
      DatesFromSpec(n, i + 1);
      if DatesFrom(n, i).Success? {
        var m := DatesFrom(n, i + 1).value;
        assert DatesFrom(n, i).value == m[DayNames[i] := n + i];
        forall d | i < d < |DayNames|
          ensures DayNames[d] != DayNames[i]
        {
          DayNamesDistinct(d, i);
        }
      }
    }
  }

  /**
   * `day_to_date` is empty without a start date; with one, building it fails
   * exactly when Friday would pass 9999-12-31, and otherwise every day maps
   * to the start plus its offset.
   */
  lemma DayToDateSpec(start: Option<int>)
    requires start.Some? ==> 1 <= start.value <= MaxOrdinal
    ensures DayToDate(start).Failure? <==> start.Some? && start.value + 4 > MaxOrdinal
    ensures DayToDate(start).Failure? ==> DayToDate(start).error == DateOverflow
    ensures DayToDate(start).Success? ==>
              forall d :: 0 <= d < |DayNames| ==>
                Get(DayToDate(start).value, DayNames[d]) == (if start.Some? then Some(start.value + d) else None)
  {
    if start.Some? {
      DatesFromSpec(start.value, 0);
    }
  }

  /** An entry built with the dates of a week is dated its start plus its day's offset. */
  lemma EntryDateOfWeek(s: string, hs: seq<Header>, start: Option<int>, dates: map<string, int>, i: nat)
    requires InOrder(s, hs) && i < |hs|
    requires forall d :: 0 <= d < |DayNames| ==> Get(dates, DayNames[d]) == (if start.Some? then Some(start.value + d) else None)
    ensures Entry(s, hs, dates, i).date == if start.Some? then Some(start.value + hs[i].day) else None
  {
    EntryDate(s, hs, dates, i);
  }

  /** Capitalising a lower-case ASCII word upper-cases its first letter and keeps the rest. */
  lemma CapitalizeLowerWord(w: string)
    requires w != [] && forall i :: 0 <= i < |w| ==> 'a' <= w[i] <= 'z'
    ensures Capitalize(w) == [UpperAscii(w[0])] + w[1..]
  {
    var t := LowerStr(w[1..]);
    forall i | 0 <= i < |t|
      ensures t[i] == w[1..][i]
    {
      assert 'a' <= w[1..][i] <= 'z';
    }
  }

  lemma CapitalizeDayName(d: nat)
    requires d < |DayNames|
    ensures Capitalize(DayNames[d]) == DisplayNames[d]
  {
    var w := DayNames[d];
    forall i | 0 <= i < |w|
      ensures 'a' <= w[i] <= 'z'
    {
      DayNameLetters(d, i);
    }
    CapitalizeLowerWord(w);
    DisplayNameCapital(d);
  }

  /** Each display name is its day name with the first letter upper-cased. */
  lemma DisplayNameCapital(d: nat)
    requires d < |DayNames|
    ensures DisplayNames[d] == [UpperAscii(DayNames[d][0])] + DayNames[d][1..]
  {
  }

  /** The matched day name, lower-cased, is the listed day name. */
  lemma DayTextLower(s: string, h: Header)
    requires IsHeader(s, h)
    ensures LowerStr(DayText(s, h)) == DayNames[h.day]
  {
    MatchesIgnoreCaseIff(s, h.name, DayNames[h.day]);
  }

  /** An entry's day is the matched name, lower-cased then capitalised: the display name of the header's day. */
  lemma EntryDow(s: string, hs: seq<Header>, dates: map<string, int>, i: nat)
    requires InOrder(s, hs) && i < |hs|
    ensures Entry(s, hs, dates, i).dow == DisplayNames[hs[i].day]
  {
    assert IsHeader(s, hs[i]);
    DayTextLower(s, hs[i]);
    CapitalizeDayName(hs[i].day);
  }

  /** An entry's date is what the dates map holds for the header's day, looked up by its lower-case name. */
  lemma EntryDate(s: string, hs: seq<Header>, dates: map<string, int>, i: nat)
    requires InOrder(s, hs) && i < |hs|
    ensures Entry(s, hs, dates, i).date == Get(dates, DayNames[hs[i].day])
  {
    assert IsHeader(s, hs[i]);
    DayTextLower(s, hs[i]);
  }

  /** A description is stripped and holds no "\n\n\n": at most one blank line separates its lines. */
  lemma DescribeTidy(s: string, hs: seq<Header>, i: nat)
    requires Ordered(s, hs) && i < |hs|
    ensures Strip(Describe(s, hs, i)) == Describe(s, hs, i)
    ensures !Contains(Describe(s, hs, i), "\n\n\n")
  {
    TidySpec(StripLeadingDay(Block(s, hs, i)));
  }

  /** An entry's description is its block's description. */
  lemma EntryDescription(s: string, hs: seq<Header>, dates: map<string, int>, i: nat)
    requires InOrder(s, hs) && i < |hs|
    ensures Entry(s, hs, dates, i).description == Describe(s, hs, i)
  {
  }

  // ---------------------------------------------------------------------
  // Blocks

  function Blocks(s: string, hs: seq<Header>): (r: seq<string>)
    requires Ordered(s, hs)
    ensures |r| == |hs|
    ensures forall i :: 0 <= i < |hs| ==> r[i] == Block(s, hs, i)
  {
    seq(|hs|, i requires 0 <= i < |hs| => Block(s, hs, i))
  }

  /** The blocks from the `i`-th on, put back together, are the text from that match on. */
  lemma {:induction false} BlocksFrom(s: string, hs: seq<Header>, i: nat)
    requires Ordered(s, hs) && i < |hs|
    ensures Join("", Blocks(s, hs)[i..]) == s[hs[i].start..]
    decreases |hs| - i
  {
    var bs := Blocks(s, hs);
    if i + 1 < |hs| {
      BlocksFrom(s, hs, i + 1);
      assert bs[i..][1..] == bs[i + 1..];
      assert s[hs[i].start..] == s[hs[i].start..hs[i + 1].start] + s[hs[i + 1].start..];
    } else {
      assert bs[i..] == [Block(s, hs, i)];
    }
  }

  /** The blocks tile the text from the first match to the end: only what precedes the first day header is dropped. */
  lemma BlocksTile(s: string, hs: seq<Header>)
    requires Ordered(s, hs) && hs != []
    ensures Join("", Blocks(s, hs)) == s[hs[0].start..]
  {
    BlocksFrom(s, hs, 0);
    assert Blocks(s, hs)[0..] == Blocks(s, hs);
  }

  /** Where the leading day is cut when the day name `DayNames[d]` starts the first non-whitespace at `k`. */
  lemma StripLeadingDayAt(b: string, k: nat, d: nat)
    requires d < |DayNames| && SkipSpaces(b, 0) == k && MatchesIgnoreCase(b, k, DayNames[d])
    ensures DayAt(b, k) == Some(d)
    ensures StripLeadingDay(b) == b[SkipSpaces(b, k + |DayNames[d]|)..]
  {
    DayAtUnique(b, k, d);
  }

  /** A slice that starts before a word with only whitespace in between starts with that word after its own whitespace. */
  lemma SliceStartsWithWord(s: string, lo: nat, hi: nat, q: nat, w: string)
    requires w != [] && 'a' <= w[0] <= 'z' && lo <= q && q + |w| <= hi <= |s|
    requires SkipSpaces(s, lo) == q && MatchesIgnoreCase(s, q, w)
    ensures SkipSpaces(s[lo..hi], 0) == q - lo && MatchesIgnoreCase(s[lo..hi], q - lo, w)
  {
    assert Lower(s[q]) == w[0];
    SkipSpacesIs(s[lo..hi], 0, q - lo);
    MatchesIgnoreCaseSlice(s, lo, hi, q, w);
  }

  /**
   * A block starts with its header's day name after nothing but whitespace;
   * with `StripLeadingDayAt`, cutting the leading day removes exactly that
   * name and the whitespace around it.
   */
  lemma BlockStartsWithDay(s: string, hs: seq<Header>, i: nat)
    requires InOrder(s, hs) && i < |hs|
    ensures var b := Block(s, hs, i);
            var k := hs[i].name - hs[i].start;
            SkipSpaces(b, 0) == k && MatchesIgnoreCase(b, k, DayNames[hs[i].day])
  {
    var h := hs[i];
    assert IsHeader(s, h);
    DayNameLetters(h.day, 0);
    SliceStartsWithWord(s, h.start, BlockEnd(s, hs, i), h.name, DayNames[h.day]);
  }

  // ---------------------------------------------------------------------
  // extract_menus

  /** The text the day headers are searched in: normalised, without noise lines. */
  function Cleaned(text: string): string {
    RemoveNoiseLines(Normalize(text))
  }

  /** The week's start date read from the normalised text, if any. */
  function WeekStart(text: string): Option<int> {
    ParseWeekRange(Normalize(text)).0
  }

  /**
   * `extract_menus` fails only when the week starts so late that Friday is
   * past 9999-12-31, and then with an overflow; otherwise it returns one
   * entry per header match.
   */
  lemma ExtractMenusOutcome(text: string)
    ensures ExtractMenus(text).Failure? <==> WeekStart(text).Some? && WeekStart(text).value + 4 > MaxOrdinal
    ensures ExtractMenus(text).Failure? ==> ExtractMenus(text).error == DateOverflow
    ensures ExtractMenus(text).Success? ==> |ExtractMenus(text).value| == |Scan(Cleaned(text), 0)|
  {
    DayToDateSpec(WeekStart(text));
  }

  /** The `i`-th entry is built from the `i`-th header match. */
  lemma ExtractMenusEntryIs(text: string, i: nat)
    requires ExtractMenus(text).Success? && i < |ExtractMenus(text).value|
    ensures InOrder(Cleaned(text), Scan(Cleaned(text), 0)) && i < |Scan(Cleaned(text), 0)|
    ensures DayToDate(WeekStart(text)).Success?
    ensures ExtractMenus(text).value[i] ==
              Entry(Cleaned(text), Scan(Cleaned(text), 0), DayToDate(WeekStart(text)).value, i)
  {
    ScanInOrder(Cleaned(text), 0);
  }

  /** The `i`-th entry names the day of the `i`-th header match. */
  lemma ExtractMenusDow(text: string, i: nat)
    requires ExtractMenus(text).Success? && i < |ExtractMenus(text).value|
    ensures i < |Scan(Cleaned(text), 0)|
    ensures ExtractMenus(text).value[i].dow == DisplayNames[Scan(Cleaned(text), 0)[i].day]
  {
    ExtractMenusEntryIs(text, i);
    EntryDow(Cleaned(text), Scan(Cleaned(text), 0), DayToDate(WeekStart(text)).value, i);
  }

  /**
   * The `i`-th entry's date is what `day_to_date` holds for its day; by
   * `DayToDateSpec` that is the week's start plus the day's offset, and
   * nothing without a start.
   */
  lemma ExtractMenusDate(text: string, i: nat)
    requires ExtractMenus(text).Success? && i < |ExtractMenus(text).value|
    ensures i < |Scan(Cleaned(text), 0)| && DayToDate(WeekStart(text)).Success?
    ensures ExtractMenus(text).value[i].date ==
              Get(DayToDate(WeekStart(text)).value, DayNames[Scan(Cleaned(text), 0)[i].day])
  {
    ExtractMenusEntryIs(text, i);
    EntryDate(Cleaned(text), Scan(Cleaned(text), 0), DayToDate(WeekStart(text)).value, i);
  }

  /** The `i`-th entry's description is the `i`-th block's: stripped, with at most one blank line in a row. */
  lemma ExtractMenusDescription(text: string, i: nat)
    requires ExtractMenus(text).Success? && i < |ExtractMenus(text).value|
    ensures var t := Cleaned(text);
            var hs := Scan(t, 0);
            var e := ExtractMenus(text).value[i];
            && i < |hs|
            && e.description == Describe(t, hs, i)
            && Strip(e.description) == e.description
            && !Contains(e.description, "\n\n\n")
  {
    var t := Cleaned(text);
    var hs := Scan(t, 0);
    ExtractMenusEntryIs(text, i);
    EntryDescription(t, hs, DayToDate(WeekStart(text)).value, i);
    DescribeTidy(t, hs, i);
  }

  /** The result is empty exactly when the cleaned text has no day header line. */
  lemma ExtractMenusEmpty(text: string)
    requires ExtractMenus(text).Success?
    ensures ExtractMenus(text).value == [] <==> forall q :: !IsDayLine(Cleaned(text), q)
  {
    var t := Cleaned(text);
    ExtractMenusOutcome(text);
    if ExtractMenus(text).value != [] {
      ScanSound(t, 0);
      assert IsDayLine(t, Scan(t, 0)[0].name);
    } else {
      forall q | IsDayLine(t, q)
        ensures false
      {
        ScanComplete(t, 0, q);
      }
    }
  }

  /** Every day header line of the cleaned text gets an entry, and every entry comes from one. */
  lemma ExtractMenusCovers(text: string, q: nat)
    requires ExtractMenus(text).Success?
    ensures IsDayLine(Cleaned(text), q) <==>
              exists i :: 0 <= i < |ExtractMenus(text).value| && Scan(Cleaned(text), 0)[i].name == q
  {
    var t := Cleaned(text);
    ExtractMenusOutcome(text);
    ScanSound(t, 0);
    if IsDayLine(t, q) {
      ScanComplete(t, 0, q);
    }
  }
}
