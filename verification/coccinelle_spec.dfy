/**
 * What `extract_text` of the La Coccinelle Verte parser promises: the date
 * pattern is found whenever the text holds a match, and the one found is
 * leftmost; each description is the stripped text from the end of the day's
 * first name up to the next occurrence of that name or of the following day's
 * name; and the run ends in the first exception in program order.
 */
module CoccinelleSpec {
  import opened Wrappers
  import opened Chars
  import opened Str
  import opened Calendar
  import opened Menu
  import opened Coccinelle

  // ---------------------------------------------------------------------
  // The search finds a match whenever there is one

  /** The year search reaches any four digits later on the same line, and stops at or before them. */
  lemma {:induction false} MatchYearComplete(s: string, i: nat, y: nat)
    requires InLine(s, i, y) && FourDigitsAt(s, y)
    ensures MatchYear(s, i).Some? && MatchYear(s, i).value <= y
    decreases y - i
  {
    if i < y && !FourDigitsAt(s, i) {
      MatchYearComplete(s, i + 1, y);
    }
  }

  /** Backtracking through the word's lengths reaches any length after which a year follows. */
  lemma {:induction false} TryMonthComplete(s: string, i: nat, e: nat, e0: nat)
    requires Word(s, i, e) && i < e0 <= e && MatchYear(s, e0).Some?
    ensures TryMonth(s, i, e).Some? && e0 <= TryMonth(s, i, e).value.monthEnd
    decreases e - e0
  {
    if e0 < e && MatchYear(s, e).None? {
      TryMonthComplete(s, i, e - 1, e0);
    }
  }

  /** The month search finds a month and year whenever they follow on the line, starting no later. */
  lemma {:induction false} MatchMonthComplete(s: string, i: nat, t: Tail)
    requires TailAt(s, i, t)
    ensures MatchMonth(s, i).Some? && MatchMonth(s, i).value.month <= t.month
    decreases t.month - i
  {
    if i < t.month {
      if !(IsWordChar(s[i]) && TryMonth(s, i, WordEnd(s, i)).Some?) {
        MatchMonthComplete(s, i + 1, t);
      }
    } else {
      var e := WordEnd(s, i);
      assert t.monthEnd <= e;
      MatchYearComplete(s, t.monthEnd, t.year);
      TryMonthComplete(s, i, e, t.monthEnd);
    }
  }

  /** The second day group at `i` succeeds whenever some one- or two-digit group there is followed by a tail. */
  lemma EndDayAtComplete(s: string, i: nat, m: Middle)
    requires m.endDay == i && MiddleAt(s, i, m)
    ensures i < |s| && IsDigit(s[i])
    ensures EndDayAt(s, i).Some?
  {
    assert s[i..m.endDayEnd][0] == s[i];
    if m.endDayEnd == i + 2 {
      assert s[i..i + 2][1] == s[i + 1];
      MatchMonthComplete(s, i + 2, m.tail);
    } else {
      MatchMonthComplete(s, i + 1, m.tail);
    }
  }

  /** The second day search succeeds whenever the rest of the pattern matches, at a group no later. */
  lemma {:induction false} MatchEndDayComplete(s: string, i: nat, m: Middle)
    requires MiddleAt(s, i, m)
    ensures MatchEndDay(s, i).Some? && MatchEndDay(s, i).value.endDay <= m.endDay
    decreases m.endDay - i
  {
    if i < m.endDay {
      if !(IsDigit(s[i]) && EndDayAt(s, i).Some?) {
        MatchEndDayComplete(s, i + 1, m);
      }
    } else {
      EndDayAtComplete(s, i, m);
    }
  }

  /** The first day group at `i` succeeds whenever some match begun at `start` has its first group there. */
  lemma StartDayAtComplete(s: string, start: nat, i: nat, d: DateMatch)
    requires d.start == start && d.day == i && MatchAt(s, d)
    ensures i < |s| && IsDigit(s[i])
    ensures StartDayAt(s, start, i).Some?
  {
    assert s[i..d.dayEnd][0] == s[i];
    if d.dayEnd == i + 2 {
      assert s[i..i + 2][1] == s[i + 1];
      MatchEndDayComplete(s, i + 2, d.middle);
    } else {
      MatchEndDayComplete(s, i + 1, d.middle);
    }
  }

  /** From a fixed start, the match found has its first group no later than any other match's. */
  lemma {:induction false} MatchStartDayComplete(s: string, i: nat, d: DateMatch)
    requires MatchAt(s, d) && d.start <= i <= d.day
    ensures MatchStartDay(s, d.start, i).Some? && MatchStartDay(s, d.start, i).value.day <= d.day
    decreases d.day - i
  {
    if i < d.day {
      if !(IsDigit(s[i]) && StartDayAt(s, d.start, i).Some?) {
        MatchStartDayComplete(s, i + 1, d);
      }
    } else {
      StartDayAtComplete(s, d.start, i, d);
    }
  }

  /** The search from `start` finds a match whenever one begins at or after `start`, and begins no later. */
  lemma {:induction false} SearchComplete(s: string, start: nat, d: DateMatch)
    requires MatchAt(s, d) && start <= d.start
    ensures Search(s, start).Some? && Search(s, start).value.start <= d.start
    decreases d.start - start
  {
    if start < d.start && MatchStartDay(s, start, start).None? {
      SearchComplete(s, start + 1, d);
    }
    if start == d.start {
      MatchStartDayComplete(s, start, d);
    }
  }

  /** The search returns what the match attempt at its start position found. */
  lemma {:induction false} SearchIsAttempt(s: string, start: nat)
    requires start <= |s| && Search(s, start).Some?
    ensures var r := Search(s, start).value;
            r.start <= |s| && MatchStartDay(s, r.start, r.start) == Some(r)
    decreases |s| - start
  {
    if MatchStartDay(s, start, start).None? {
      SearchIsAttempt(s, start + 1);
    }
  }

  /**
   * `re.search` finds the pattern exactly when the text holds a match; the
   * match found begins leftmost, and among matches begun there its first group
   * starts leftmost.
   */
  lemma DatePatternSpec(s: string)
    ensures DatePattern(s).None? <==> forall d :: !MatchAt(s, d)
    ensures DatePattern(s).Some? ==>
              forall d :: MatchAt(s, d) ==> DatePattern(s).value.start <= d.start
    ensures DatePattern(s).Some? ==>
              forall d :: MatchAt(s, d) && d.start == DatePattern(s).value.start ==>
                DatePattern(s).value.day <= d.day
  {
    forall d | MatchAt(s, d)
      ensures DatePattern(s).Some? && DatePattern(s).value.start <= d.start
    {
      SearchComplete(s, 0, d);
    }
    if DatePattern(s).Some? {
      var r := DatePattern(s).value;
      SearchIsAttempt(s, 0);
      forall d | MatchAt(s, d) && d.start == r.start
        ensures r.day <= d.day
      {
        MatchStartDayComplete(s, d.start, d);
      }
    }
  }

  /** A match never crosses a line break. */
  lemma MatchInLine(s: string, d: DateMatch)
    requires MatchAt(s, d)
    ensures InLine(s, d.start, d.middle.tail.year + 4)
  {
    var m := d.middle;
    var t := m.tail;
    forall k | d.start <= k < t.year + 4
      ensures s[k] != '\n'
    {
      if d.day <= k < d.dayEnd {
        assert s[d.day..d.dayEnd][k - d.day] == s[k];
      } else if m.endDay <= k < m.endDayEnd {
        assert s[m.endDay..m.endDayEnd][k - m.endDay] == s[k];
      } else if t.year <= k {
        assert s[t.year..t.year + 4][k - t.year] == s[k];
      }
    }
  }

  /**
   * The start day is the first digit at or after where the match begins: with
   * any earlier digit as a one-digit first group, the rest of the text would
   * still match.
   */
  lemma StartDayIsFirstDigit(s: string)
    requires DatePattern(s).Some?
    ensures var r := DatePattern(s).value;
            forall j :: r.start <= j < r.day ==> !IsDigit(s[j])
  {
    var r := DatePattern(s).value;
    DatePatternSpec(s);
    forall j | r.start <= j < r.day
      ensures !IsDigit(s[j])
    {
      if IsDigit(s[j]) {
        var d := EarlierDigitMatches(s, r, j);
        assert false;
      }
    }
  }

  /** A digit before a match's first group can itself serve as a one-digit first group. */
  lemma EarlierDigitMatches(s: string, r: DateMatch, j: nat) returns (d: DateMatch)
    requires MatchAt(s, r) && r.start <= j < r.day && IsDigit(s[j])
    ensures MatchAt(s, d) && d.start == r.start && d.day == j
  {
    var m := r.middle;
    var t := m.tail;
    MatchInLine(s, r);
    assert s[r.day..r.dayEnd][0] == s[r.day];
    assert s[m.endDay..m.endDayEnd][0] == s[m.endDay];
    d := DateMatch(r.start, j, j + 1, Middle(r.day, r.day + 1, Tail(m.endDay, m.endDay + 1, t.year)));
    assert s[j..j + 1] == [s[j]];
    assert s[r.day..r.day + 1] == [s[r.day]];
  }

  // ---------------------------------------------------------------------
  // The descriptions

  /** A day name (or the next day's) begins at `j`: where `split` cuts the text for day `k`. */
  predicate Stop(s: string, k: nat, j: int)
    requires k < |Days|
  {
    OccursAt(s, Days[k], j) || (k + 1 < |Days| && OccursAt(s, Days[k + 1], j))
  }

  /** `hi` is the first place at or after `lo` where day `k` cuts the text, or the end. */
  predicate FirstStop(s: string, k: nat, lo: nat, hi: nat)
    requires k < |Days|
  {
    lo <= hi <= |s| && (forall j :: lo <= j < hi ==> !Stop(s, k, j)) && (hi == |s| || Stop(s, k, hi))
  }

  /** The first cut is unique. */
  lemma FirstStopUnique(s: string, k: nat, lo: nat, h1: nat, h2: nat)
    requires k < |Days| && FirstStop(s, k, lo, h1) && FirstStop(s, k, lo, h2)
    ensures h1 == h2
  {
  }

  /** Every day name is a capital followed by lower-case letters, so no name starts inside another. */
  lemma NoNameInside(a: nat, b: nat, i: nat)
    requires a < |Days| && b < |Days| && 1 <= i < |Days[a]|
    ensures Days[a][i] != Days[b][0]
  {
  }

  /** An occurrence of one day name cannot overlap the start of an occurrence of another. */
  lemma NoOverlap(s: string, a: nat, b: nat, p: nat, q: nat)
    requires a < |Days| && b < |Days| && p < q < p + |Days[a]|
    ensures !(OccursAt(s, Days[a], p) && OccursAt(s, Days[b], q))
  {
    if OccursAt(s, Days[a], p) && q < |s| {
      assert s[q] == Days[a][q - p] by {
        assert s[p..p + |Days[a]|][q - p] == Days[a][q - p];
      }
      NoNameInside(a, b, q - p);
      assert s[q] != Days[b][0];
    }
  }

  /** `text.split(day)[1]`: the text between the first and second occurrence of the name, or to the end. */
  lemma SecondPiece(s: string, k: nat) returns (lo: nat, h: nat)
    requires k < |Days| && Contains(s, Days[k])
    ensures lo == Find(s, Days[k], 0).value + |Days[k]| && lo <= h <= |s|
    ensures |Split(s, Days[k])| >= 2 && Split(s, Days[k])[1] == s[lo..h]
    ensures forall j :: lo <= j < h ==> !OccursAt(s, Days[k], j)
    ensures h == |s| || OccursAt(s, Days[k], h)
  {
    lo := Find(s, Days[k], 0).value + |Days[k]|;
    SplitSecond(s, Days[k]);
    FindSpec(s, Days[k], lo);
    h := if Find(s, Days[k], lo).Some? then Find(s, Days[k], lo).value else |s|;
  }

  /** Friday's description runs to the next occurrence of its own name. */
  lemma LastDescription(s: string) returns (lo: nat, hi: nat)
    requires Contains(s, Days[4])
    ensures lo == Find(s, Days[4], 0).value + |Days[4]| && FirstStop(s, 4, lo, hi)
    ensures Description(s, 4) == Success(Strip(s[lo..hi]))
  {
    lo, hi := SecondPiece(s, 4);
  }

  /** A weekday's description, cut where the following day's name first occurs in the piece. */
  lemma CutDescription(s: string, k: nat, lo: nat, h: nat, f: nat) returns (hi: nat)
    requires k + 1 < |Days| && lo <= h <= |s|
    requires forall j :: lo <= j < h ==> !OccursAt(s, Days[k], j)
    requires h == |s| || OccursAt(s, Days[k], h)
    requires Find(s[lo..h], Days[k + 1], 0) == Some(f)
    ensures hi == lo + f && FirstStop(s, k, lo, hi)
    ensures Split(s[lo..h], Days[k + 1])[0] == s[lo..hi]
  {
    hi := lo + f;
    CutStop(s, k, lo, h, f);
    SplitFirstSlice(s, Days[k + 1], lo, h, f);
  }

  /** The first occurrence of the following day's name in the piece is where day `k` is cut. */
  lemma CutStop(s: string, k: nat, lo: nat, h: nat, f: nat)
    requires k + 1 < |Days| && lo <= h <= |s|
    requires forall j :: lo <= j < h ==> !OccursAt(s, Days[k], j)
    requires Find(s[lo..h], Days[k + 1], 0) == Some(f)
    ensures FirstStop(s, k, lo, lo + f)
  {
    FindInSlice(s, Days[k + 1], lo, h, f);
  }

  /** The first piece of a slice's split is the slice up to the separator's first occurrence. */
  lemma SplitFirstSlice(s: string, sep: string, lo: nat, h: nat, f: nat)
    requires |sep| > 0 && lo <= h <= |s| && Find(s[lo..h], sep, 0) == Some(f)
    ensures lo + f <= h && Split(s[lo..h], sep)[0] == s[lo..lo + f]
  {
    SplitFirst(s[lo..h], sep);
    assert s[lo..h][..f] == s[lo..lo + f];
  }

  /** A weekday's description when the following day's name does not occur in the piece. */
  lemma UncutDescription(s: string, k: nat, lo: nat, h: nat) returns (hi: nat)
    requires k + 1 < |Days| && lo <= h <= |s|
    requires forall j :: lo <= j < h ==> !OccursAt(s, Days[k], j)
    requires h == |s| || OccursAt(s, Days[k], h)
    requires Find(s[lo..h], Days[k + 1], 0).None?
    ensures hi == h && FirstStop(s, k, lo, hi)
    ensures Split(s[lo..h], Days[k + 1])[0] == s[lo..hi]
  {
    var next := Days[k + 1];
    hi := h;
    FindSpec(s[lo..h], next, 0);
    SplitFirst(s[lo..h], next);
    forall j | lo <= j < h
      ensures !OccursAt(s, next, j)
    {
      if OccursAt(s, next, j) {
        if j + |next| <= h {
          OccursInSliceBack(s, next, lo, h, j);
        } else {
          NoOverlap(s, k + 1, k, j, h);
        }
        assert false;
      }
    }
  }

  /** A description exists exactly when the day's name occurs; otherwise the split raises for that day. */
  lemma DescriptionOutcome(s: string, k: nat)
    requires k < |Days|
    ensures Description(s, k).Success? <==> Contains(s, Days[k])
    ensures Description(s, k).Failure? ==> Description(s, k).error == DayMissing(Days[k])
  {
    SplitSecond(s, Days[k]);
  }

  /**
   * A description is the stripped text from the end of the day name's first
   * occurrence to the first place where that name or the following day's name
   * begins again, or to the end.
   */
  lemma DescriptionSpec(s: string, k: nat) returns (lo: nat, hi: nat)
    requires k < |Days| && Contains(s, Days[k])
    ensures lo == Find(s, Days[k], 0).value + |Days[k]|
    ensures FirstStop(s, k, lo, hi)
    ensures Description(s, k) == Success(Strip(s[lo..hi]))
  {
    if k == 4 {
      lo, hi := LastDescription(s);
    } else {
      var h;
      lo, h := SecondPiece(s, k);
      match Find(s[lo..h], Days[k + 1], 0)
      case Some(f) =>
        hi := CutDescription(s, k, lo, h, f);
      case None =>
        hi := UncutDescription(s, k, lo, h);
    }
  }

  // ---------------------------------------------------------------------
  // The whole extraction

  /** Past the head, a list built as `[x] + rest` is `rest` shifted by one. */
  lemma ConsIndex<T>(x: T, rest: seq<T>, all: seq<T>, i: nat)
    requires all == [x] + rest && 0 < i < |all|
    ensures all[i] == rest[i - 1]
  {
  }

  /** The first day from `k` on whose name does not occur, if any. */
  function FirstMissingFrom(s: string, k: nat): (r: Option<nat>)
    requires k <= |Days|
    ensures r.Some? ==> k <= r.value < |Days| && !Contains(s, Days[r.value])
    ensures r.Some? ==> forall j :: k <= j < r.value ==> Contains(s, Days[j])
    ensures r.None? ==> forall j :: k <= j < |Days| ==> Contains(s, Days[j])
    decreases |Days| - k
  {
    if k == |Days| then None
    else if !Contains(s, Days[k]) then Some(k)
    else FirstMissingFrom(s, k + 1)
  }

  /** `ds` lists the descriptions of the days from `k` on, in order. */
  predicate DescribesFrom(s: string, k: nat, ds: seq<string>)
    requires k <= |Days|
  {
    |ds| == |Days| - k &&
    forall j :: k <= j < |Days| ==> Description(s, j).Success? && ds[j - k] == Description(s, j).value
  }

  /** `es` holds the entries of the days from `i` on: name, date `start + j` and description. */
  predicate DatedFrom(descriptions: seq<string>, start: int, i: nat, es: seq<MenuEntry<Singleton<int>>>)
    requires i <= |descriptions| == |Days|
  {
    |es| == |Days| - i &&
    forall j :: i <= j < |Days| ==> es[j - i] == MenuEntry(Days[j], Singleton(start + j), descriptions[j])
  }

  /** The comprehension fails on the first missing day from `k` on, and otherwise lists every day's description in order. */
  lemma {:induction false} DescriptionsSpec(s: string, k: nat)
    requires k <= |Days|
    ensures Descriptions(s, k).Success? <==> FirstMissingFrom(s, k).None?
    ensures Descriptions(s, k).Failure? ==>
              Descriptions(s, k).error == DayMissing(Days[FirstMissingFrom(s, k).value])
    ensures Descriptions(s, k).Success? ==>
              DescribesFrom(s, k, Descriptions(s, k).value)
    decreases |Days| - k
  {
    if k < |Days| {
      DescriptionsSpec(s, k + 1);
      DescriptionsStep(s, k);
    }
  }

  /** One step of `DescriptionsSpec`: day `k` either raises first or puts its description before the rest. */
  lemma DescriptionsStep(s: string, k: nat)
    requires k < |Days|
    requires Descriptions(s, k + 1).Success? <==> FirstMissingFrom(s, k + 1).None?
    requires Descriptions(s, k + 1).Failure? ==>
               Descriptions(s, k + 1).error == DayMissing(Days[FirstMissingFrom(s, k + 1).value])
    requires Descriptions(s, k + 1).Success? ==>
               DescribesFrom(s, k + 1, Descriptions(s, k + 1).value)
    ensures Descriptions(s, k).Success? <==> FirstMissingFrom(s, k).None?
    ensures Descriptions(s, k).Failure? ==>
              Descriptions(s, k).error == DayMissing(Days[FirstMissingFrom(s, k).value])
    ensures Descriptions(s, k).Success? ==>
              DescribesFrom(s, k, Descriptions(s, k).value)
  {
    if !Contains(s, Days[k]) {
      DescriptionsMissing(s, k);
    } else {
      DescriptionsPresent(s, k);
      if Descriptions(s, k + 1).Success? {
        DescribesCons(s, k, Description(s, k).value, Descriptions(s, k + 1).value);
      }
    }
  }

  /** A missing day raises before any later day is looked at. */
  lemma DescriptionsMissing(s: string, k: nat)
    requires k < |Days| && !Contains(s, Days[k])
    ensures Descriptions(s, k) == Failure(DayMissing(Days[k]))
    ensures FirstMissingFrom(s, k) == Some(k)
  {
    DescriptionOutcome(s, k);
  }

  /** A present day puts its description in front of the later days' outcome. */
  lemma DescriptionsPresent(s: string, k: nat)
    requires k < |Days| && Contains(s, Days[k])
    ensures Description(s, k).Success?
    ensures FirstMissingFrom(s, k) == FirstMissingFrom(s, k + 1)
    ensures Descriptions(s, k + 1).Failure? ==> Descriptions(s, k) == Descriptions(s, k + 1)
    ensures Descriptions(s, k + 1).Success? ==>
              Descriptions(s, k) == Success([Description(s, k).value] + Descriptions(s, k + 1).value)
  {
    DescriptionOutcome(s, k);
  }

  /** Putting day `k`'s description in front of the later days' keeps the listing in order. */
  lemma DescribesCons(s: string, k: nat, d: string, rest: seq<string>)
    requires k < |Days| && Description(s, k) == Success(d) && DescribesFrom(s, k + 1, rest)
    ensures DescribesFrom(s, k, [d] + rest)
  {
    var all := [d] + rest;
    forall j | k < j < |Days|
      ensures all[j - k] == Description(s, j).value
    {
      ConsIndex(d, rest, all, j - k);
    }
  }

  /** Dating from `i` on succeeds exactly when every remaining date is in range; each entry is the day, its date and its description. */
  lemma {:induction false} DateEntriesSpec(descriptions: seq<string>, start: int, i: nat)
    requires i <= |descriptions| == |Days|
    ensures DateEntries(descriptions, start, i).Success? <==>
              i == |Days| || (1 <= start + i && start + |Days| - 1 <= MaxOrdinal)
    ensures DateEntries(descriptions, start, i).Failure? ==>
              DateEntries(descriptions, start, i).error == DateOverflow
    ensures DateEntries(descriptions, start, i).Success? ==>
              DatedFrom(descriptions, start, i, DateEntries(descriptions, start, i).value)
    decreases |Days| - i
  {
    if i < |Days| {
      DateEntriesSpec(descriptions, start, i + 1);
      DateEntriesStep(descriptions, start, i);
    }
  }

  /** One step of `DateEntriesSpec`. */
  lemma DateEntriesStep(descriptions: seq<string>, start: int, i: nat)
    requires i < |descriptions| == |Days|
    requires DateEntries(descriptions, start, i + 1).Success? <==>
               i + 1 == |Days| || (1 <= start + i + 1 && start + |Days| - 1 <= MaxOrdinal)
    requires DateEntries(descriptions, start, i + 1).Failure? ==>
               DateEntries(descriptions, start, i + 1).error == DateOverflow
    requires DateEntries(descriptions, start, i + 1).Success? ==>
               DatedFrom(descriptions, start, i + 1, DateEntries(descriptions, start, i + 1).value)
    ensures DateEntries(descriptions, start, i).Success? <==>
              1 <= start + i && start + |Days| - 1 <= MaxOrdinal
    ensures DateEntries(descriptions, start, i).Failure? ==>
              DateEntries(descriptions, start, i).error == DateOverflow
    ensures DateEntries(descriptions, start, i).Success? ==>
              DatedFrom(descriptions, start, i, DateEntries(descriptions, start, i).value)
  {
    if DateEntries(descriptions, start, i).Success? {
      var rest := DateEntries(descriptions, start, i + 1).value;
      var all := DateEntries(descriptions, start, i).value;
      var first := MenuEntry(Days[i], Singleton(start + i), descriptions[i]);
      assert all == [first] + rest;
      forall j | i < j < |Days|
        ensures all[j - i] == MenuEntry(Days[j], Singleton(start + j), descriptions[j])
      {
        ConsIndex(first, rest, all, j - i);
      }
    }
  }

  /** The start date handed back by the date parser, once the date pattern has matched. */
  function ParsedStart(s: string, parseDate: string -> Option<int>): Option<int> {
    match DatePattern(s)
    case None => None
    case Some(d) => parseDate(DateWords(s, d))
  }

  /** `es` holds the five weekdays in order, the `k`-th dated `start + k` and described as `Description` finds it. */
  predicate ListsWeek(s: string, start: int, es: seq<MenuEntry<Singleton<int>>>) {
    |es| == |Days| &&
    forall k :: 0 <= k < |Days| ==>
      Description(s, k).Success? && es[k] == MenuEntry(Days[k], Singleton(start + k), Description(s, k).value)
  }

  /**
   * A successful extraction lists the five weekdays in order, dated on
   * consecutive days from the parsed start date, each with its description.
   */
  lemma ExtractTextSpec(s: string, parseDate: string -> Option<int>)
    requires ExtractText(s, parseDate).Success?
    ensures DatePattern(s).Some? && ParsedStart(s, parseDate).Some?
    ensures 1 <= ParsedStart(s, parseDate).value && ParsedStart(s, parseDate).value + 4 <= MaxOrdinal
    ensures ListsWeek(s, ParsedStart(s, parseDate).value, ExtractText(s, parseDate).value)
  {
    var start := ParsedStart(s, parseDate).value;
    var descriptions := Descriptions(s, 0).value;
    var es := ExtractText(s, parseDate).value;
    assert Success(es) == DateEntries(descriptions, start, 0);
    assert DescribesFrom(s, 0, descriptions) by {
      DescriptionsSpec(s, 0);
    }
    assert DatedFrom(descriptions, start, 0, es) && 1 <= start && start + 4 <= MaxOrdinal by {
      DateEntriesSpec(descriptions, start, 0);
    }
    ListsWeekOf(s, descriptions, start, es);
  }

  /** Descriptions and dated entries for the whole week make up the week's listing. */
  lemma ListsWeekOf(s: string, descriptions: seq<string>, start: int, es: seq<MenuEntry<Singleton<int>>>)
    requires |descriptions| == |Days|
    requires DescribesFrom(s, 0, descriptions) && DatedFrom(descriptions, start, 0, es)
    ensures ListsWeek(s, start, es)
  {
    forall k | 0 <= k < |Days|
      ensures Description(s, k).Success? && es[k] == MenuEntry(Days[k], Singleton(start + k), Description(s, k).value)
    {
      assert es[k - 0] == MenuEntry(Days[k], Singleton(start + k), descriptions[k]);
      assert descriptions[k - 0] == Description(s, k).value;
    }
  }

  /**
   * Extraction raises the first exception in program order: no date match,
   * then the first missing weekday, then an unparsed start date, then a date
   * past the calendar's end.
   */
  lemma ExtractTextFailure(s: string, parseDate: string -> Option<int>)
    ensures ExtractText(s, parseDate) == Failure(DatePatternMissing) <==> forall d :: !MatchAt(s, d)
    ensures DatePattern(s).Some? && FirstMissingFrom(s, 0).Some? ==>
              ExtractText(s, parseDate) == Failure(DayMissing(Days[FirstMissingFrom(s, 0).value]))
    ensures DatePattern(s).Some? && FirstMissingFrom(s, 0).None? && ParsedStart(s, parseDate).None? ==>
              ExtractText(s, parseDate) == Failure(DateUnparsed)
    ensures DatePattern(s).Some? && FirstMissingFrom(s, 0).None? && ParsedStart(s, parseDate).Some? ==>
              var start := ParsedStart(s, parseDate).value;
              && (ExtractText(s, parseDate).Failure? <==> !(1 <= start && start + 4 <= MaxOrdinal))
              && (ExtractText(s, parseDate).Failure? ==> ExtractText(s, parseDate).error == DateOverflow)
  {
    DatePatternSpec(s);
    DescriptionsSpec(s, 0);
    if DatePattern(s).Some? && FirstMissingFrom(s, 0).None? && ParsedStart(s, parseDate).Some? {
      DateEntriesSpec(Descriptions(s, 0).value, ParsedStart(s, parseDate).value, 0);
    }
  }
}
