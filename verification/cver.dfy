/**
 * `extract_menus` of the CVER parser: the normalised text is searched for the
 * week header, cleared of noise lines, cut into one block per weekday header
 * line, and every block becomes a menu entry with its day, its date (when the
 * week is known) and its tidied description.
 */
module Cver {
  import opened Wrappers
  import opened Chars
  import opened Str
  import opened Calendar
  import opened Menu
  import opened CverNormalize
  import opened CverNoise
  import opened CverWeek
  import opened CverTidy

  /** `days_order`: a day's offset from Monday is its index. */
  const DayNames: seq<string> := ["lundi", "mardi", "mercredi", "jeudi", "vendredi"]

  /** The capitalised day names the entries carry. */
  const DisplayNames: seq<string> := ["Lundi", "Mardi", "Mercredi", "Jeudi", "Vendredi"]

  // ---------------------------------------------------------------------
  // The day header pattern `(?mi)^\s*(lundi|mardi|mercredi|jeudi|vendredi)\b.*$`

  /** `^` in multi-line mode: the start of the text or just after a '\n'. */
  predicate IsLineStart(s: string, p: nat) {
    p == 0 || (p <= |s| && s[p - 1] == '\n')
  }

  /** `\b` after a word character: the text ends or a non-word character follows. */
  predicate WordEnds(s: string, e: nat) {
    e >= |s| || !IsWordChar(s[e])
  }

  /** The alternation: the first listed day name found at `k` when case is ignored, from `DayNames[d]` on. */
  function DayFrom(s: string, k: nat, d: nat): (r: Option<nat>)
    requires d <= |DayNames|
    ensures r.Some? ==> d <= r.value < |DayNames| && MatchesIgnoreCase(s, k, DayNames[r.value])
    ensures r.None? ==> forall e :: d <= e < |DayNames| ==> !MatchesIgnoreCase(s, k, DayNames[e])
    decreases |DayNames| - d
  {
    if d == |DayNames| then None
    else if MatchesIgnoreCase(s, k, DayNames[d]) then Some(d)
    else DayFrom(s, k, d + 1)
  }

  function DayAt(s: string, k: nat): (r: Option<nat>)
    ensures r.Some? ==> r.value < |DayNames| && MatchesIgnoreCase(s, k, DayNames[r.value])
    ensures r.None? ==> forall e :: 0 <= e < |DayNames| ==> !MatchesIgnoreCase(s, k, DayNames[e])
  {
    DayFrom(s, k, 0)
  }

  /** The first '\n' at or after `i`, or the end of the text: where `.*$` stops. */
  function LineEnd(s: string, i: nat): (e: nat)
    requires i <= |s|
    ensures i <= e <= |s|
    ensures forall j :: i <= j < e ==> s[j] != '\n'
    ensures e < |s| ==> s[e] == '\n'
    decreases |s| - i
  {
    if i == |s| || s[i] == '\n' then i else LineEnd(s, i + 1)
  }

  /**
   * One header match: it starts at `start`, the day name (`DayNames[day]`)
   * begins at `name`, and the match ends at `end`, the end of that line.
   */
  datatype Header = Header(start: nat, name: nat, day: nat, end: nat)

  /** What every header match satisfies: whitespace, then a day name, then the rest of the line. */
  predicate IsHeader(s: string, h: Header) {
    && h.day < |DayNames|
    && h.start <= h.name && h.name + |DayNames[h.day]| <= h.end <= |s|
    && SkipSpaces(s, h.start) == h.name
    && MatchesIgnoreCase(s, h.name, DayNames[h.day])
  }

  /**
   * The header match that starts at `p`, if any. `\s*` is greedy and a day
   * name starts with a letter, so the name can only begin at the first
   * non-whitespace character after `p`; no day name is a prefix of another,
   * so the alternation has at most one candidate to try against `\b`.
   */
  function HeaderAt(s: string, p: nat): (r: Option<Header>)
    requires p <= |s|
    ensures r.Some? ==> r.value.start == p && IsHeader(s, r.value) && IsLineStart(s, p)
    ensures r.Some? ==> var e := r.value.name + |DayNames[r.value.day]|;
                        WordEnds(s, e) && r.value.end == LineEnd(s, e)
  {
    if !IsLineStart(s, p) then None
    else
      var k := SkipSpaces(s, p);
      match DayAt(s, k)
      case None => None
      case Some(d) =>
        var e := k + |DayNames[d]|;
        if WordEnds(s, e) then Some(Header(p, k, d, LineEnd(s, e))) else None
  }

  /** The search of `finditer` from `from`: the leftmost header match. */
  function FindHeader(s: string, from: nat): (r: Option<Header>)
    requires from <= |s|
    ensures r.Some? ==> from <= r.value.start <= |s| && HeaderAt(s, r.value.start) == r
    ensures r.Some? ==> forall p :: from <= p < r.value.start ==> HeaderAt(s, p).None?
    ensures r.None? ==> forall p :: from <= p <= |s| ==> HeaderAt(s, p).None?
    decreases |s| - from
  {
    var here := HeaderAt(s, from);
    if here.Some? then here
    else if from == |s| then None
    else
      var r := FindHeader(s, from + 1);
      assert forall p :: from <= p < from + 1 ==> HeaderAt(s, p) == here;
      r
  }

  /** The matches lie inside the text, in order, without overlapping. */
  predicate Ordered(s: string, hs: seq<Header>) {
    && (forall i :: 0 <= i < |hs| ==> hs[i].start <= hs[i].end <= |s|)
    && (forall i :: 0 <= i < |hs| - 1 ==> hs[i].end <= hs[i + 1].start)
  }

  /** Ordered header matches of `s`. */
  predicate InOrder(s: string, hs: seq<Header>) {
    Ordered(s, hs) && forall i :: 0 <= i < |hs| ==> IsHeader(s, hs[i])
  }

  /** `list(day_header_re.finditer(s))` with the search starting at `from`: each search resumes where the last match ended. */
  function Scan(s: string, from: nat): (r: seq<Header>)
    requires from <= |s|
    ensures Ordered(s, r)
    ensures forall i :: 0 <= i < |r| ==> from <= r[i].start <= |s| && HeaderAt(s, r[i].start) == Some(r[i])
    decreases |s| - from
  {
    match FindHeader(s, from)
    case None => []
    case Some(h) =>
      var rest := Scan(s, h.end);
      OrderedCons(s, h, rest);
      [h] + rest
  }

  lemma OrderedCons(s: string, h: Header, rest: seq<Header>)
    requires h.start <= h.end <= |s|
    requires Ordered(s, rest)
    requires forall i :: 0 <= i < |rest| ==> h.end <= rest[i].start
    ensures Ordered(s, [h] + rest)
  {
    var r := [h] + rest;
    forall i | 0 <= i < |r| - 1
      ensures r[i].end <= r[i + 1].start
    {
      if i > 0 {
        assert r[i] == rest[i - 1] && r[i + 1] == rest[i];
      }
    }
  }

  lemma ScanInOrder(s: string, from: nat)
    requires from <= |s|
    ensures InOrder(s, Scan(s, from))
  {
  }

  // ---------------------------------------------------------------------
  // Blocks and entries

  /** `end_pos`: the next match's start, or the end of the text. */
  function BlockEnd(s: string, hs: seq<Header>, i: nat): (e: nat)
    requires Ordered(s, hs) && i < |hs|
    ensures hs[i].end <= e <= |s|
  {
    if i + 1 < |hs| then hs[i + 1].start else |s|
  }

  /** `text[start_pos:end_pos]`. */
  function Block(s: string, hs: seq<Header>, i: nat): string
    requires Ordered(s, hs) && i < |hs|
  {
    s[hs[i].start..BlockEnd(s, hs, i)]
  }

  /** `re.sub(r"(?is)^\s*(lundi|…|vendredi)\s*", "", block, count=1)`: one leading day name and the whitespace around it go. */
  function StripLeadingDay(b: string): (r: string)
    ensures |r| <= |b|
  {
    var k := SkipSpaces(b, 0);
    match DayAt(b, k)
    case None => b
    case Some(d) => b[SkipSpaces(b, k + |DayNames[d]|)..]
  }

  /** The dates of `day_to_date` from `DayNames[i]` on, or the overflow that `start_date + timedelta` raises. */
  function DatesFrom(n: int, i: nat): (r: Result<map<string, int>, ExtractError>)
    requires i <= |DayNames|
    decreases |DayNames| - i
  {
    if i == |DayNames| then Success(map[])
    else
      match AddDays(n, i)
      case None => Failure(DateOverflow)
      case Some(v) =>
        match DatesFrom(n, i + 1)
        case Failure(e) => Failure(e)
        case Success(m) => Success(m[DayNames[i] := v])
  }

  /** `day_to_date`: empty without a start date, otherwise every day's date. */
  function DayToDate(start: Option<int>): Result<map<string, int>, ExtractError> {
    match start
    case None => Success(map[])
    case Some(n) => DatesFrom(n, 0)
  }

  /** `dict.get`. */
  function Get(m: map<string, int>, key: string): Option<int> {
    if key in m then Some(m[key]) else None
  }

  /** The day name as the header writes it. */
  function DayText(s: string, h: Header): string
    requires IsHeader(s, h)
  {
    s[h.name..h.name + |DayNames[h.day]|]
  }

  /** The description of the `i`-th block: the block without its leading day name, tidied. */
  function Describe(s: string, hs: seq<Header>, i: nat): string
    requires Ordered(s, hs) && i < |hs|
  {
    Tidy(StripLeadingDay(Block(s, hs, i)))
  }

  /** The entry built from the `i`-th match: `day_lc` is the matched name lower-cased. */
  function Entry(s: string, hs: seq<Header>, dates: map<string, int>, i: nat): MenuEntry<Option<int>>
    requires InOrder(s, hs) && i < |hs|
  {
    var dayLc := LowerStr(DayText(s, hs[i]));
    MenuEntry(Capitalize(dayLc), Get(dates, dayLc), Describe(s, hs, i))
  }

  /** `extract_menus`. */
  function ExtractMenus(text: string): Result<seq<MenuEntry<Option<int>>>, ExtractError> {
    var norm := Normalize(text);
    var start := ParseWeekRange(norm).0;
    var t := RemoveNoiseLines(norm);
    match DayToDate(start)
    case Failure(e) => Failure(e)
    case Success(dates) =>
      var hs := Scan(t, 0);
      ScanInOrder(t, 0);
      Success(seq(|hs|, i requires 0 <= i < |hs| => Entry(t, hs, dates, i)))
  }
}
