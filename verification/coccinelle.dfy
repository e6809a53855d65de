/**
 * `extract_text` of the La Coccinelle Verte parser, once the page's text is in
 * hand: the start day, month and year are read with the pattern
 * `.*?(\d{1,2}).*?(\d{1,2}).*?(\w+).*?(\d{4})`, each of the five weekdays gets
 * the text after its name up to the next weekday's name, and the entries are
 * dated on consecutive days from the start date.
 */
module Coccinelle {
  import opened Wrappers
  import opened Chars
  import opened Str
  import opened Calendar
  import opened Menu

  /** `days`, Monday to Friday, as they are written on the page. */
  const Days: seq<string> := ["Lundi", "Mardi", "Mercredi", "Jeudi", "Vendredi"]

  // ---------------------------------------------------------------------
  // The date pattern

  /** `s[i..j]` holds no newline, so one `.*?` can run across it. */
  predicate InLine(s: string, i: nat, j: nat) {
    i <= j <= |s| && forall k :: i <= k < j ==> s[k] != '\n'
  }

  /** `\d{1,2}` matches `s[i..j]`. */
  predicate DayDigits(s: string, i: nat, j: nat) {
    i < j <= i + 2 && j <= |s| && AllDigits(s[i..j])
  }

  /** `\w+` matches `s[i..j]`. */
  predicate Word(s: string, i: nat, j: nat) {
    i < j <= |s| && forall k :: i <= k < j ==> IsWordChar(s[k])
  }

  /** Where the groups `(\w+)` and `(\d{4})` matched: the month is `s[month..monthEnd]`, the year starts at `year`. */
  datatype Tail = Tail(month: nat, monthEnd: nat, year: nat)

  /** Where the second `(\d{1,2})` matched, and the rest of the match after it. */
  datatype Middle = Middle(endDay: nat, endDayEnd: nat, tail: Tail)

  /** A match of the whole pattern begun at `start`; the first group is `s[day..dayEnd]`. */
  datatype DateMatch = DateMatch(start: nat, day: nat, dayEnd: nat, middle: Middle)

  /** `.*?(\w+).*?(\d{4})` matches from `i` with the groups at `t`. */
  predicate TailAt(s: string, i: nat, t: Tail) {
    InLine(s, i, t.month) && Word(s, t.month, t.monthEnd) && InLine(s, t.monthEnd, t.year) && FourDigitsAt(s, t.year)
  }

  /** `.*?(\d{1,2})` and then the tail match from `i` with the groups at `m`. */
  predicate MiddleAt(s: string, i: nat, m: Middle) {
    InLine(s, i, m.endDay) && DayDigits(s, m.endDay, m.endDayEnd) && TailAt(s, m.endDayEnd, m.tail)
  }

  /** The whole pattern matches from `d.start` with the groups at `d`. */
  predicate MatchAt(s: string, d: DateMatch) {
    InLine(s, d.start, d.day) && DayDigits(s, d.day, d.dayEnd) && MiddleAt(s, d.dayEnd, d.middle)
  }

  /** `.*?(\d{4})` from `i`: the nearest four digits before the line ends. */
  function MatchYear(s: string, i: nat): (r: Option<nat>)
    requires i <= |s|
    ensures r.Some? ==> InLine(s, i, r.value) && FourDigitsAt(s, r.value)
    decreases |s| - i
  {
    if FourDigitsAt(s, i) then Some(i)
    else if i == |s| || s[i] == '\n' then None
    else MatchYear(s, i + 1)
  }

  /** The end of the run of word characters from `i`. */
  function WordEnd(s: string, i: nat): (e: nat)
    requires i <= |s|
    ensures i <= e <= |s|
    ensures forall k :: i <= k < e ==> IsWordChar(s[k])
    ensures e < |s| ==> !IsWordChar(s[e])
    decreases |s| - i
  {
    if i == |s| || !IsWordChar(s[i]) then i else WordEnd(s, i + 1)
  }

  /** `(\w+).*?(\d{4})` at `i`: `\w+` first takes the word up to `e`, then gives back one character at a time until a year follows. */
  function TryMonth(s: string, i: nat, e: nat): (r: Option<Tail>)
    requires Word(s, i, e)
    ensures r.Some? ==> r.value.month == i && r.value.monthEnd <= e && TailAt(s, i, r.value)
    decreases e
  {
    match MatchYear(s, e)
    case Some(y) => Some(Tail(i, e, y))
    case None => if e == i + 1 then None else TryMonth(s, i, e - 1)
  }

  /** `.*?(\w+).*?(\d{4})` from `i`: the lazy `.*?` tries the nearest start first. */
  function MatchMonth(s: string, i: nat): (r: Option<Tail>)
    requires i <= |s|
    ensures r.Some? ==> TailAt(s, i, r.value)
    decreases |s| - i
  {
    if i == |s| then None
    else if IsWordChar(s[i]) && TryMonth(s, i, WordEnd(s, i)).Some? then TryMonth(s, i, WordEnd(s, i))
    else if s[i] == '\n' then None
    else MatchMonth(s, i + 1)
  }

  /** `(\d{1,2})` at `i` and then the tail: two digits first, then one. */
  function EndDayAt(s: string, i: nat): (r: Option<Middle>)
    requires i < |s| && IsDigit(s[i])
    ensures r.Some? ==> r.value.endDay == i && MiddleAt(s, i, r.value)
  {
    if i + 1 < |s| && IsDigit(s[i + 1]) && MatchMonth(s, i + 2).Some? then
      Some(Middle(i, i + 2, MatchMonth(s, i + 2).value))
    else
      match MatchMonth(s, i + 1)
      case Some(t) => Some(Middle(i, i + 1, t))
      case None => None
  }

  /** `.*?(\d{1,2})` and then the tail, from `i`. */
  function MatchEndDay(s: string, i: nat): (r: Option<Middle>)
    requires i <= |s|
    ensures r.Some? ==> MiddleAt(s, i, r.value)
    decreases |s| - i
  {
    if i == |s| then None
    else if IsDigit(s[i]) && EndDayAt(s, i).Some? then EndDayAt(s, i)
    else if s[i] == '\n' then None
    else MatchEndDay(s, i + 1)
  }

  /** `(\d{1,2})` at `i` and then the rest of the pattern, for a match begun at `start`. */
  function StartDayAt(s: string, start: nat, i: nat): (r: Option<DateMatch>)
    requires start <= i < |s| && InLine(s, start, i) && IsDigit(s[i])
    ensures r.Some? ==> r.value.start == start && r.value.day == i && MatchAt(s, r.value)
  {
    if i + 1 < |s| && IsDigit(s[i + 1]) && MatchEndDay(s, i + 2).Some? then
      Some(DateMatch(start, i, i + 2, MatchEndDay(s, i + 2).value))
    else
      match MatchEndDay(s, i + 1)
      case Some(m) => Some(DateMatch(start, i, i + 1, m))
      case None => None
  }

  /** The whole pattern begun at `start`, with the first `.*?` having reached `i`. */
  function MatchStartDay(s: string, start: nat, i: nat): (r: Option<DateMatch>)
    requires start <= i <= |s| && InLine(s, start, i)
    ensures r.Some? ==> r.value.start == start && MatchAt(s, r.value)
    decreases |s| - i
  {
    if i == |s| then None
    else if IsDigit(s[i]) && StartDayAt(s, start, i).Some? then StartDayAt(s, start, i)
    else if s[i] == '\n' then None
    else MatchStartDay(s, start, i + 1)
  }

  /** `re.search` from `start` on: each start position in turn. */
  function Search(s: string, start: nat): (r: Option<DateMatch>)
    requires start <= |s|
    ensures r.Some? ==> start <= r.value.start && MatchAt(s, r.value)
    decreases |s| - start
  {
    match MatchStartDay(s, start, start)
    case Some(d) => Some(d)
    case None => if start == |s| then None else Search(s, start + 1)
  }

  /** `re.search(date_pattern, text)`. */
  function DatePattern(s: string): (r: Option<DateMatch>)
    ensures r.Some? ==> MatchAt(s, r.value)
  {
    Search(s, 0)
  }

  /** What the start date is parsed from: `f"{start_day} {month} {year}"`. */
  function DateWords(s: string, d: DateMatch): (r: string)
    requires MatchAt(s, d)
  {
    var t := d.middle.tail;
    s[d.day..d.dayEnd] + " " + s[t.month..t.monthEnd] + " " + s[t.year..t.year + 4]
  }

  // ---------------------------------------------------------------------
  // The descriptions

  /**
   * `text.split(day)[1].split(next_day)[0].strip()`, or for Friday
   * `text.split("Vendredi")[1].strip()`; a day missing from the text has no
   * second piece.
   */
  function Description(s: string, k: nat): Result<string, ExtractError>
    requires k < |Days|
  {
    var parts := Split(s, Days[k]);
    if |parts| < 2 then Failure(DayMissing(Days[k]))
    else if k + 1 < |Days| then Success(Strip(Split(parts[1], Days[k + 1])[0]))
    else Success(Strip(parts[1]))
  }

  /** The list comprehension from day `k` on: the first day that raises ends it. */
  function Descriptions(s: string, k: nat): (r: Result<seq<string>, ExtractError>)
    requires k <= |Days|
    ensures r.Success? ==> |r.value| == |Days| - k
    decreases |Days| - k
  {
    if k == |Days| then Success([])
    else
      match Description(s, k)
      case Failure(e) => Failure(e)
      case Success(d) =>
        match Descriptions(s, k + 1)
        case Failure(e) => Failure(e)
        case Success(rest) => Success([d] + rest)
  }

  /** `menu["date"] = start_date + timedelta(days=i),` for the entries from `i` on. */
  function DateEntries(descriptions: seq<string>, start: int, i: nat): (r: Result<seq<MenuEntry<Singleton<int>>>, ExtractError>)
    requires i <= |descriptions| == |Days|
    ensures r.Success? ==> |r.value| == |Days| - i
    decreases |Days| - i
  {
    if i == |Days| then Success([])
    else
      match AddDays(start, i)
      case None => Failure(DateOverflow)
      case Some(date) =>
        match DateEntries(descriptions, start, i + 1)
        case Failure(e) => Failure(e)
        case Success(rest) => Success([MenuEntry(Days[i], Singleton(date), descriptions[i])] + rest)
  }

  /**
   * `extract_text` on the page's text; `parseDate` stands for `dateparser.parse`
   * in French, giving the ordinal of the parsed day or nothing.
   */
  function ExtractText(s: string, parseDate: string -> Option<int>): Result<seq<MenuEntry<Singleton<int>>>, ExtractError>
  {
    match DatePattern(s)
    case None => Failure(DatePatternMissing)
    case Some(d) =>
      var start := parseDate(DateWords(s, d));
      match Descriptions(s, 0)
      case Failure(e) => Failure(e)
      case Success(descriptions) =>
        match start
        case None => Failure(DateUnparsed)
        case Some(date) => DateEntries(descriptions, date, 0)
  }
}
