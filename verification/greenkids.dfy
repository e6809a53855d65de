/**
 * `extract_text` of the Greenkids parser (also copied into the function entry
 * point), once the PDF page's text is in hand: the week's Monday is read from
 * "Semaine N° w" and the first four-digit number, and each weekday that occurs
 * in the text gets the text between its name and the next listed token.
 */
module Greenkids {
  import opened Wrappers
  import opened Chars
  import opened Str
  import opened Calendar
  import opened Menu

  /** `days`: the five weekday tokens in order, then the token that closes Friday's menu. */
  const Tokens: seq<string> := ["LUNDI", "MARDI", "MERCREDI", "JEUDI", "VENDREDI", "Allergies"]

  /** The number of weekday entries the loop tries: `len(days) - 1`. */
  const DayCount: nat := 5

  /** The literal part of `Semaine N° (\d+)`. */
  const WeekLabel: string := "Semaine N\U{B0} "

  // ---------------------------------------------------------------------
  // The week and the year

  /** `Semaine N° (\d+)` matches at `p`: the label, then at least one digit. */
  predicate WeekHeaderAt(s: string, p: nat) {
    OccursAt(s, WeekLabel, p) && p + |WeekLabel| < |s| && IsDigit(s[p + |WeekLabel|])
  }

  /** `re.search` for the week header from `from` on: its leftmost match. */
  function FindWeekHeader(s: string, from: nat): (r: Option<nat>)
    requires from <= |s|
    ensures r.Some? ==> from <= r.value && WeekHeaderAt(s, r.value)
    ensures r.Some? ==> forall p :: from <= p < r.value ==> !WeekHeaderAt(s, p)
    ensures r.None? ==> forall p :: from <= p ==> !WeekHeaderAt(s, p)
    decreases |s| - from
  {
    if WeekHeaderAt(s, from) then Some(from)
    else if from == |s| then None
    else FindWeekHeader(s, from + 1)
  }

  /** `int(group(1))` of the leftmost week header: the whole run of digits after the label. */
  function WeekNumber(s: string): (r: Option<nat>)
  {
    match FindWeekHeader(s, 0)
    case None => None
    case Some(p) =>
      var d := p + |WeekLabel|;
      Some(DecimalValue(s[d..DigitRunEnd(s, d)]))
  }

  /** `re.search(r'\d{4}', …)` from `from` on: its leftmost match. */
  function FindFourDigits(s: string, from: nat): (r: Option<nat>)
    requires from <= |s|
    ensures r.Some? ==> from <= r.value && FourDigitsAt(s, r.value)
    ensures r.Some? ==> forall p :: from <= p < r.value ==> !FourDigitsAt(s, p)
    ensures r.None? ==> forall p :: from <= p ==> !FourDigitsAt(s, p)
    decreases |s| - from
  {
    if FourDigitsAt(s, from) then Some(from)
    else if from == |s| then None
    else FindFourDigits(s, from + 1)
  }

  /** `int(group(0))` of the first run of four digits. */
  function Year(s: string): (r: Option<nat>)
  {
    match FindFourDigits(s, 0)
    case None => None
    case Some(p) => Some(DecimalValue(s[p..p + 4]))
  }

  /** `week_date`: `fromisocalendar(year, week_number, 1)`, with the exception each step can raise. */
  function WeekMonday(s: string): (r: Result<int, ExtractError>)
  {
    match WeekNumber(s)
    case None => Failure(WeekNumberMissing)
    case Some(week) =>
      match Year(s)
      case None => Failure(YearMissing)
      case Some(year) =>
        match FromIsoCalendar(year, week, 1)
        case Failure(e) => Failure(InvalidIsoWeek(e))
        case Success(n) => Success(n)
  }

  // ---------------------------------------------------------------------
  // The days

  /** `text.index(day)` for a day that occurs: its first occurrence. */
  function DayStart(s: string, k: nat): (p: nat)
    requires k < DayCount && Contains(s, Tokens[k])
    ensures p + |Tokens[k]| <= |s|
  {
    Find(s, Tokens[k], 0).value
  }

  /** `text.index(days[k + 1], start_index + 1)`, or nothing where it raises. */
  function DayEnd(s: string, k: nat): Option<nat>
    requires k < DayCount && Contains(s, Tokens[k])
  {
    Find(s, Tokens[k + 1], DayStart(s, k) + 1)
  }

  /** The entry for day `k` when that day occurs in the text. */
  function DayEntry(s: string, monday: int, k: nat): Result<MenuEntry<int>, ExtractError>
    requires k < DayCount && Contains(s, Tokens[k])
  {
    var day := Tokens[k];
    match DayEnd(s, k)
    case None => Failure(TokenNotFound(Tokens[k + 1]))
    case Some(e) =>
      var description := Strip(Slice(s, DayStart(s, k) + |day|, e));
      match AddDays(monday, k)
      case None => Failure(DateOverflow)
      case Some(date) => Success(MenuEntry(day, date, description))
  }

  /** The loop from day `k` on: days that do not occur are skipped, the first exception ends the run. */
  function Entries(s: string, monday: int, k: nat): Result<seq<MenuEntry<int>>, ExtractError>
    requires k <= DayCount
    decreases DayCount - k
  {
    if k == DayCount then Success([])
    else if !Contains(s, Tokens[k]) then Entries(s, monday, k + 1)
    else
      match DayEntry(s, monday, k)
      case Failure(e) => Failure(e)
      case Success(entry) =>
        match Entries(s, monday, k + 1)
        case Failure(e) => Failure(e)
        case Success(rest) => Success([entry] + rest)
  }

  /** `extract_text` on the page's text. */
  function ExtractText(s: string): Result<seq<MenuEntry<int>>, ExtractError>
  {
    match WeekMonday(s)
    case Failure(e) => Failure(e)
    case Success(monday) => Entries(s, monday, 0)
  }
}
