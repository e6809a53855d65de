/**
 * The records the three menu parsers produce, and the ways they fail.
 */
module Menu {
  import opened Calendar

  /**
   * One day's menu: `{"dow": …, "date": …, "description": …}`. The type of the
   * date differs between parsers: an optional ordinal (CVER), an ordinal
   * (Greenkids) or a one-element tuple holding an ordinal (La Coccinelle Verte).
   */
  datatype MenuEntry<D> = MenuEntry(dow: string, date: D, description: string)

  /** A Python one-element tuple `(x,)`. */
  datatype Singleton<T> = Singleton(item: T)

  /** The exceptions the parsers raise, one constructor per cause. */
  datatype ExtractError =
    | WeekNumberMissing              // `re.search` found no week header, `.group` on None
    | YearMissing                    // no run of four digits
    | InvalidIsoWeek(cause: IsoError) // `date.fromisocalendar` raised ValueError
    | DateOverflow                   // `date + timedelta` left the range of `date`
    | TokenNotFound(token: string)   // `str.index` raised ValueError
    | DatePatternMissing             // the start-day variables were never bound
    | DayMissing(day: string)        // `str.split(day)[1]` raised IndexError
    | DateUnparsed                   // the start date did not parse, and adding days to None raised TypeError
}
