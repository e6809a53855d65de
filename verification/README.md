# Menu text extraction, modelled in Dafny

The menu parser turns the text of a canteen's weekly menu into a list of entries. Each entry has a weekday, a date and a description. Three providers publish their menus in three different layouts, and each has its own extraction routine:

- **CVER** (`extract_menus` in `cver.py`):
  - The text is normalised: line endings and no-break spaces are rewritten, and runs of blank lines are collapsed.
  - The week's start date is read from a "Semaine du D.M.YYYY au D.M.YYYY" header.
  - Boilerplate and legend lines are removed.
  - The text is cut into blocks. Each block starts at a line that begins with a weekday name.
  - Each block loses its leading day name and is tidied into the description.
  - A day gets a date only when the header was found.
- **Greenkids** (`extract_text` in `greenkids.py`, and its copy in `index.py`):
  - The week's Monday is the ISO Monday of "Semaine N° w" in the first four-digit year of the text.
  - Every weekday token that occurs gets the text between it and the next token in the list `LUNDI … VENDREDI, Allergies`.
- **La Coccinelle Verte** (`extract_text` in `lacoccinelleverte.py`, after the page's text is in hand):
  - A regular expression finds the start day, month and year.
  - Each of the five weekdays gets the text between its name and the next weekday's name.
  - The entries are dated on consecutive days from the parsed start date.

The Dafny modules follow that structure:

| file | module | what it holds |
|---|---|---|
| `wrappers.dfy` | `Wrappers` | `Option` and `Result` |
| `chars.dfy` | `Chars` | the character classes: whitespace as `str.isspace`, line breaks as `str.splitlines`, `\d`, `\w`, lower-casing |
| `str.dfy` | `Str` | the `str` operations the parsers use: `find`/`index`, `in`, `strip`, `split`, `splitlines`, `join`, slicing, case-insensitive comparison, digit runs |
| `calendar.dfy` | `Calendar` | `datetime.date` as proleptic Gregorian ordinals (1 is 0001-01-01), `+ timedelta`, `fromisocalendar` and its inverse `isocalendar` |
| `menu.dfy` | `Menu` | the menu entry and the errors a run can end with |
| `cver_normalize.dfy`, `cver_noise.dfy`, `cver_week.dfy`, `cver_tidy.dfy`, `cver.dfy` | `Cver*` | the four nested helpers of `extract_menus` and its body |
| `cver_spec.dfy` | `CverSpec` | properties of `extract_menus` |
| `greenkids.dfy`, `greenkids_spec.dfy` | `Greenkids`, `GreenkidsSpec` | Greenkids `extract_text` and its properties |
| `coccinelle.dfy`, `coccinelle_spec.dfy` | `Coccinelle`, `CoccinelleSpec` | La Coccinelle Verte `extract_text` and its properties |

Texts are `seq<char>`, and dates are `int` ordinals. When Python raises, the model returns a `Failure` carrying an `ExtractError` instead:

- Greenkids' `re.search` finding no week header (`WeekNumberMissing`) or no four-digit year (`YearMissing`), so `.group` is called on `None`;
- La Coccinelle Verte's date pattern finding nothing, so `if match:` (lacoccinelleverte.py:31) skips the assignments and `start_day` is still unbound at line 37 (`NameError`, `DatePatternMissing`);
- `int()` or `fromisocalendar` rejecting the week (`InvalidIsoWeek`);
- `str.index` not finding a token (`TokenNotFound`);
- `split(day)[1]` having no second piece (`IndexError`, `DayMissing`);
- `dateparser` not reading La Coccinelle Verte's start date, so `None + timedelta` raises `TypeError` at lacoccinelleverte.py:49 (`DateUnparsed`);
- a date stepping past 9999-12-31 (`OverflowError`, `DateOverflow`).

The regular expressions are modelled by functions that follow Python's backtracking order: leftmost start, lazy `.*?` that never crosses a newline, greedy `\d{1,2}` and `\w+` that give characters back. Each such function is sound (what it returns is a match of the pattern) and has a completeness lemma (any match the pattern allows makes it succeed, starting no later). Together they fix where the match starts, the same position as Python's. For La Coccinelle Verte they also fix where the first day group starts.

Some behaviour of the code is easy to misread. The model follows the code in each case:

- **Greenkids, missing next token.** For every weekday it finds, Greenkids looks up the very next token in the list, so `Allergies` closes only Friday's block. A menu with only `LUNDI`, `MARDI` and `Allergies` raises at `MARDI`, because `MERCREDI` is missing. `GreenkidsSpec.MissingNextFails` proves that any present day whose next token is absent makes the whole run fail.
- **Failures.** Greenkids and La Coccinelle Verte raise on malformed text. `GreenkidsSpec.ExtractTextFailure` and `CoccinelleSpec.ExtractTextFailure` state exactly when.
- **CVER legend lines.** The noise filter tests each line's stripped, lower-cased form, so a legend line such as "Rouge : porc" is removed only when the line itself starts with the legend. The same text after a weekday name on a header line stays in that day's description. `CverNoise.FilterNoiseClean` states what the filter guarantees.
- **La Coccinelle Verte dates.** The statement that sets each date ends in a comma, so each entry's `date` is a one-element tuple. The model keeps that shape with `Singleton`. The start date is parsed before the descriptions are built, but it is added to only afterwards. So a page with a missing weekday fails with that day's error even when the date did not parse.

## Model

| member | source | states |
|---|---|---|
| Greenkids.FindWeekHeader | functions/menu_parser/src/greenkids.py:46 | the search for "Semaine N° " followed by a digit returns the leftmost such position at or after its start, and reports none exactly when no position has the header |
| Greenkids.FindFourDigits | functions/menu_parser/src/greenkids.py:48 | `\d{4}` is found at the leftmost position where four digits start, or nowhere when no four digits occur |
| GreenkidsSpec.WeekNumberOfHeader | functions/menu_parser/src/greenkids.py:46 | when the first header in the text is followed by a run of digits, the week number is the decimal value of the whole run (`\d+` is greedy) |
| GreenkidsSpec.YearOfText | functions/menu_parser/src/greenkids.py:48 | the year is the value of the first four consecutive digits in the text, wherever they are |
| GreenkidsSpec.HeaderWeekAndYear | functions/menu_parser/src/greenkids.py:46-49 | for a header "Semaine N° w yyyy" with a week of at most three digits and no header or four digits before it, the week and year are the ones written, and the Monday resolves exactly when they form a valid ISO week, to the Monday whose ISO date is (yyyy, w, 1) |
| GreenkidsSpec.WeekMondayOf | functions/menu_parser/src/greenkids.py:49 | once the week and year are read, the Monday resolves exactly when they form a valid ISO week, and then to the Monday whose ISO date is (year, week, 1) |
| GreenkidsSpec.WeekMondayIsIsoMonday | functions/menu_parser/src/greenkids.py:49 | a resolved week start is a Monday, its ISO calendar date is (year, week, 1), and the week's Friday is still a representable date |
| GreenkidsSpec.WeekMondayFailure | functions/menu_parser/src/greenkids.py:46-49 | the week start fails with WeekNumberMissing exactly when no header occurs, with YearMissing exactly when a header occurs but no four digits do, and with InvalidIsoWeek exactly when the year is out of range, the week is not a week of that ISO year, or its Monday passes 9999-12-31 |
| GreenkidsSpec.DayStartSpec | functions/menu_parser/src/greenkids.py:53 | the start index of a present day is an occurrence of its token, and no earlier one exists |
| GreenkidsSpec.DayEndSpec | functions/menu_parser/src/greenkids.py:54 | when found, the next token lies after the whole day name, occurs there, and occurs nowhere between the day's start and that point |
| GreenkidsSpec.NextAfterName | functions/menu_parser/src/greenkids.py:54-57 | an occurrence of the next token after a day's occurrence cannot start inside the day's name, so the description slice is never inverted |
| GreenkidsSpec.Present | functions/menu_parser/src/greenkids.py:50-52 | the weekdays the loop handles are strictly increasing indices below five, each of whose token occurs in the text |
| GreenkidsSpec.PresentComplete | functions/menu_parser/src/greenkids.py:52 | every weekday whose token occurs in the text is handled by the loop |
| GreenkidsSpec.DayEntryIs | functions/menu_parser/src/greenkids.py:53-59 | a day's entry carries its token, the Monday plus the day's offset as date, and the stripped text between the end of its name and the next token |
| GreenkidsSpec.EntriesSpec | functions/menu_parser/src/greenkids.py:50-60 | a successful loop returns one entry per present weekday, in weekday order, each built as in DayEntryIs |
| GreenkidsSpec.DayEntryFailure | functions/menu_parser/src/greenkids.py:54 | for a Monday whose week fits the calendar, a present day fails exactly when the next token does not occur after it, and then with TokenNotFound of that token |
| GreenkidsSpec.EntriesFailure | functions/menu_parser/src/greenkids.py:50-59 | the loop fails exactly when some present day has no following token, and the error names the token missing after the first such day |
| GreenkidsSpec.ExtractTextSpec | functions/menu_parser/src/greenkids.py:44-60 | a successful extraction has resolved the ISO Monday of the week and year, and returns at most five entries, one per present weekday in order, each built as in DayEntryIs |
| GreenkidsSpec.ExtractTextFailure | functions/menu_parser/src/greenkids.py:44-60 | extraction fails exactly when the week start fails or some present day lacks its next token; after a good week start the error names the first such day's missing token; it never fails with a date overflow |
| GreenkidsSpec.MissingNextFails | functions/menu_parser/src/greenkids.py:54 | a present weekday whose next listed token is absent from the text makes the whole extraction fail |
| Coccinelle.MatchYear | functions/menu_parser/src/lacoccinelleverte.py:28 | a year found by `.*?(\d{4})` is four digits reached without crossing a newline |
| Coccinelle.TryMonth | functions/menu_parser/src/lacoccinelleverte.py:28 | a month found by backtracking `\w+` is a word starting at the given position, no longer than the full run, followed on the same line by a year |
| Coccinelle.MatchMonth | functions/menu_parser/src/lacoccinelleverte.py:28 | a result of `.*?(\w+).*?(\d{4})` is a match of that tail of the pattern |
| Coccinelle.EndDayAt | functions/menu_parser/src/lacoccinelleverte.py:28 | a second day group found at a digit starts there and is followed by a match of the rest of the pattern |
| Coccinelle.MatchEndDay | functions/menu_parser/src/lacoccinelleverte.py:28 | a result of `.*?(\d{1,2})` with the tail is a match of that part of the pattern |
| Coccinelle.StartDayAt | functions/menu_parser/src/lacoccinelleverte.py:28 | a first day group found at a digit yields a match of the whole pattern with that group position |
| Coccinelle.MatchStartDay | functions/menu_parser/src/lacoccinelleverte.py:28 | a match attempt begun at a position yields, if anything, a whole-pattern match begun there |
| Coccinelle.Search | functions/menu_parser/src/lacoccinelleverte.py:29 | a search result is a whole-pattern match begun at or after the search start |
| Coccinelle.DatePattern | functions/menu_parser/src/lacoccinelleverte.py:29 | a found date is a match of the whole pattern |
| Coccinelle.Descriptions | functions/menu_parser/src/lacoccinelleverte.py:41-46 | a successful comprehension yields one description per remaining weekday |
| Coccinelle.DateEntries | functions/menu_parser/src/lacoccinelleverte.py:48-49 | successful dating yields one entry per remaining weekday |
| CoccinelleSpec.MatchYearComplete | functions/menu_parser/src/lacoccinelleverte.py:28 | whenever four digits follow on the same line, the year search succeeds at or before them |
| CoccinelleSpec.TryMonthComplete | functions/menu_parser/src/lacoccinelleverte.py:28 | when some prefix of the word is followed by a year, the backtracking month search succeeds, with a month at least as long as that prefix |
| CoccinelleSpec.MatchMonthComplete | functions/menu_parser/src/lacoccinelleverte.py:28 | whenever the tail of the pattern matches, the lazy search finds a month starting no later |
| CoccinelleSpec.EndDayAtComplete | functions/menu_parser/src/lacoccinelleverte.py:28 | whenever the second day group can start at a position, the attempt there succeeds |
| CoccinelleSpec.MatchEndDayComplete | functions/menu_parser/src/lacoccinelleverte.py:28 | whenever the second day group and the tail match, the lazy search finds a second day starting no later |
| CoccinelleSpec.StartDayAtComplete | functions/menu_parser/src/lacoccinelleverte.py:28 | whenever the first day group can start at a position, the attempt there succeeds |
| CoccinelleSpec.MatchStartDayComplete | functions/menu_parser/src/lacoccinelleverte.py:28 | whenever the pattern matches from a start, the attempt from that start finds a first day no later |
| CoccinelleSpec.SearchComplete | functions/menu_parser/src/lacoccinelleverte.py:29 | whenever the pattern matches at or after a start, the search succeeds, starting no later |
| CoccinelleSpec.SearchIsAttempt | functions/menu_parser/src/lacoccinelleverte.py:29 | a search result is exactly what the attempt from its own start position returns |
| CoccinelleSpec.DatePatternSpec | functions/menu_parser/src/lacoccinelleverte.py:28-29 | `re.search` finds nothing exactly when no match exists; otherwise its match starts leftmost, and among matches from that start its first day group is leftmost |
| CoccinelleSpec.MatchInLine | functions/menu_parser/src/lacoccinelleverte.py:28 | a whole match, from its start to the end of its year, lies on one line |
| CoccinelleSpec.StartDayIsFirstDigit | functions/menu_parser/src/lacoccinelleverte.py:28-32 | the start day captured is the first digit after the match start: no digit lies between the start and the group |
| CoccinelleSpec.EarlierDigitMatches | functions/menu_parser/src/lacoccinelleverte.py:28 | any digit between a match's start and its first day group also begins a whole match from that start |
| CoccinelleSpec.SecondPiece | functions/menu_parser/src/lacoccinelleverte.py:42 | `text.split(day)[1]` is the text from the end of the day's first occurrence up to its second occurrence or the end of the text |
| CoccinelleSpec.CutDescription | functions/menu_parser/src/lacoccinelleverte.py:42 | when the next day's name occurs in that piece, the description ends at its first occurrence, which is the first stop after the day |
| CoccinelleSpec.UncutDescription | functions/menu_parser/src/lacoccinelleverte.py:42 | when the next day's name does not occur in that piece, the description runs to the day's second occurrence or the end of the text |
| CoccinelleSpec.LastDescription | functions/menu_parser/src/lacoccinelleverte.py:44 | Friday's description is the stripped text from the end of its first name up to its next occurrence or the end of the text |
| CoccinelleSpec.DescriptionOutcome | functions/menu_parser/src/lacoccinelleverte.py:42-44 | a weekday's description exists exactly when its name occurs in the text; otherwise the error is DayMissing of that day |
| CoccinelleSpec.DescriptionSpec | functions/menu_parser/src/lacoccinelleverte.py:42-44 | a present day's description is the stripped text from the end of its first name to the first stop: its own name again, the next day's name, or the end of the text |
| CoccinelleSpec.DescriptionsMissing | functions/menu_parser/src/lacoccinelleverte.py:41-46 | an absent weekday makes the comprehension from that day fail with its DayMissing |
| CoccinelleSpec.DescriptionsSpec | functions/menu_parser/src/lacoccinelleverte.py:41-46 | the comprehension succeeds exactly when every weekday's name occurs; otherwise it fails naming the first missing one; on success each description is that day's own |
| CoccinelleSpec.DateEntriesSpec | functions/menu_parser/src/lacoccinelleverte.py:48-49 | dating succeeds exactly when the start and the Friday are representable dates, fails otherwise with DateOverflow, and on success dates the i-th entry start plus i with the i-th day and description |
| CoccinelleSpec.ExtractTextSpec | functions/menu_parser/src/lacoccinelleverte.py:28-51 | a successful extraction has a date match and a parsed start, whose week fits the calendar, and lists the five weekdays in order with consecutive dates and their descriptions |
| CoccinelleSpec.ExtractTextFailure | functions/menu_parser/src/lacoccinelleverte.py:28-51 | the failures in the order the code meets them: no date match exactly when the pattern matches nowhere; then the first missing weekday; then an unparsed start; then overflow exactly when the week leaves the calendar |
| CverNormalize.ReplaceCrLfKeepsVisible | functions/menu_parser/src/cver.py:77 | rewriting "\r\n" and "\r" as "\n" leaves the non-whitespace text unchanged |
| CverNormalize.ReplaceCrLfIdentity | functions/menu_parser/src/cver.py:77 | a text without '\r' is unchanged by the line-ending rewrite |
| CverNormalize.ReplaceCrLfAppend | functions/menu_parser/src/cver.py:77 | `replace("\r\n", "\n")` works left to right without overlap: a text that does not end in '\r' is rewritten independently of what follows it |
| CverNormalize.ReplaceCrLfPair | functions/menu_parser/src/cver.py:77 | a "\r\n" pair becomes exactly one '\n' |
| CverNormalize.ReplaceCrLfLoneCr | functions/menu_parser/src/cver.py:77 | a '\r' that is not followed by '\n' is left as it is by the first replace |
| CverNormalize.UnifyLoneCr | functions/menu_parser/src/cver.py:77 | after the second replace, a lone '\r' has become exactly one '\n' |
| CverNormalize.ReplaceSpaceKeepsVisible | functions/menu_parser/src/cver.py:77 | replacing one whitespace character by another leaves the non-whitespace text unchanged |
| CverNormalize.CollapseAppend | functions/menu_parser/src/cver.py:79 | a text that does not end in '\n' is collapsed on its own: collapsing it followed by anything is collapsing each part |
| CverNormalize.CollapseRun | functions/menu_parser/src/cver.py:79 | a maximal run of n newlines becomes exactly two when n is at least three and stays as it is otherwise, and the text around it is collapsed on its own |
| CverNormalize.CollapseNoTriple | functions/menu_parser/src/cver.py:79 | no "\n\n\n" survives the collapse of newline runs |
| CverNormalize.CollapseIdentity | functions/menu_parser/src/cver.py:79 | a text without "\n\n\n" is unchanged by the collapse |
| CverNormalize.CollapseIdempotent | functions/menu_parser/src/cver.py:79 | collapsing twice is collapsing once |
| CverNormalize.CollapseKeepsVisible | functions/menu_parser/src/cver.py:79 | the collapse removes only newlines: the non-whitespace text is unchanged |
| CverNormalize.CollapseAddsNothing | functions/menu_parser/src/cver.py:79 | the collapse introduces no character other than '\n' that the text lacked |
| CverNormalize.NormalizeSpec | functions/menu_parser/src/cver.py:75-80 | a normalised text holds no '\r', no no-break space and no "\n\n\n" |
| CverNormalize.NormalizeKeepsVisible | functions/menu_parser/src/cver.py:75-80 | normalisation changes only whitespace |
| CverNormalize.NormalizeFixpoint | functions/menu_parser/src/cver.py:75-80 | a text with no '\r', no no-break space and no "\n\n\n" is its own normal form |
| CverNormalize.NormalizeIdempotent | functions/menu_parser/src/cver.py:75-80 | normalising twice is normalising once |
| CverNoise.StartsWithAnyIff | functions/menu_parser/src/cver.py:104 | `any(lsl.startswith(p) for p in ignore_starts)` holds exactly when some listed prefix starts the line |
| CverNoise.ContainsAnyIff | functions/menu_parser/src/cver.py:106 | `any(sub in lsl …)` holds exactly when some listed fragment occurs in the line |
| CverNoise.LineOutcomeSpec | functions/menu_parser/src/cver.py:99-108 | the loop body skips a line exactly when it is noise, and otherwise appends "" for a blank line or the line itself |
| CverNoise.FilterNoise | functions/menu_parser/src/cver.py:98-108 | the loop never produces more lines than it reads |
| CverNoise.FilterNoiseSingle | functions/menu_parser/src/cver.py:98-108 | a single noise line vanishes and any other line is kept in its kept form |
| CverNoise.FilterNoiseConcat | functions/menu_parser/src/cver.py:98-108 | the filter works line by line: filtering two lists one after the other gives the two results one after the other |
| CverNoise.FilterNoiseClean | functions/menu_parser/src/cver.py:98-108 | no line of the result is itself a noise line |
| CverNoise.KeptNotNoise | functions/menu_parser/src/cver.py:101-108 | what the loop keeps of a non-noise line is not noise either |
| CverNoise.FilterNoiseLines | functions/menu_parser/src/cver.py:98-108 | every line of the result is an input line or empty |
| CverNoise.RemoveNoiseLinesBreaks | functions/menu_parser/src/cver.py:98-109 | the only line boundary left after the filter and the join is '\n' |
| CverNoise.JoinNewlineOnly | functions/menu_parser/src/cver.py:109 | joining lines free of line breaks with "\n" leaves '\n' as the only line boundary |
| CverWeek.ShortNumberAt | functions/menu_parser/src/cver.py:114 | what `\d{1,2}[./]` captures: one or two digits, then '.' or '/', read as the number those digits spell |
| CverWeek.ShortNumberAtComplete | functions/menu_parser/src/cver.py:114 | whenever one or two digits and a separator follow the position, the match is found with that number and that separator; with the contract above, it fails exactly when no such match exists |
| CverWeek.DateAt | functions/menu_parser/src/cver.py:114 | a date group match is two short numbers each ending in a separator, then four digits, and the date it returns is the day, month and year those digits spell |
| CverWeek.DateAtComplete | functions/menu_parser/src/cver.py:114 | every date group at the position is found, with the date it spells and ending after its fourth year digit; with the contract above, it fails exactly when no date group starts there |
| CverWeek.AfterWord | functions/menu_parser/src/cver.py:114 | `word\s+` matches exactly when the word (ignoring case) and a whitespace character follow the position; the match then ends after the whole run of whitespace |
| CverWeek.FindWeekRangeLeftmost | functions/menu_parser/src/cver.py:113-119 | the header search finds nothing exactly when the pattern matches at no index; otherwise it returns the leftmost match's two dates |
| CverWeek.ReadDmy | functions/menu_parser/src/cver.py:122-127 | a parsed date is a representable ordinal |
| CverWeek.ReadDmyRoundTrip | functions/menu_parser/src/cver.py:122-127 | a parsed date, converted back to a calendar date, is the captured day, month and year |
| CverWeek.ReadDmyAbsent | functions/menu_parser/src/cver.py:122-127 | a captured date yields nothing exactly when no such calendar day exists |
| CverWeek.ParseWeekRange | functions/menu_parser/src/cver.py:111-128 | both returned dates, when present, are representable ordinals |
| CverWeek.DateAtFormatted | functions/menu_parser/src/cver.py:114 | a date written as `%d.%m.%Y` is read back as the same day, month and year, ending after its year |
| CverWeek.FindWeekRangeAt | functions/menu_parser/src/cver.py:113-117 | the search returns the match at a position when the pattern matches nowhere before it |
| CverWeek.ParseLaidOutWeekRange | functions/menu_parser/src/cver.py:111-128 | a text with "Semaine du D.M.YYYY au D.M.YYYY" laid out at some position, and no match before it, yields those two dates |
| CverWeek.ParseFormattedWeekRange | functions/menu_parser/src/cver.py:111-128 | round trip: writing a week header for two dates and reading it back gives those two dates, whatever follows it and whatever precedes it when no match starts earlier |
| CverTidy.CollapseSpacesSingle | functions/menu_parser/src/cver.py:135 | after `re.sub(r"\s+", " ", …)` the only whitespace is single plain spaces |
| CverTidy.CollapseSpacesVisible | functions/menu_parser/src/cver.py:135 | collapsing whitespace leaves the non-whitespace text unchanged |
| CverTidy.CollapseSpacesIdentity | functions/menu_parser/src/cver.py:135 | a single-spaced text is unchanged by the collapse |
| CverTidy.CollapseSpacesAppend | functions/menu_parser/src/cver.py:135 | a text that does not end in whitespace is collapsed independently of what follows it |
| CverTidy.CollapseSpacesRun | functions/menu_parser/src/cver.py:135 | a maximal whitespace run at the head of a text, of any length, becomes exactly one space |
| CverTidy.CollapseSpacesMiddle | functions/menu_parser/src/cver.py:135 | a maximal whitespace run between two pieces of text becomes exactly one space, and each piece is collapsed on its own |
| CverTidy.CleanLineSpec | functions/menu_parser/src/cver.py:135 | a cleaned line is single-spaced with no space at either end, and is empty exactly when the line was blank |
| CverTidy.CleanLineIdentity | functions/menu_parser/src/cver.py:135 | a clean line is its own cleaning |
| CverTidy.Dedup | functions/menu_parser/src/cver.py:137-142 | the `prev` loop never produces more lines than it reads |
| CverTidy.DedupFrom | functions/menu_parser/src/cver.py:137-142 | every kept line is an input line, no two neighbours in the result are equal, and the first kept line differs from `prev` |
| CverTidy.DedupEmpty | functions/menu_parser/src/cver.py:137-142 | nothing is kept only when every line repeats `prev` |
| CverTidy.DedupLast | functions/menu_parser/src/cver.py:137-142 | the input's last line is always the last kept line |
| CverTidy.DedupSnoc | functions/menu_parser/src/cver.py:137-142 | the loop one line at a time: a line is appended to the result exactly when it differs from the line before it (or from `prev` for the first line) |
| CverTidy.DedupIdentity | functions/menu_parser/src/cver.py:137-142 | lines without equal neighbours (and a first line unlike `prev`) are kept as they are |
| CverTidy.JoinNoTriple | functions/menu_parser/src/cver.py:144-145 | lines without line breaks and without equal neighbours join into a text with no "\n\n\n", so the final collapse has nothing to do |
| CverTidy.TidyLinesShape | functions/menu_parser/src/cver.py:133-142 | the tidied lines are clean, have no equal neighbours, and the first and last are non-empty |
| CverTidy.TidyIsJoin | functions/menu_parser/src/cver.py:130-146 | the tidied block is its tidied lines joined with "\n" |
| CverTidy.TidySpec | functions/menu_parser/src/cver.py:130-146 | the tidied block is tidy lines joined with "\n", it is stripped, and it holds no "\n\n\n" |
| CverTidy.TidyFixpoint | functions/menu_parser/src/cver.py:130-146 | tidy lines joined with "\n" are their own tidy form |
| CverTidy.TidyIdempotent | functions/menu_parser/src/cver.py:130-146 | tidying twice is tidying once |
| CverTidy.TidyFixpointIff | functions/menu_parser/src/cver.py:130-146 | a text is its own tidy form exactly when it is tidy lines joined with "\n" |
| Cver.DayFrom | functions/menu_parser/src/cver.py:165 | the alternation picks a listed day name that matches at the position ignoring case, and reports none only when no listed name does |
| Cver.DayAt | functions/menu_parser/src/cver.py:165 | the day group matches a day name at the position ignoring case, and fails only when none matches |
| Cver.LineEnd | functions/menu_parser/src/cver.py:165 | `.*$` stops at the first '\n' or the end of the text |
| Cver.HeaderAt | functions/menu_parser/src/cver.py:165 | a header match at a position starts there and has the shape of the pattern: line start, whitespace, a day name ending a word, the rest of the line |
| Cver.FindHeader | functions/menu_parser/src/cver.py:166 | each search of `finditer` returns the leftmost header match at or after its start, or none when there is none |
| Cver.Scan | functions/menu_parser/src/cver.py:166 | the matches are header matches at their starts, in order and without overlapping |
| Cver.ScanInOrder | functions/menu_parser/src/cver.py:166 | the list of matches is ordered |
| Cver.BlockEnd | functions/menu_parser/src/cver.py:172 | a block ends after its own header line and within the text |
| Cver.StripLeadingDay | functions/menu_parser/src/cver.py:175 | removing the leading day never lengthens the block |
| CverSpec.DayAtUnique | functions/menu_parser/src/cver.py:165 | whichever day name matches at a position is the one the alternation reports |
| CverSpec.HeaderLine | functions/menu_parser/src/cver.py:165 | a header match runs from the day name to a '\n' or the end of the text without crossing a line, and the name starts with non-whitespace |
| CverSpec.HeaderAtDayLine | functions/menu_parser/src/cver.py:165-166 | every header match sits on a day header line, one whose first non-whitespace starts a day name that ends a word |
| CverSpec.DayLineHeader | functions/menu_parser/src/cver.py:165-166 | every day header line is matched from the start of its line, with the name at the given position |
| CverSpec.ScanSound | functions/menu_parser/src/cver.py:166 | every match in the list is a day header line |
| CverSpec.ScanComplete | functions/menu_parser/src/cver.py:166 | every day header line after a line boundary where the scan starts is matched |
| CverSpec.ScanFinds | functions/menu_parser/src/cver.py:166 | every header match starting after the scan's start is found by the scan |
| CverSpec.DatesFromSpec | functions/menu_parser/src/cver.py:159-162 | building dates from a day on succeeds exactly when Friday is representable, fails otherwise with DateOverflow, and maps each day to the start plus its offset |
| CverSpec.DayToDateSpec | functions/menu_parser/src/cver.py:159-162 | `day_to_date` is empty without a start date; with one, it fails exactly when Friday would pass 9999-12-31, and otherwise maps each day to the start plus its offset |
| CverSpec.EntryDateOfWeek | functions/menu_parser/src/cver.py:181 | with the dates of a week, an entry is dated the start plus its header's day offset, or has no date when there is no start |
| CverSpec.CapitalizeDayName | functions/menu_parser/src/cver.py:180 | capitalising a day name gives its display name |
| CverSpec.DayTextLower | functions/menu_parser/src/cver.py:170 | the matched day name, lower-cased, is the listed day name |
| CverSpec.EntryDow | functions/menu_parser/src/cver.py:170-180 | an entry's day is the display name of its header's day |
| CverSpec.EntryDate | functions/menu_parser/src/cver.py:181 | an entry's date is what the dates map holds for its header's lower-case day name |
| CverSpec.DescribeTidy | functions/menu_parser/src/cver.py:176 | a description is stripped and holds no "\n\n\n" |
| CverSpec.BlocksFrom | functions/menu_parser/src/cver.py:171-173 | the blocks from the i-th on, put back together, are the text from the i-th match to the end |
| CverSpec.BlocksTile | functions/menu_parser/src/cver.py:171-173 | the blocks tile the text from the first match to the end: only what precedes the first header is dropped |
| CverSpec.StripLeadingDayAt | functions/menu_parser/src/cver.py:175 | when whitespace and then a day name open a block, that name and the whitespace after it are removed, and nothing more |
| CverSpec.BlockStartsWithDay | functions/menu_parser/src/cver.py:171-175 | each block starts with its header's day name after nothing but whitespace, so the leading day removed is the header's own |
| CverSpec.ExtractMenusOutcome | functions/menu_parser/src/cver.py:148-186 | `extract_menus` fails only when the week starts so late that Friday passes 9999-12-31, and then with an overflow; otherwise it returns one entry per header match of the cleaned text |
| CverSpec.ExtractMenusDow | functions/menu_parser/src/cver.py:170-180 | the i-th entry names the day of the i-th header match |
| CverSpec.ExtractMenusDate | functions/menu_parser/src/cver.py:181 | the i-th entry's date is what `day_to_date` holds for its day |
| CverSpec.ExtractMenusDescription | functions/menu_parser/src/cver.py:171-182 | the i-th entry's description is the i-th block's: stripped, with at most one blank line in a row |
| CverSpec.ExtractMenusEmpty | functions/menu_parser/src/cver.py:164-186 | the result is empty exactly when the cleaned text has no day header line |
| CverSpec.ExtractMenusCovers | functions/menu_parser/src/cver.py:164-186 | a position starts a day name on a day header line of the cleaned text exactly when some entry comes from the match there |
| Str.FindSpec | functions/menu_parser/src/greenkids.py:53-54 | `find`/`index` from a position returns the first occurrence at or after it, and nothing when there is none |
| Str.SplitFirst | functions/menu_parser/src/lacoccinelleverte.py:42 | the first piece of a split is the text before the separator's first occurrence, or the whole text |
| Str.SplitSecond | functions/menu_parser/src/lacoccinelleverte.py:42 | a split has a second piece exactly when the separator occurs, and that piece runs to the separator's next occurrence or the end |
| Str.SplitJoin | functions/menu_parser/src/lacoccinelleverte.py:42 | joining the pieces of a split with its separator gives back the text |
| Str.SplitLinesJoin | functions/menu_parser/src/cver.py:135-139 | lines free of line breaks, the last non-empty, come back from `splitlines` after a join with "\n" |
| Str.JoinSplitLines | functions/menu_parser/src/cver.py:133-139 | a text whose only line boundary is '\n' and that does not end in one is rebuilt by joining its `splitlines` with "\n" |
| Str.MatchesIgnoreCaseIff | functions/menu_parser/src/cver.py:165 | a case-insensitive match of a word at a position is the lower-cased slice equalling the word |
| Calendar.FromIsoCalendarSpec | functions/menu_parser/src/greenkids.py:49 | `fromisocalendar` succeeds exactly for a representable year, a week of that ISO year, a weekday 1 to 7 and a result not past 9999-12-31, and returns the day that far from the year's first ISO Monday |
| Calendar.IsoCalendarOfFromIsoCalendar | functions/menu_parser/src/greenkids.py:49 | round trip: the ISO calendar date of the day `fromisocalendar` returns is its arguments |
| Calendar.FromIsoCalendarOfIsoCalendar | functions/menu_parser/src/greenkids.py:49 | round trip: `fromisocalendar` of a day's ISO calendar date gives that day back |
| Calendar.FromIsoCalendarMonday | functions/menu_parser/src/greenkids.py:49 | weekday 1 of an ISO week is a Monday, and that week's Friday is representable |
| Calendar.Week1MondayMatchesPython | functions/menu_parser/src/greenkids.py:49 | the first ISO Monday used here equals the one CPython's `_isoweek1monday` computes |
| Calendar.AddDays | functions/menu_parser/src/greenkids.py:58 | adding days succeeds exactly when the result is representable, and then moves the date by that many days |
| Calendar.FromOrdinalToOrdinal | functions/menu_parser/src/cver.py:125 | a valid calendar date converts to an ordinal and back unchanged |

## Left out

- Fetching the pages and PDFs is left out: it is I/O. So are `pypdf` text extraction, BeautifulSoup clean-up of the HTML (lacoccinelleverte.py:14-24), the Appwrite database writes and the `main`/`get_menus` drivers. Each routine is modelled from the moment its text is in hand.
- `dateparser` is foreign code:
  - La Coccinelle Verte takes it as a parameter `parseDate` from the string `f"{start_day} {month} {year}"` to an optional ordinal.
  - CVER reads the two captured numeric dates as day.month.year and yields nothing for a day that does not exist. That is what `DATE_ORDER: "DMY"` does on such text.
  - Time zones and time of day play no part.
- The end date that `_parse_week_range` returns (cver.py:151) is computed and then never used. The model computes it too and proves nothing further about it.
- `date_text` (lacoccinelleverte.py:26) is computed and never used, so it is not modelled.
- The Python exception classes (AttributeError, ValueError, NameError, IndexError, TypeError, OverflowError) are not distinguished beyond the `ExtractError` value that names the cause.
- Unicode is covered only up to Latin-1:
  - `\w` is ASCII letters, digits, '_' and Latin-1 letters. Characters above U+00FF count as non-word.
  - `\d` is the ASCII digits.
  - `str.lower` and case-insensitive matching cover ASCII, plus the Latin-1 capitals for `lower`. Python's full Unicode case mappings go beyond that, such as U+0130 matching 'i'.
  - Whitespace is exactly the `str.isspace` set, and line breaks are exactly the `str.splitlines` set.
- Calendar.AddDays and the entry dates use ordinals, not `datetime.date` objects. A date is the same ordinal that `date.toordinal()` returns.
- CverWeek.ParseWeekRange: its own contract states only that the dates are representable. The full reading of a header is stated by CverWeek.FindWeekRangeLeftmost, CverWeek.ReadDmyRoundTrip and CverWeek.ParseFormattedWeekRange.
- CverNoise.FilterNoise and CverTidy.Dedup: their own contracts bound only the length. What they keep is stated by CverNoise.FilterNoiseSingle with CverNoise.FilterNoiseConcat, and by CverTidy.DedupSnoc.
- CverTidy.CollapseSpacesSingle: its own contract states only the shape of the result (single plain spaces). That each whitespace run becomes exactly one space is stated by CverTidy.CollapseSpacesRun, CverTidy.CollapseSpacesAppend and CverTidy.CollapseSpacesMiddle.
- Cver.StripLeadingDay: its own contract bounds only the length. What it removes is stated by CverSpec.StripLeadingDayAt and CverSpec.BlockStartsWithDay.
- CoccinelleSpec.DatePatternSpec: fixes where the date match and its first day group start. How many digits each greedy day group takes and where the month ends are bounded by the completeness lemmas but not pinned to Python's choice.
- Coccinelle.Descriptions and Coccinelle.DateEntries: their own contracts state only the length. Contents and failures are stated by CoccinelleSpec.DescriptionsSpec and CoccinelleSpec.DateEntriesSpec.
