/**
 * `_parse_week_range` of the CVER parser: the leftmost case-insensitive match of
 * `Semaine\s+du\s+(\d{1,2}[./]\d{1,2}[./]\d{4})\s+au\s+(\d{1,2}[./]\d{1,2}[./]\d{4})`,
 * each captured date read day-month-year.
 */
module CverWeek {
  import opened Wrappers
  import opened Chars
  import opened Str
  import opened Calendar

  /** A captured `d.m.yyyy` group, as the three numbers it spells. */
  datatype DmyText = DmyText(day: nat, month: nat, year: nat)

  predicate IsDateSep(c: char) {
    c == '.' || c == '/'
  }

  /** `\d{1,2}[./]` matches at `i` with its separator at `e`: one or two digits, then '.' or '/'. */
  predicate ShortNumberMatch(s: string, i: nat, e: nat) {
    i < e <= i + 2 && e < |s| && AllDigits(s[i..e]) && IsDateSep(s[e])
  }

  /**
   * `\d{1,2}` followed by `[./]` at `i`: the digits run to a separator after one
   * or two of them. A longer run fails, because neither alternative leaves a
   * separator after it. Returns the number and the index of the separator.
   */
  function ShortNumberAt(s: string, i: nat): (r: Option<(nat, nat)>)
    requires i <= |s|
    ensures r.Some? ==> ShortNumberMatch(s, i, r.value.1) && r.value.0 == DecimalValue(s[i..r.value.1])
  {
    var e := DigitRunEnd(s, i);
    if 1 <= e - i <= 2 && e < |s| && IsDateSep(s[e]) then Some((DecimalValue(s[i..e]), e)) else None
  }

  /** Every match of `\d{1,2}[./]` at `i` is found, with the number its digits spell. */
  lemma ShortNumberAtComplete(s: string, i: nat, e: nat)
    requires ShortNumberMatch(s, i, e)
    ensures ShortNumberAt(s, i) == Some((DecimalValue(s[i..e]), e))
  {
    forall j | i <= j < e
      ensures IsDigit(s[j])
    {
      assert s[i..e][j - i] == s[j];
    }
    DigitRunEndIs(s, i, e);
  }

  /** The date group `\d{1,2}[./]\d{1,2}[./]\d{4}` at `i`, with its separators at `sep1` and `sep2`. */
  predicate DateGroupAt(s: string, i: nat, sep1: nat, sep2: nat) {
    ShortNumberMatch(s, i, sep1) && ShortNumberMatch(s, sep1 + 1, sep2) && FourDigitsAt(s, sep2 + 1)
  }

  /** The day, month and year a date group spells. */
  function GroupDate(s: string, i: nat, sep1: nat, sep2: nat): DmyText
    requires DateGroupAt(s, i, sep1, sep2)
  {
    var y := sep2 + 1;
    DmyText(DecimalValue(s[i..sep1]), DecimalValue(s[sep1 + 1..sep2]), DecimalValue(s[y..y + 4]))
  }

  /**
   * The date group `\d{1,2}[./]\d{1,2}[./]\d{4}` at `i`: the date it spells and
   * the index just past its fourth year digit.
   */
  function DateAt(s: string, i: nat): (r: Option<(DmyText, nat)>)
    requires i <= |s|
    ensures r.Some? ==> exists sep1, sep2 ::
              DateGroupAt(s, i, sep1, sep2) && r.value == (GroupDate(s, i, sep1, sep2), sep2 + 5)
  {
    match ShortNumberAt(s, i)
    case None => None
    case Some((day, sep1)) =>
      match ShortNumberAt(s, sep1 + 1)
      case None => None
      case Some((month, sep2)) =>
        var y := sep2 + 1;
        if y + 4 <= |s| && AllDigits(s[y..y + 4]) then
          assert DateGroupAt(s, i, sep1, sep2);
          Some((DmyText(day, month, DecimalValue(s[y..y + 4])), y + 4))
        else None
  }

  /** Every date group at `i` is found, with the date it spells. */
  lemma DateAtComplete(s: string, i: nat, sep1: nat, sep2: nat)
    requires DateGroupAt(s, i, sep1, sep2)
    ensures DateAt(s, i) == Some((GroupDate(s, i, sep1, sep2), sep2 + 5))
  {
    ShortNumberAtComplete(s, i, sep1);
    ShortNumberAtComplete(s, sep1 + 1, sep2);
    var y := sep2 + 1;
    assert y + 4 <= |s| && AllDigits(s[y..y + 4]);
  }

  /** `\s+`: at least one whitespace character at `i`; the run ends where `SkipSpaces` stops. */
  predicate SpacesAt(s: string, i: nat)
    requires i <= |s|
  {
    SkipSpaces(s, i) > i
  }

  /** `word\s+` at `i`, ignoring case: the index where the whitespace run ends. */
  function AfterWord(s: string, i: nat, word: string): (r: Option<nat>)
    requires i <= |s|
    ensures r.Some? <==> MatchesIgnoreCase(s, i, word) && i + |word| < |s| && IsSpace(s[i + |word|])
    ensures r.Some? ==> i + |word| < r.value <= |s|
    ensures r.Some? ==> forall j :: i + |word| <= j < r.value ==> IsSpace(s[j])
    ensures r.Some? && r.value < |s| ==> !IsSpace(s[r.value])
  {
    if MatchesIgnoreCase(s, i, word) && SpacesAt(s, i + |word|) then Some(SkipSpaces(s, i + |word|)) else None
  }

  /**
   * The whole pattern, anchored at `i`. Every `\s+` must swallow its whole run,
   * since the next item starts with a non-space character. The first year must
   * be followed by whitespace, so a fifth digit fails the match; the second year
   * may be followed by anything.
   */
  function WeekRangeAt(s: string, i: nat): Option<(DmyText, DmyText)>
    requires i <= |s|
  {
    match AfterWord(s, i, "semaine")
    case None => None
    case Some(du) =>
      match AfterWord(s, du, "du")
      case None => None
      case Some(d1) =>
        match DateAt(s, d1)
        case None => None
        case Some((first, e)) =>
          if !SpacesAt(s, e) then None
          else
            match AfterWord(s, SkipSpaces(s, e), "au")
            case None => None
            case Some(d2) =>
              match DateAt(s, d2)
              case None => None
              case Some((second, _)) => Some((first, second))
  }

  /** The outcome of trying the pattern at every index of `s`, the end included. */
  function Attempts(s: string): (r: seq<Option<(DmyText, DmyText)>>)
    ensures |r| == |s| + 1
    ensures forall i :: 0 <= i <= |s| ==> r[i] == WeekRangeAt(s, i)
  {
    seq(|s| + 1, i requires 0 <= i <= |s| => WeekRangeAt(s, i))
  }

  /** `re.search`: the match at the leftmost index where the pattern matches. */
  function FindWeekRange(s: string): Option<(DmyText, DmyText)>
  {
    match FirstSome(Attempts(s), 0)
    case None => None
    case Some(i) => Attempts(s)[i]
  }

  /** `dateparser.parse(text, settings={"DATE_ORDER": "DMY"}).date()`, for a numeric date: absent when no such day exists. */
  function ReadDmy(d: DmyText): (r: Option<int>)
    ensures r.Some? ==> 1 <= r.value <= MaxOrdinal
  {
    var date := Date(d.year, d.month, d.day);
    if IsValidDate(date) then Some(ToOrdinal(date)) else None
  }

  /** `_parse_week_range`: the start and end ordinals, each absent when it is not a valid date or nothing matched. */
  function ParseWeekRange(s: string): (r: (Option<int>, Option<int>))
    ensures r.0.Some? ==> 1 <= r.0.value <= MaxOrdinal
    ensures r.1.Some? ==> 1 <= r.1.value <= MaxOrdinal
  {
    match FindWeekRange(s)
    case None => (None, None)
    case Some((first, second)) => (ReadDmy(first), ReadDmy(second))
  }

  // ---------------------------------------------------------------------
  // Properties

  /** The search finds nothing exactly when the pattern matches nowhere; otherwise it returns the leftmost match. */
  lemma FindWeekRangeLeftmost(s: string)
    ensures FindWeekRange(s).None? <==> forall j :: 0 <= j <= |s| ==> WeekRangeAt(s, j).None?
    ensures FindWeekRange(s).Some? ==>
              exists i :: 0 <= i <= |s| && FindWeekRange(s) == WeekRangeAt(s, i) &&
                          forall j :: 0 <= j < i ==> WeekRangeAt(s, j).None?
  {
    var xs := Attempts(s);
    match FirstSome(xs, 0)
    case None =>
    case Some(i) =>
      assert forall j :: 0 <= j < i ==> WeekRangeAt(s, j).None? by {
        forall j | 0 <= j < i
          ensures WeekRangeAt(s, j).None?
        {
          assert xs[j].None?;
        }
      }
  }

  /** A date read from the header is that calendar day: converting the ordinal back gives the captured numbers. */
  lemma ReadDmyRoundTrip(d: DmyText)
    requires ReadDmy(d).Some?
    ensures FromOrdinal(ReadDmy(d).value) == Date(d.year, d.month, d.day)
  {
    FromOrdinalToOrdinal(Date(d.year, d.month, d.day));
  }

  /** A captured date is absent exactly when no such calendar day exists. */
  lemma ReadDmyAbsent(d: DmyText)
    ensures ReadDmy(d).None? <==> !IsValidDate(Date(d.year, d.month, d.day))
  {
  }

  // ---------------------------------------------------------------------
  // Writing a header and reading it back

  function DigitChar(n: nat): (c: char)
    requires n < 10
    ensures IsDigit(c) && DigitValue(c) == n
  {
    (n + '0' as int) as char
  }

  /** `n` as two digits, zero-padded (`%02d`). */
  function TwoDigits(n: nat): (r: string)
    requires n < 100
    ensures |r| == 2 && AllDigits(r)
  {
    [DigitChar(n / 10), DigitChar(n % 10)]
  }

  /** `n` as four digits, zero-padded (`%04d`). */
  function FourDigits(n: nat): (r: string)
    requires n < 10000
    ensures |r| == 4 && AllDigits(r)
  {
    [DigitChar(n / 1000), DigitChar(n / 100 % 10), DigitChar(n / 10 % 10), DigitChar(n % 10)]
  }

  /** Appending a digit shifts the value one decimal place. */
  lemma DecimalValueSnoc(r: string, c: char)
    requires AllDigits(r) && IsDigit(c)
    ensures AllDigits(r + [c])
    ensures DecimalValue(r + [c]) == DecimalValue(r) * 10 + DigitValue(c)
  {
    assert (r + [c])[..|r|] == r;
  }

  lemma TwoDigitsValue(n: nat)
    requires n < 100
    ensures DecimalValue(TwoDigits(n)) == n
  {
    var a := DigitChar(n / 10);
    var b := DigitChar(n % 10);
    DecimalValueSnoc([], a);
    assert [] + [a] == [a];
    DecimalValueSnoc([a], b);
    assert TwoDigits(n) == [a] + [b];
  }

  /** Dropping two decimal places is dropping one twice, and likewise for three. */
  lemma DivTens(n: nat)
    ensures n / 100 == n / 10 / 10 && n / 1000 == n / 100 / 10
  {
    var q1 := n / 10;
    var q2 := q1 / 10;
    var q3 := q2 / 10;
    assert n == q2 * 100 + (q1 % 10) * 10 + n % 10;
    assert n == q3 * 1000 + (q2 % 10) * 100 + (q1 % 10) * 10 + n % 10;
  }

  lemma FourDigitsValue(n: nat)
    requires n < 10000
    ensures DecimalValue(FourDigits(n)) == n
  {
    DivTens(n);
    var a := DigitChar(n / 1000);
    var b := DigitChar(n / 100 % 10);
    var c := DigitChar(n / 10 % 10);
    var d := DigitChar(n % 10);
    DecimalValueSnoc([], a);
    assert [] + [a] == [a];
    DecimalValueSnoc([a], b);
    assert [a] + [b] == [a, b];
    assert DecimalValue([a, b]) == n / 100;
    DecimalValueSnoc([a, b], c);
    assert [a, b] + [c] == [a, b, c];
    assert DecimalValue([a, b, c]) == n / 10;
    DecimalValueSnoc([a, b, c], d);
    assert FourDigits(n) == [a, b, c] + [d];
  }

  /** `d.strftime("%d.%m.%Y")`. */
  function FormatDate(d: Date): (r: string)
    requires IsValidDate(d)
    ensures |r| == 10
  {
    TwoDigits(d.day) + "." + TwoDigits(d.month) + "." + FourDigits(d.year)
  }

  /** The header line as the menus print it. */
  function FormatWeekRange(first: Date, last: Date): string
    requires IsValidDate(first) && IsValidDate(last)
  {
    "Semaine du " + FormatDate(first) + " au " + FormatDate(last)
  }

  /** A formatted date is read back as the same three numbers, ending after its year. */
  lemma DateAtFormatted(s: string, i: nat, d: Date)
    requires IsValidDate(d)
    requires i + 10 <= |s| && s[i..i + 10] == FormatDate(d)
    ensures DateAt(s, i) == Some((DmyText(d.day, d.month, d.year), i + 10))
  {
    var f := FormatDate(d);
    assert s[i..i + 2] == TwoDigits(d.day) && s[i + 2] == '.' by {
      assert f[..2] == f[0..2] == TwoDigits(d.day) && f[2] == '.';
      SliceOfSlice(s, i, i + 10, 0, 2);
      assert s[i + 2] == s[i..i + 10][2];
    }
    assert s[i + 3..i + 5] == TwoDigits(d.month) && s[i + 5] == '.' by {
      assert f[3..5] == TwoDigits(d.month) && f[5] == '.';
      SliceOfSlice(s, i, i + 10, 3, 5);
      assert s[i + 5] == s[i..i + 10][5];
    }
    assert s[i + 6..i + 10] == FourDigits(d.year) by {
      assert f[6..10] == FourDigits(d.year);
      SliceOfSlice(s, i, i + 10, 6, 10);
    }
    assert DateGroupAt(s, i, i + 2, i + 5);
    DateAtComplete(s, i, i + 2, i + 5);
    TwoDigitsValue(d.day);
    TwoDigitsValue(d.month);
    FourDigitsValue(d.year);
  }

  /** The literal `lit` and one whitespace character at `i`, before a non-space one: `word\s+` ends right after that space. */
  lemma AfterWordAt(s: string, i: nat, lit: string, word: string)
    requires i + |lit| + 1 < |s| && s[i..i + |lit|] == lit && LowerStr(lit) == word
    requires IsSpace(s[i + |lit|]) && !IsSpace(s[i + |lit| + 1])
    ensures AfterWord(s, i, word) == Some(i + |lit| + 1)
  {
    MatchesIgnoreCaseIff(s, i, word);
    assert SkipSpaces(s, i + |lit| + 1) == i + |lit| + 1;
  }

  /** The pattern matches at `i` once each of its pieces is found where the previous one ends. */
  lemma WeekRangeAtIntro(s: string, i: nat, du: nat, d1: nat, e: nat, d2: nat, e2: nat,
                         first: DmyText, second: DmyText)
    requires i <= |s| && AfterWord(s, i, "semaine") == Some(du)
    requires AfterWord(s, du, "du") == Some(d1)
    requires DateAt(s, d1) == Some((first, e))
    requires SpacesAt(s, e) && AfterWord(s, SkipSpaces(s, e), "au") == Some(d2)
    requires DateAt(s, d2) == Some((second, e2))
    ensures WeekRangeAt(s, i) == Some((first, second))
  {
  }

  /** The layout of a formatted header at `o`: the words, the single spaces and the two dates at fixed offsets. */
  predicate HeaderLayout(s: string, o: nat, first: Date, last: Date)
    requires IsValidDate(first) && IsValidDate(last)
  {
    && |s| >= o + 35
    && s[o..o + 7] == "Semaine" && s[o + 7] == ' '
    && s[o + 8..o + 10] == "du" && s[o + 10] == ' '
    && s[o + 11..o + 21] == FormatDate(first) && s[o + 21] == ' '
    && s[o + 22..o + 24] == "au" && s[o + 24] == ' '
    && s[o + 25..o + 35] == FormatDate(last)
  }

  lemma FormattedLayout(first: Date, last: Date, rest: string)
    requires IsValidDate(first) && IsValidDate(last)
    ensures HeaderLayout(FormatWeekRange(first, last) + rest, 0, first, last)
  {
    var a, b := FormatDate(first), FormatDate(last);
    var s := FormatWeekRange(first, last) + rest;
    assert s == "Semaine du " + a + " au " + b + rest;
    assert s[0..7] == "Semaine" && s[8..10] == "du" && s[22..24] == "au" by {
      assert forall j :: 0 <= j < 11 ==> s[j] == "Semaine du "[j];
      assert forall j :: 21 <= j < 25 ==> s[j] == " au "[j - 21];
    }
    assert s[11..21] == a by {
      assert forall j :: 11 <= j < 21 ==> s[j] == a[j - 11];
    }
    assert s[25..35] == b by {
      assert forall j :: 25 <= j < 35 ==> s[j] == b[j - 25];
    }
  }

  /** A slice of `u` is the same slice of `pre + u`, moved by `|pre|`. */
  lemma SliceAfter(pre: string, u: string, a: nat, b: nat)
    requires a <= b <= |u|
    ensures (pre + u)[|pre| + a..|pre| + b] == u[a..b]
  {
  }

  /** The layout survives any text put in front of it. */
  lemma LayoutAfter(pre: string, u: string, first: Date, last: Date)
    requires IsValidDate(first) && IsValidDate(last) && HeaderLayout(u, 0, first, last)
    ensures HeaderLayout(pre + u, |pre|, first, last)
  {
    SliceAfter(pre, u, 0, 7);
    SliceAfter(pre, u, 8, 10);
    SliceAfter(pre, u, 11, 21);
    SliceAfter(pre, u, 22, 24);
    SliceAfter(pre, u, 25, 35);
  }

  /** A word written `lit`, one space, then a visible character at `i`: `word\s+` ends right after the space. */
  lemma WordThenSpace(s: string, i: nat, lit: string, word: string)
    requires i + |lit| + 1 < |s| && s[i..i + |lit|] == lit && LowerStr(lit) == word
    requires s[i + |lit|] == ' ' && ('0' <= s[i + |lit| + 1] <= 'z')
    ensures AfterWord(s, i, word) == Some(i + |lit| + 1)
  {
    AfterWordAt(s, i, lit, word);
  }

  lemma LaidOutWords(s: string, o: nat, first: Date, last: Date)
    requires IsValidDate(first) && IsValidDate(last) && HeaderLayout(s, o, first, last)
    ensures AfterWord(s, o, "semaine") == Some(o + 8) && AfterWord(s, o + 8, "du") == Some(o + 11)
    ensures SpacesAt(s, o + 21) && SkipSpaces(s, o + 21) == o + 22 && AfterWord(s, o + 22, "au") == Some(o + 25)
  {
    assert s[o + 8] == s[o + 8..o + 10][0] && s[o + 22] == s[o + 22..o + 24][0];
    assert s[o + 11] == FormatDate(first)[0] && s[o + 25] == FormatDate(last)[0];
    assert LowerStr("Semaine") == "semaine";
    WordThenSpace(s, o, "Semaine", "semaine");
    assert LowerStr("du") == "du";
    WordThenSpace(s, o + 8, "du", "du");
    assert LowerStr("au") == "au";
    WordThenSpace(s, o + 22, "au", "au");
    assert SkipSpaces(s, o + 22) == o + 22;
  }

  lemma LaidOutDates(s: string, o: nat, first: Date, last: Date)
    requires IsValidDate(first) && IsValidDate(last) && HeaderLayout(s, o, first, last)
    ensures DateAt(s, o + 11) == Some((DmyText(first.day, first.month, first.year), o + 21))
    ensures DateAt(s, o + 25) == Some((DmyText(last.day, last.month, last.year), o + 35))
  {
    DateAtFormatted(s, o + 11, first);
    DateAtFormatted(s, o + 25, last);
  }

  /** The search returns the match at `o` when the pattern matches nowhere before it. */
  lemma FindWeekRangeAt(s: string, o: nat)
    requires o <= |s| && WeekRangeAt(s, o).Some?
    requires forall j :: 0 <= j < o ==> WeekRangeAt(s, j).None?
    ensures FindWeekRange(s) == WeekRangeAt(s, o)
  {
    var xs := Attempts(s);
    forall j | 0 <= j < o
      ensures xs[j].None?
    {
      assert xs[j] == WeekRangeAt(s, j);
    }
    FirstSomeIs(xs, 0, o);
  }

  lemma ParseLaidOutWeekRange(s: string, o: nat, first: Date, last: Date)
    requires IsValidDate(first) && IsValidDate(last) && HeaderLayout(s, o, first, last)
    requires forall j :: 0 <= j < o ==> WeekRangeAt(s, j).None?
    ensures ParseWeekRange(s) == (Some(ToOrdinal(first)), Some(ToOrdinal(last)))
  {
    LaidOutWords(s, o, first, last);
    LaidOutDates(s, o, first, last);
    var m := (DmyText(first.day, first.month, first.year), DmyText(last.day, last.month, last.year));
    WeekRangeAtIntro(s, o, o + 8, o + 11, o + 21, o + 25, o + 35, m.0, m.1);
    FindWeekRangeAt(s, o);
  }

  /**
   * Reading a formatted header back gives the two dates it was written from,
   * whatever follows it and whatever precedes it, as long as the pattern
   * matches nowhere earlier.
   */
  lemma ParseFormattedWeekRange(pre: string, first: Date, last: Date, rest: string)
    requires IsValidDate(first) && IsValidDate(last)
    requires forall j :: 0 <= j < |pre| ==> WeekRangeAt(pre + FormatWeekRange(first, last) + rest, j).None?
    ensures ParseWeekRange(pre + FormatWeekRange(first, last) + rest) ==
              (Some(ToOrdinal(first)), Some(ToOrdinal(last)))
  {
    var u := FormatWeekRange(first, last) + rest;
    FormattedLayout(first, last, rest);
    LayoutAfter(pre, u, first, last);
    assert pre + FormatWeekRange(first, last) + rest == pre + u;
    ParseLaidOutWeekRange(pre + u, |pre|, first, last);
  }
}
