/**
 * Calendar dates as Python's `datetime.date` holds them, the texts that
 * `datetime.strptime` reads with the formats "%Y-%m-%d" (fixed-width
 * `YYYY-MM-DD` only) and "%Y-%m" (`YYYY-MM`, or `YYYY-M` for months below
 * 10), and the ISO text `str(date)` writes.
 */
module Calendar {
  import opened Wrappers
  import opened Text

  datatype Date = Date(year: nat, month: nat, day: nat)

  /** A year and month, the key that `strftime('%Y-%m', date)` produces. */
  datatype YearMonth = YearMonth(year: nat, month: nat)

  /** Gregorian leap years, as `calendar.isleap` decides them. */
  predicate IsLeapYear(y: int) {
    y % 4 == 0 && (y % 100 != 0 || y % 400 == 0)
  }

  function DaysInMonth(y: int, m: int): (n: int)
    requires 1 <= m <= 12
    ensures 28 <= n <= 31
    ensures n < 30 <==> m == 2
    ensures m == 2 ==> (n == 29 <==> IsLeapYear(y))
    ensures n == 30 <==> m == 4 || m == 6 || m == 9 || m == 11
  {
    if m == 2 then (if IsLeapYear(y) then 29 else 28)
    else if m == 4 || m == 6 || m == 9 || m == 11 then 30
    else 31
  }

  /** The dates a Python `date` can hold: years 1 to 9999 and a real day of the month. */
  predicate ValidDate(d: Date) {
    1 <= d.year <= 9999 && 1 <= d.month <= 12 && 1 <= d.day <= DaysInMonth(d.year, d.month)
  }

  predicate ValidYearMonth(ym: YearMonth) {
    1 <= ym.year <= 9999 && 1 <= ym.month <= 12
  }

  /** Chronological order of dates (`a <= b`). */
  predicate DateLe(a: Date, b: Date) {
    a.year < b.year
    || (a.year == b.year && (a.month < b.month || (a.month == b.month && a.day <= b.day)))
  }

  /** Strict chronological order (`a < b`). */
  predicate DateLt(a: Date, b: Date) {
    !DateLe(b, a)
  }

  /** `DateLe` is a total order. */
  lemma DateLeTotalOrder(a: Date, b: Date, c: Date)
    ensures DateLe(a, a)
    ensures DateLe(a, b) || DateLe(b, a)
    ensures DateLe(a, b) && DateLe(b, a) ==> a == b
    ensures DateLe(a, b) && DateLe(b, c) ==> DateLe(a, c)
  {
  }

  function MonthOf(d: Date): YearMonth {
    YearMonth(d.year, d.month)
  }

  /** `str(d)`, i.e. `d.isoformat()`: `YYYY-MM-DD`. */
  function FormatDate(d: Date): (s: string)
    ensures |s| == 10 && s[4] == '-' && s[7] == '-'
  {
    PadDigits(d.year, 4) + "-" + PadDigits(d.month, 2) + "-" + PadDigits(d.day, 2)
  }

  /** `strftime('%Y-%m', ...)`: `YYYY-MM`. */
  function FormatYearMonth(ym: YearMonth): (s: string)
    ensures |s| == 7 && s[4] == '-'
  {
    PadDigits(ym.year, 4) + "-" + PadDigits(ym.month, 2)
  }

  /** `datetime.strptime(s, "%Y-%m-%d").date()` in its strict fixed-width form; `None` stands for `ValueError`. */
  function ParseDate(s: string): (r: Option<Date>)
    ensures r.Some? ==> ValidDate(r.value) && |s| == 10
  {
    if |s| == 10 && s[4] == '-' && s[7] == '-'
       && AllDigits(s[..4]) && AllDigits(s[5..7]) && AllDigits(s[8..])
    then
      var d := Date(NumberValue(s[..4]), NumberValue(s[5..7]), NumberValue(s[8..]));
      if ValidDate(d) then Some(d) else None
    else
      None
  }

  /**
   * `datetime.strptime(s, "%Y-%m")`: four year digits, a dash and the month,
   * which `%m` reads with or without its leading zero (`2025-07` and `2025-7`
   * alike). `None` stands for `ValueError`.
   */
  function ParseYearMonth(s: string): (r: Option<YearMonth>)
    ensures r.Some? ==> ValidYearMonth(r.value) && (|s| == 6 || |s| == 7)
  {
    if (|s| == 6 || |s| == 7) && s[4] == '-' && AllDigits(s[..4]) && AllDigits(s[5..]) then
      var ym := YearMonth(NumberValue(s[..4]), NumberValue(s[5..]));
      if ValidYearMonth(ym) then Some(ym) else None
    else
      None
  }

  /** A month before October written without its leading zero, as `%m` also reads it: `2025-7`. */
  function FormatYearMonthUnpadded(ym: YearMonth): (s: string)
    requires 1 <= ym.month <= 9
    ensures |s| == 6
  {
    PadDigits(ym.year, 4) + "-" + [DigitChar(ym.month)]
  }

  lemma Pow10Values()
    ensures Pow10(2) == 100 && Pow10(4) == 10000
  {
    assert Pow10(1) == 10;
    assert Pow10(3) == 1000;
  }

  /** The parts of a formatted date sit at their fixed offsets. */
  lemma FormatDateParts(d: Date)
    ensures var s := FormatDate(d);
            s[4] == '-' && s[7] == '-'
            && s[..4] == PadDigits(d.year, 4) && s[5..7] == PadDigits(d.month, 2) && s[8..] == PadDigits(d.day, 2)
  {
  }

  /**
   * `ParseDate` accepts exactly the ISO text of valid dates: it yields `d`
   * if and only if `d` is a valid date and `s` is its `YYYY-MM-DD` form.
   * So the text of a day past the end of its month, or of a month 13, is rejected.
   */
  lemma ParseDateExact(s: string, d: Date)
    ensures ParseDate(s) == Some(d) <==> ValidDate(d) && s == FormatDate(d)
  {
    Pow10Values();
    if ParseDate(s) == Some(d) {
      PadDigitsOfNumber(s[..4]);
      PadDigitsOfNumber(s[5..7]);
      PadDigitsOfNumber(s[8..]);
      assert s == s[..4] + "-" + s[5..7] + "-" + s[8..];
    }
    if ValidDate(d) && s == FormatDate(d) {
      FormatDateParts(d);
    }
  }

  /**
   * Writing any year, month and day in `YYYY-MM-DD` form and reading it
   * back yields that date exactly when it is a real calendar date.
   */
  lemma ParseFormattedDate(d: Date)
    requires 1 <= d.year <= 9999 && d.month < 100 && d.day < 100
    ensures ParseDate(FormatDate(d)) == if ValidDate(d) then Some(d) else None
  {
    Pow10Values();
    FormatDateParts(d);
  }

  /** February 29 exists exactly in leap years: `2024-02-29` is read, `2023-02-29` is refused. */
  lemma FebruaryTwentyNinth(y: nat)
    requires 1 <= y <= 9999
    ensures ParseDate(FormatDate(Date(y, 2, 29))).Some? <==> IsLeapYear(y)
  {
    ParseFormattedDate(Date(y, 2, 29));
  }

  /** The 29th of February is read in 2024 and in the century leap year 2000. */
  lemma LeapDayRead(y: nat)
    requires y == 2024 || y == 2000
    ensures ParseDate(FormatDate(Date(y, 2, 29))) == Some(Date(y, 2, 29))
  {
    assert IsLeapYear(y);
    FormatDateRoundTrip(Date(y, 2, 29));
  }

  /** The 29th of February is refused in 2023 and in the century year 1900. */
  lemma LeapDayRefused(y: nat)
    requires y == 2023 || y == 1900
    ensures ParseDate(FormatDate(Date(y, 2, 29))).None?
  {
    assert !IsLeapYear(y);
    ParseFormattedDate(Date(y, 2, 29));
  }

  /** The year of the test data written as `%Y` writes it. */
  lemma YearDigits()
    ensures PadDigits(2025, 4) == "2025"
  {
    assert PadDigits(2, 1) == "2";
    assert PadDigits(20, 2) == "20";
    assert PadDigits(202, 3) == "202";
  }

  /** Writing a valid date and reading it back gives the same date. */
  lemma FormatDateRoundTrip(d: Date)
    requires ValidDate(d)
    ensures ParseDate(FormatDate(d)) == Some(d)
  {
    ParseDateExact(FormatDate(d), d);
  }

  /**
   * `ParseYearMonth` accepts exactly the `YYYY-MM` text of a valid year and
   * month, and for January to September also the text without the month's
   * leading zero.
   */
  lemma ParseYearMonthExact(s: string, ym: YearMonth)
    ensures ParseYearMonth(s) == Some(ym)
            <==> ValidYearMonth(ym)
                 && (s == FormatYearMonth(ym) || (ym.month <= 9 && s == FormatYearMonthUnpadded(ym)))
  {
    if ParseYearMonth(s) == Some(ym) {
      ParsedYearMonthText(s);
    }
    if ValidYearMonth(ym) && s == FormatYearMonth(ym) {
      PaddedYearMonthParsed(ym);
    }
    if ValidYearMonth(ym) && ym.month <= 9 && s == FormatYearMonthUnpadded(ym) {
      UnpaddedYearMonthParsed(ym);
    }
  }

  /** An accepted month text is one of the two forms of the year-month it is read as. */
  lemma ParsedYearMonthText(s: string)
    requires ParseYearMonth(s).Some?
    ensures var ym := ParseYearMonth(s).value;
            s == FormatYearMonth(ym) || (ym.month <= 9 && s == FormatYearMonthUnpadded(ym))
  {
    var ym := ParseYearMonth(s).value;
    Pow10Values();
    PadDigitsOfNumber(s[..4]);
    assert s == s[..4] + "-" + s[5..];
    if |s| == 7 {
      PadDigitsOfNumber(s[5..]);
    } else {
      assert s[5..] == [s[5]] && s[5..][..0] == [];
      assert [DigitChar(ym.month)] == s[5..];
    }
  }

  lemma PaddedYearMonthParsed(ym: YearMonth)
    requires ValidYearMonth(ym)
    ensures ParseYearMonth(FormatYearMonth(ym)) == Some(ym)
  {
    Pow10Values();
    var t := FormatYearMonth(ym);
    assert t[..4] == PadDigits(ym.year, 4) && t[5..] == PadDigits(ym.month, 2);
  }

  lemma UnpaddedYearMonthParsed(ym: YearMonth)
    requires ValidYearMonth(ym) && ym.month <= 9
    ensures ParseYearMonth(FormatYearMonthUnpadded(ym)) == Some(ym)
  {
    Pow10Values();
    var t := FormatYearMonthUnpadded(ym);
    assert t[..4] == PadDigits(ym.year, 4) && t[5..] == [DigitChar(ym.month)];
    assert t[5..][..0] == [];
  }

  /** Formatting is injective on valid year-months, so text equality of two keys means equal year and month. */
  lemma FormatYearMonthInjective(a: YearMonth, b: YearMonth)
    requires ValidYearMonth(a) && ValidYearMonth(b)
    ensures FormatYearMonth(a) == FormatYearMonth(b) <==> a == b
  {
    if FormatYearMonth(a) == FormatYearMonth(b) {
      ParseYearMonthExact(FormatYearMonth(a), a);
      ParseYearMonthExact(FormatYearMonth(b), b);
    }
  }
}
