/** The dates the dispatchers compare against their tables: the Gregorian
    calendar that `new Date(year, month - 1, day)` follows, the `YYYY-MM-DD`
    keys of `redirect-script.js` and the recurring `MM-DD` keys of
    `landing-page-gtm-tag.js`, how each script validates a `simulate-date`
    parameter, and how each writes today's key. */
module Calendar {
  import opened Text

  /** A civil date as `getFullYear()`, `getMonth() + 1` and `getDate()` give
      it. */
  datatype Date = Date(year: int, month: int, day: int)

  predicate IsLeapYear(y: int)
  {
    (y % 4 == 0 && y % 100 != 0) || y % 400 == 0
  }

  function DaysInMonth(y: int, m: int): (n: int)
    requires 1 <= m <= 12
    ensures 28 <= n <= 31
    ensures n == 29 <==> m == 2 && IsLeapYear(y)
  {
    if m == 2 then (if IsLeapYear(y) then 29 else 28)
    else if m == 4 || m == 6 || m == 9 || m == 11 then 30
    else 31
  }

  /** A date the calendar has; the clock only ever reports such dates. */
  predicate IsCalendarDate(d: Date)
  {
    1 <= d.month <= 12 && 1 <= d.day <= DaysInMonth(d.year, d.month)
  }

  /** `new Date(y, m - 1, d)` read back as year, month and day, for a month in
      1..12 and a day in 1..31 (the only arguments the scripts pass): a day
      past the end of the month rolls over into the next month. December has
      31 days, so the year never changes. */
  function Normalize(y: int, m: int, d: int): (r: Date)
    requires 1 <= m <= 12 && 1 <= d <= 31
    ensures IsCalendarDate(r) && r.year == y
    ensures r == Date(y, m, d) <==> d <= DaysInMonth(y, m)
    ensures r != Date(y, m, d) ==> r.month == m + 1 && r.day == d - DaysInMonth(y, m)
  {
    if d <= DaysInMonth(y, m) then Date(y, m, d)
    else Date(y, m + 1, d - DaysInMonth(y, m))
  }

  // ---------------------------------------------------------------------------
  // YYYY-MM-DD (redirect-script.js)
  // ---------------------------------------------------------------------------

  /** `/^\d{4}-\d{2}-\d{2}$/.test(s)`. */
  predicate IsIsoShape(s: string)
  {
    |s| == 10 && AllDigits(s[..4]) && s[4] == '-' && AllDigits(s[5..7]) && s[7] == '-' && AllDigits(s[8..])
  }

  /** `Number` of each of the three pieces `s.split("-")` gives (see
      `IsoSplit`). */
  function IsoFields(s: string): Date
    requires IsIsoShape(s)
  {
    Date(DigitsValue(s[..4]), DigitsValue(s[5..7]), DigitsValue(s[8..]))
  }

  /** On a string of the right shape, `split("-")` yields exactly the year,
      month and day digits. */
  lemma IsoSplit(s: string)
    requires IsIsoShape(s)
    ensures Split(s, '-') == [s[..4], s[5..7], s[8..]]
  {
    assert s == s[..4] + ['-'] + (s[5..7] + ['-'] + s[8..]);
    SplitAtSeparator(s[..4], s[5..7] + ['-'] + s[8..], '-');
    SplitAtSeparator(s[5..7], s[8..], '-');
    assert '-' !in s[..4] && '-' !in s[5..7] && '-' !in s[8..] by {
      assert !IsDigit('-');
    }
    SplitWithoutSeparator(s[..4], '-');
    SplitWithoutSeparator(s[5..7], '-');
    SplitWithoutSeparator(s[8..], '-');
  }

  /** `isValidDate(dateStr)` of `redirect-script.js`: the shape, the year,
      month and day ranges, and the `Date` round trip. */
  predicate IsValidIsoDate(s: string)
  {
    IsIsoShape(s) &&
    var f := IsoFields(s);
    1000 <= f.year <= 9999 && 1 <= f.month <= 12 && 1 <= f.day <= 31 &&
    Normalize(f.year, f.month, f.day) == f
  }

  /** The `Date` round trip is the Gregorian rule: a string is accepted
      exactly when it has the shape, a four-digit year from 1000 on, and names
      a day that month has, leap years counted. */
  lemma IsValidIsoDateMeaning(s: string)
    ensures IsValidIsoDate(s) <==>
      IsIsoShape(s) && 1000 <= IsoFields(s).year <= 9999 && IsCalendarDate(IsoFields(s))
  {
  }

  /** A valid leap day, and the two dates the round trip rejects because
      the month is too short. */
  lemma IsoExamples()
    ensures IsValidIsoDate("2024-02-29")
    ensures !IsValidIsoDate("2023-02-29")
    ensures !IsValidIsoDate("2024-04-31")
  {
    IsoFieldsOf("2024-02-29");
    IsoFieldsOf("2023-02-29");
    IsoFieldsOf("2024-04-31");
  }

  /** Out-of-range months and years are rejected before any round trip. */
  lemma IsoRangeExamples()
    ensures !IsValidIsoDate("2024-13-01")
    ensures !IsValidIsoDate("0999-01-01")
  {
    IsoFieldsOf("2024-13-01");
    IsoFieldsOf("0999-01-01");
  }

  /** The fields of a well-shaped string, digit by digit. */
  lemma IsoFieldsOf(s: string)
    requires IsIsoShape(s)
    ensures IsoFields(s) == Date(
      1000 * (s[0] as int - '0' as int) + 100 * (s[1] as int - '0' as int) +
      10 * (s[2] as int - '0' as int) + (s[3] as int - '0' as int),
      10 * (s[5] as int - '0' as int) + (s[6] as int - '0' as int),
      10 * (s[8] as int - '0' as int) + (s[9] as int - '0' as int))
  {
    Digits4(s[..4]);
    Digits2(s[5..7]);
    Digits2(s[8..]);
  }

  /** Two digits read as a number. */
  lemma Digits2(s: string)
    requires |s| == 2 && AllDigits(s)
    ensures DigitsValue(s) == 10 * (s[0] as int - '0' as int) + (s[1] as int - '0' as int)
  {
    assert s[..1][..0] == [];
    assert DigitsValue(s[..1]) == DigitsValue(s[..1][..0]) * 10 + (s[0] as int - '0' as int);
  }

  /** Four digits read as a number, most significant first. */
  lemma Digits4(s: string)
    requires |s| == 4 && AllDigits(s)
    ensures DigitsValue(s) ==
      1000 * (s[0] as int - '0' as int) + 100 * (s[1] as int - '0' as int) +
      10 * (s[2] as int - '0' as int) + (s[3] as int - '0' as int)
  {
    var s3, s2, s1 := s[..3], s[..2], s[..1];
    assert s3[..2] == s2 && s2[..1] == s1 && s1[..0] == [];
    assert DigitsValue(s) == DigitsValue(s3) * 10 + (s[3] as int - '0' as int);
    assert DigitsValue(s3) == DigitsValue(s2) * 10 + (s[2] as int - '0' as int);
    assert DigitsValue(s2) == DigitsValue(s1) * 10 + (s[1] as int - '0' as int);
    assert DigitsValue(s1) == DigitsValue([]) * 10 + (s[0] as int - '0' as int);
  }

  /** `String(y) + "-" + pad(m) + "-" + pad(d)`, how `getCurrentDate` writes
      today. */
  function FormatIso(d: Date): string
    requires IsCalendarDate(d)
  {
    IntToString(d.year) + "-" + Pad2(d.month) + "-" + Pad2(d.day)
  }

  /** Today's key, written for a year from 1000 to 9999, passes the script's
      own validation and reads back as the same date. */
  lemma FormatIsoRoundTrip(d: Date)
    requires IsCalendarDate(d) && 1000 <= d.year <= 9999
    ensures IsValidIsoDate(FormatIso(d)) && IsoFields(FormatIso(d)) == d
  {
    var y, m, dd := NatToString(d.year), Pad2(d.month), Pad2(d.day);
    FourDigitYear(d.year);
    Pad2Value(d.month);
    Pad2Value(d.day);
    var s := FormatIso(d);
    assert s == y + "-" + m + "-" + dd;
    assert s[..4] == y && s[5..7] == m && s[8..] == dd;
  }

  /** `getCurrentDate()`: the `simulate-date` parameter when it is non-empty,
      has the shape and is a valid date; otherwise today's key. */
  function CurrentIsoDate(simulate: Option<string>, today: Date): string
    requires IsCalendarDate(today)
  {
    if simulate.Some? && simulate.value != "" && IsIsoShape(simulate.value) && IsValidIsoDate(simulate.value)
    then simulate.value
    else FormatIso(today)
  }

  /** The simulated date is used exactly when it is valid, and for any year
      from 1000 to 9999 the key looked up is a valid date either way. */
  lemma CurrentIsoDateMeaning(simulate: Option<string>, today: Date)
    requires IsCalendarDate(today)
    ensures simulate.Some? && IsValidIsoDate(simulate.value) ==> CurrentIsoDate(simulate, today) == simulate.value
    ensures !(simulate.Some? && IsValidIsoDate(simulate.value)) ==> CurrentIsoDate(simulate, today) == FormatIso(today)
    ensures 1000 <= today.year <= 9999 ==>
      IsValidIsoDate(CurrentIsoDate(simulate, today)) &&
      (simulate == Some(CurrentIsoDate(simulate, today)) <==> simulate.Some? && IsValidIsoDate(simulate.value))
  {
    if 1000 <= today.year <= 9999 {
      FormatIsoRoundTrip(today);
    }
  }

  // ---------------------------------------------------------------------------
  // MM-DD (landing-page-gtm-tag.js)
  // ---------------------------------------------------------------------------

  /** `/^\d{2}-\d{2}$/.test(s)`. */
  predicate IsMonthDayShape(s: string)
  {
    |s| == 5 && AllDigits(s[..2]) && s[2] == '-' && AllDigits(s[3..])
  }

  /** The year `isValidDate` of the tag builds its `Date` in. 2000 is
      divisible by 400, so it is a leap year. */
  const BaselineYear: int := 2000

  /** `isValidDate(dateStr)` of the tag, on a string that passed the shape
      test (its only caller tests the shape first): month and day ranges, and
      the round trip through `new Date(2000, month - 1, day)` comparing month
      and day. */
  predicate IsValidMonthDay(s: string)
    requires IsMonthDayShape(s)
  {
    var m, d := DigitsValue(s[..2]), DigitsValue(s[3..]);
    1 <= m <= 12 && 1 <= d <= 31 &&
    Normalize(BaselineYear, m, d).month == m && Normalize(BaselineYear, m, d).day == d
  }

  /** The round trip accepts a month and day exactly when the day exists in
      that month of a leap year: 02-29 passes despite the comment calling the
      baseline non-leap, and no other year is ever consulted. */
  lemma IsValidMonthDayMeaning(s: string)
    requires IsMonthDayShape(s)
    ensures IsValidMonthDay(s) <==>
      var m, d := DigitsValue(s[..2]), DigitsValue(s[3..]);
      1 <= m <= 12 && 1 <= d <= DaysInMonth(BaselineYear, m)
    ensures IsLeapYear(BaselineYear)
  {
  }

  lemma MonthDayExamples()
    ensures IsMonthDayShape("02-29") && IsValidMonthDay("02-29")
    ensures IsMonthDayShape("02-30") && !IsValidMonthDay("02-30")
    ensures IsMonthDayShape("04-31") && !IsValidMonthDay("04-31")
    ensures IsMonthDayShape("00-10") && !IsValidMonthDay("00-10")
  {
    assert "02-29"[..2] == "02" && "02-29"[3..] == "29";
    assert "02-30"[..2] == "02" && "02-30"[3..] == "30";
    assert "04-31"[..2] == "04" && "04-31"[3..] == "31";
    assert "00-10"[..2] == "00";
  }

  /** `pad(month) + "-" + pad(day)`, how the tag writes today. */
  function FormatMonthDay(d: Date): string
    requires IsCalendarDate(d)
  {
    Pad2(d.month) + "-" + Pad2(d.day)
  }

  /** Today's recurring key passes the tag's own validation and reads back as
      today's month and day. */
  lemma FormatMonthDayRoundTrip(d: Date)
    requires IsCalendarDate(d)
    ensures IsMonthDayShape(FormatMonthDay(d)) && IsValidMonthDay(FormatMonthDay(d))
    ensures DigitsValue(FormatMonthDay(d)[..2]) == d.month && DigitsValue(FormatMonthDay(d)[3..]) == d.day
  {
    Pad2Value(d.month);
    Pad2Value(d.day);
    var s := FormatMonthDay(d);
    assert s[..2] == Pad2(d.month) && s[3..] == Pad2(d.day);
    assert DaysInMonth(d.year, d.month) <= DaysInMonth(BaselineYear, d.month);
  }

  /** A recurring key names a month and a day and nothing else: two dates get
      the same key exactly when they share month and day, whatever their
      years. */
  lemma RecurringKey(d1: Date, d2: Date)
    requires IsCalendarDate(d1) && IsCalendarDate(d2)
    ensures FormatMonthDay(d1) == FormatMonthDay(d2) <==> d1.month == d2.month && d1.day == d2.day
  {
    if FormatMonthDay(d1) == FormatMonthDay(d2) {
      FormatMonthDayRoundTrip(d1);
      FormatMonthDayRoundTrip(d2);
    }
  }

  /** `getCurrentOrSimulatedDate()`: the `simulate-date` parameter when it is
      non-empty, has the `MM-DD` shape and is valid; otherwise today's key. */
  function CurrentMonthDay(simulate: Option<string>, today: Date): string
    requires IsCalendarDate(today)
  {
    if simulate.Some? && simulate.value != "" && IsMonthDayShape(simulate.value) && IsValidMonthDay(simulate.value)
    then simulate.value
    else FormatMonthDay(today)
  }

  /** The simulated date is used exactly when it is a valid `MM-DD` key, and
      the key looked up always is one. */
  lemma CurrentMonthDayMeaning(simulate: Option<string>, today: Date)
    requires IsCalendarDate(today)
    ensures var k := CurrentMonthDay(simulate, today);
      IsMonthDayShape(k) && IsValidMonthDay(k) &&
      (simulate == Some(k) <==> simulate.Some? && IsMonthDayShape(simulate.value) && IsValidMonthDay(simulate.value)) &&
      (simulate != Some(k) ==> k == FormatMonthDay(today))
  {
    FormatMonthDayRoundTrip(today);
  }
}
