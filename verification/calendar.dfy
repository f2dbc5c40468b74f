/** The proleptic Gregorian calendar as the habit tracker uses it through date-fns and
    the JavaScript `Date` object, on whole days. A day number counts days from
    1970-01-01 (day 0), the epoch of JavaScript time values, so `new Date("yyyy-MM-dd")`
    denotes day number times 86 400 000 milliseconds. */
module Calendar {
  import opened Options
  import opened Digits

  /** Months are numbered 1 (January) to 12 (December). */
  type Month = m: int | 1 <= m <= 12 witness 1

  /** A calendar date at day granularity: the value behind a check-in's `date` column. */
  datatype Date = Date(year: int, month: Month, day: int)

  predicate IsLeapYear(y: int) {
    y % 4 == 0 && (y % 100 != 0 || y % 400 == 0)
  }

  function DaysInYear(y: int): int {
    if IsLeapYear(y) then 366 else 365
  }

  function DaysInMonth(y: int, m: Month): int {
    if m == 2 then (if IsLeapYear(y) then 29 else 28)
    else if m == 4 || m == 6 || m == 9 || m == 11 then 30
    else 31
  }

  /** Days of year `y` that come before the first of month `m`. */
  function DaysBeforeMonth(y: int, m: Month): int {
    [0, 31, 59, 90, 120, 151, 181, 212, 243, 273, 304, 334][m - 1]
      + (if m > 2 && IsLeapYear(y) then 1 else 0)
  }

  /** Days from 0001-01-01 to the first of January of year `y`: 365 per year plus one per
      leap year, counted in closed form (Dafny's `/` floors for a positive divisor, so this
      also holds for years before 1). */
  function DaysBeforeYear(y: int): int {
    365 * (y - 1) + (y - 1) / 4 - (y - 1) / 100 + (y - 1) / 400
  }

  /** `DaysBeforeYear(1970)`: the distance from 0001-01-01 to the JavaScript epoch. */
  const EpochOffset: int := 719162

  /** Day number of the first of January of year `y`. */
  function YearStart(y: int): int {
    DaysBeforeYear(y) - EpochOffset
  }

  /** A date that names a real day: its day of the month exists in that month. */
  predicate ValidDate(d: Date) {
    1 <= d.day <= DaysInMonth(d.year, d.month)
  }

  /** Zero-based position of a date within its year. */
  function DayOfYear(d: Date): int {
    DaysBeforeMonth(d.year, d.month) + d.day - 1
  }

  /** The day number of a date. A day past the end of its month runs on into the next,
      as `Date.UTC` does. */
  function DayNumber(d: Date): int {
    YearStart(d.year) + DayOfYear(d)
  }

  /** Day of the week of a day number, Sunday = 0, as `Date.prototype.getDay` counts;
      1970-01-01 was a Thursday. */
  function Weekday(n: int): (w: int)
    ensures 0 <= w < 7
  {
    (n + 4) % 7
  }

  /** The dates of year `y` from the first of January to the thirty-first of December,
      what `eachDayOfInterval` lists between `startOfYear` and `endOfYear`. */
  function YearDays(y: int): (days: seq<Date>)
    ensures |days| == DaysInYear(y)
    ensures forall i :: 0 <= i < |days| ==>
      days[i].year == y && ValidDate(days[i]) && DayNumber(days[i]) == YearStart(y) + i
  {
    seq(DaysInYear(y), i requires 0 <= i < DaysInYear(y) => DateInYear(y, i))
  }

  /** The date at zero-based position `i` of year `y`. */
  function DateInYear(y: int, i: int): (d: Date)
    requires 0 <= i < DaysInYear(y)
    ensures d.year == y && ValidDate(d) && DayOfYear(d) == i
  {
    DateInMonthsFrom(y, 1, i)
  }

  /** The date at position `i` of year `y`, searching months `m` onwards. */
  function DateInMonthsFrom(y: int, m: Month, i: int): (d: Date)
    requires DaysBeforeMonth(y, m) <= i < DaysInYear(y)
    ensures d.year == y && ValidDate(d) && DayOfYear(d) == i && d.month >= m
    decreases 12 - m
  {
    MonthEnds(y, m);
    if i < DaysBeforeMonth(y, m) + DaysInMonth(y, m) then
      Date(y, m, i - DaysBeforeMonth(y, m) + 1)
    else
      DateInMonthsFrom(y, m + 1, i)
  }

  /** Each month ends where the next begins, and December ends the year. */
  lemma MonthEnds(y: int, m: Month)
    ensures m < 12 ==> DaysBeforeMonth(y, m) + DaysInMonth(y, m) == DaysBeforeMonth(y, m + 1)
    ensures m == 12 ==> DaysBeforeMonth(y, m) + DaysInMonth(y, m) == DaysInYear(y)
  {
  }

  lemma {:induction false} MonthsInOrder(y: int, a: Month, b: Month)
    requires a < b
    ensures DaysBeforeMonth(y, a) + DaysInMonth(y, a) <= DaysBeforeMonth(y, b)
    decreases b - a
  {
    MonthEnds(y, a);
    if a + 1 < b {
      MonthEnds(y, a + 1);
      MonthsInOrder(y, a + 1, b);
    }
  }

  lemma {:induction false} DateInMonthsFromFinds(d: Date, m: Month)
    requires ValidDate(d) && m <= d.month
    ensures DaysBeforeMonth(d.year, m) <= DayOfYear(d) < DaysInYear(d.year)
    ensures DateInMonthsFrom(d.year, m, DayOfYear(d)) == d
    decreases d.month - m
  {
    MonthEnds(d.year, d.month);
    if d.month < 12 {
      MonthsInOrder(d.year, d.month, 12);
      MonthEnds(d.year, 12);
    }
    MonthEnds(d.year, m);
    if m < d.month {
      MonthsInOrder(d.year, m, d.month);
      DateInMonthsFromFinds(d, m + 1);
    }
  }

  /** Every real day of a year sits at its day-of-year position in `YearDays`. */
  lemma YearDaysComplete(d: Date)
    requires ValidDate(d)
    ensures 0 <= DayOfYear(d) < DaysInYear(d.year)
    ensures YearDays(d.year)[DayOfYear(d)] == d
  {
    DateInMonthsFromFinds(d, 1);
  }

  lemma FloorStep(x: int)
    ensures (x + 1) / 4 - x / 4 == (if (x + 1) % 4 == 0 then 1 else 0)
    ensures (x + 1) / 100 - x / 100 == (if (x + 1) % 100 == 0 then 1 else 0)
    ensures (x + 1) / 400 - x / 400 == (if (x + 1) % 400 == 0 then 1 else 0)
  {
  }

  /** The closed-form year start and the leap-year rule agree: year `y` is as long as the
      distance from its first of January to the next. */
  lemma YearLength(y: int)
    ensures YearStart(y + 1) == YearStart(y) + DaysInYear(y)
  {
    FloorStep(y - 1);
    LeapDivisors(y);
    var steps := (y / 4 - (y - 1) / 4) - (y / 100 - (y - 1) / 100) + (y / 400 - (y - 1) / 400);
    assert YearStart(y + 1) - YearStart(y) == 365 + steps;
    assert steps == (if IsLeapYear(y) then 1 else 0);
  }

  lemma LeapDivisors(y: int)
    ensures y % 400 == 0 ==> y % 100 == 0
    ensures y % 100 == 0 ==> y % 4 == 0
  {
    if y % 400 == 0 {
      var t := 4 * (y / 400) - y / 100;
      assert y == 400 * (y / 400);
      assert 100 * t == y % 100;
    }
    if y % 100 == 0 {
      var t := 25 * (y / 100) - y / 4;
      assert y == 100 * (y / 100);
      assert 4 * t == y % 4;
    }
  }

  lemma {:induction false} YearsInOrder(a: int, b: int)
    requires a < b
    ensures YearStart(a) + DaysInYear(a) <= YearStart(b)
    decreases b - a
  {
    YearLength(a);
    if a + 1 < b {
      YearsInOrder(a + 1, b);
    }
  }

  /** Distinct real dates have distinct day numbers. */
  lemma DayNumberInjective(a: Date, b: Date)
    requires ValidDate(a) && ValidDate(b)
    ensures DayNumber(a) == DayNumber(b) <==> a == b
  {
    YearDaysComplete(a);
    YearDaysComplete(b);
    if a.year < b.year {
      YearsInOrder(a.year, b.year);
    } else if b.year < a.year {
      YearsInOrder(b.year, a.year);
    }
  }

  /** The day numbering is anchored where JavaScript's is: 1970-01-01 is day 0, a
      Thursday, and 2024-01-01 was a Monday. */
  lemma EpochAnchors()
    ensures YearStart(1970) == 0 && Weekday(YearStart(1970)) == 4
    ensures DayNumber(Date(2024, 1, 1)) == 19723 && Weekday(19723) == 1
  {
  }

  /** A date whose key has the four-digit year of the `yyyy-MM-dd` form. */
  predicate Representable(d: Date) {
    ValidDate(d) && 0 <= d.year <= 9999
  }

  /** The `yyyy-MM-dd` key date-fns `format` writes for a date of years 1 to 9999: the
      extended format of an ISO 8601 calendar date. (For year 0 date-fns writes the era
      year, "0001"; this writes "0000".) */
  function FormatKey(d: Date): (s: string)
    ensures |s| == 10 && s[4] == '-' && s[7] == '-'
  {
    Padded(d.year % 10000, 4) + "-" + Padded(d.month, 2) + "-" + Padded(d.day % 100, 2)
  }

  /** Reads a `yyyy-MM-dd` key back into its fields: what `new Date(key)` parses. */
  function DecodeKey(s: string): Option<Date> {
    if |s| == 10 && s[4] == '-' && s[7] == '-'
       && AllDigits(s[..4]) && AllDigits(s[5..7]) && AllDigits(s[8..])
    then
      var m := ParseDigits(s[5..7]);
      if 1 <= m <= 12 then Some(Date(ParseDigits(s[..4]), m, ParseDigits(s[8..]))) else None
    else
      None
  }

  /** A string of the key's shape decodes field by field. */
  lemma DecodeFields(a: string, b: string, c: string)
    requires |a| == 4 && |b| == 2 && |c| == 2
    requires AllDigits(a) && AllDigits(b) && AllDigits(c)
    requires 1 <= ParseDigits(b) <= 12
    ensures DecodeKey(a + "-" + b + "-" + c) == Some(Date(ParseDigits(a), ParseDigits(b), ParseDigits(c)))
  {
    var s := a + "-" + b + "-" + c;
    assert s[..4] == a && s[5..7] == b && s[8..] == c;
  }

  lemma PowersUsed()
    ensures Pow10(2) == 100 && Pow10(4) == 10000
  {
  }

  /** The key written for a date reads back as that date. */
  lemma KeyRoundTrip(d: Date)
    requires Representable(d)
    ensures DecodeKey(FormatKey(d)) == Some(d)
  {
    PowersUsed();
    assert d.year % 10000 == d.year && d.day % 100 == d.day;
    var y, m, dd := Padded(d.year, 4), Padded(d.month, 2), Padded(d.day, 2);
    PaddedRoundTrip(d.year, 4);
    PaddedRoundTrip(d.month, 2);
    PaddedRoundTrip(d.day, 2);
    DecodeFields(y, m, dd);
    assert FormatKey(d) == y + "-" + m + "-" + dd;
  }

  /** Comparing keys compares dates. */
  lemma KeyInjective(a: Date, b: Date)
    requires Representable(a) && Representable(b)
    ensures FormatKey(a) == FormatKey(b) <==> a == b
  {
    KeyRoundTrip(a);
    KeyRoundTrip(b);
  }
}
