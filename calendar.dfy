/** Calendar dates, timestamps and months, in the proleptic Gregorian calendar.
    A sit's `created_at` is a `Stamp`: the calendar date it falls on in the
    application's time zone and the time of day within that date. */
module Calendar {

  datatype Date = Date(year: int, month: int, day: int)

  /** A time of day, counted in seconds from midnight. */
  const SecondsPerDay: int := 86400

  /** A timestamp: `created_at` split into its calendar date and time of day. */
  datatype Stamp = Stamp(date: Date, second: int)

  datatype YearMonth = YearMonth(year: int, month: int)

  predicate IsLeapYear(y: int) {
    y % 4 == 0 && (y % 100 != 0 || y % 400 == 0)
  }

  function DaysInMonth(y: int, m: int): (n: int)
    ensures 28 <= n <= 31
    ensures n == 29 <==> m == 2 && IsLeapYear(y)
  {
    if m == 2 then (if IsLeapYear(y) then 29 else 28)
    else if m == 4 || m == 6 || m == 9 || m == 11 then 30
    else 31
  }

  predicate ValidDate(d: Date) {
    1 <= d.month <= 12 && 1 <= d.day <= DaysInMonth(d.year, d.month)
  }

  predicate ValidStamp(t: Stamp) {
    ValidDate(t.date) && 0 <= t.second < SecondsPerDay
  }

  /** Strictly earlier calendar date (for valid dates, lexicographic order on
      year, month, day is chronological order). */
  predicate DateBefore(a: Date, b: Date) {
    a.year < b.year
    || (a.year == b.year && (a.month < b.month || (a.month == b.month && a.day < b.day)))
  }

  predicate DateAtMost(a: Date, b: Date) {
    a == b || DateBefore(a, b)
  }

  /** Strictly earlier instant. */
  predicate StampBefore(a: Stamp, b: Stamp) {
    DateBefore(a.date, b.date) || (a.date == b.date && a.second < b.second)
  }

  predicate StampAtMost(a: Stamp, b: Stamp) {
    a == b || StampBefore(a, b)
  }

  /** The number of days from 1970-01-01 to `d`: what `Date#-` subtracts.
      (The days_from_civil formula, with Euclidean `/` and `%`, which are
      floor division for a positive divisor.) */
  function DayNumber(d: Date): int {
    var y := if d.month <= 2 then d.year - 1 else d.year;
    var era := y / 400;
    var yoe := y % 400;
    var mp := if d.month > 2 then d.month - 3 else d.month + 9;
    var doy := (153 * mp + 2) / 5 + d.day - 1;
    var doe := yoe * 365 + yoe / 4 - yoe / 100 + doy;
    era * 146097 + doe - 719468
  }

  /** The calendar day before `d`: `Date.yesterday` when `d` is today. */
  function PrevDate(d: Date): (p: Date)
    ensures ValidDate(d) ==> ValidDate(p) && DateBefore(p, d)
  {
    if d.day > 1 then Date(d.year, d.month, d.day - 1)
    else if d.month > 1 then Date(d.year, d.month - 1, DaysInMonth(d.year, d.month - 1))
    else Date(d.year - 1, 12, 31)
  }

  /** The number of days from 1 March of year 0 to 1 March of year `y`. */
  function MarchStart(y: int): int {
    (y / 400) * 146097 + (y % 400) * 365 + (y % 400) / 4 - (y % 400) / 100
  }

  /** Euclidean division by 4, 100 and 400 is determined by its quotient and
      remainder. */
  lemma DivMod4(x: int, q: int, r: int)
    requires x == 4 * q + r && 0 <= r < 4
    ensures x / 4 == q && x % 4 == r
  {
  }

  lemma DivMod100(x: int, q: int, r: int)
    requires x == 100 * q + r && 0 <= r < 100
    ensures x / 100 == q && x % 100 == r
  {
  }

  lemma DivMod400(x: int, q: int, r: int)
    requires x == 400 * q + r && 0 <= r < 400
    ensures x / 400 == q && x % 400 == r
  {
  }

  /** A March-based year is one day longer exactly when the February it ends
      with is a leap February. */
  lemma MarchYearLength(y: int)
    ensures MarchStart(y) - MarchStart(y - 1) == if IsLeapYear(y) then 366 else 365
  {
    var q, k := y / 400, y % 400;
    assert y == 400 * q + k;
    DivMod4(y, 100 * q + k / 4, k % 4);
    DivMod100(y, 4 * q + k / 100, k % 100);
    if k == 0 {
      DivMod400(y - 1, q - 1, 399);
    } else {
      DivMod400(y - 1, q, k - 1);
      CycleYearLength(k);
    }
  }

  /** Inside one 400-year cycle, a year adds a leap day exactly when it is
      divisible by 4 and not by 100. */
  lemma CycleYearLength(k: int)
    requires 0 < k < 400
    ensures (k * 365 + k / 4 - k / 100) - ((k - 1) * 365 + (k - 1) / 4 - (k - 1) / 100) ==
      if k % 4 == 0 && k % 100 != 0 then 366 else 365
  {
    DivMod4(k, k / 4, k % 4);
    DivMod100(k, k / 100, k % 100);
    if k % 4 == 0 {
      DivMod4(k - 1, k / 4 - 1, 3);
    } else {
      DivMod4(k - 1, k / 4, k % 4 - 1);
    }
    if k % 100 == 0 {
      DivMod100(k - 1, k / 100 - 1, 99);
    } else {
      DivMod100(k - 1, k / 100, k % 100 - 1);
    }
  }

  /** The year a date's March-based year starts in. */
  function MarchYear(d: Date): int {
    if d.month <= 2 then d.year - 1 else d.year
  }

  /** Days from 1 March to the first of month `m` in a March-based year. */
  function MarchMonthStart(m: int): int {
    var mp := if m > 2 then m - 3 else m + 9;
    (153 * mp + 2) / 5
  }

  lemma DayNumberParts(d: Date)
    ensures DayNumber(d) == MarchStart(MarchYear(d)) + MarchMonthStart(d.month) + d.day - 1 - 719468
  {
  }

  /** Within a March-based year, consecutive month starts are one month's
      length apart (February, whose length varies, ends the year). */
  lemma MarchMonthStarts(y: int, m: int)
    requires 2 <= m <= 12 && m != 3
    ensures MarchMonthStart(m) - MarchMonthStart(m - 1) == DaysInMonth(y, m - 1)
  {
    if m == 2 { assert MarchMonthStart(2) == 337 && MarchMonthStart(1) == 306; }
    else if m == 4 { assert MarchMonthStart(4) == 31 && MarchMonthStart(3) == 0; }
    else if m == 5 { assert MarchMonthStart(5) == 61; }
    else if m == 6 { assert MarchMonthStart(6) == 92; }
    else if m == 7 { assert MarchMonthStart(7) == 122; }
    else if m == 8 { assert MarchMonthStart(8) == 153; }
    else if m == 9 { assert MarchMonthStart(9) == 184; }
    else if m == 10 { assert MarchMonthStart(10) == 214; }
    else if m == 11 { assert MarchMonthStart(11) == 245; }
    else { assert MarchMonthStart(12) == 275 && MarchMonthStart(11) == 245; }
  }

  /** `Date.yesterday` is exactly one day before today, as `Date#-` counts. */
  lemma {:induction false} DayNumberOfPrevDate(d: Date)
    requires ValidDate(d)
    ensures DayNumber(PrevDate(d)) == DayNumber(d) - 1
  {
    var p := PrevDate(d);
    DayNumberParts(d);
    DayNumberParts(p);
    if d.day == 1 {
      if d.month == 3 {
        MarchYearLength(d.year);
        assert MarchMonthStart(2) == 337 && MarchMonthStart(3) == 0;
      } else if d.month == 1 {
        assert MarchMonthStart(1) == 306 && MarchMonthStart(12) == 275;
      } else {
        MarchMonthStarts(d.year, d.month);
      }
    }
  }

  /** Days from 1 March of its March-based year to `d`. */
  function DayOfMarchYear(d: Date): int {
    MarchMonthStart(d.month) + d.day - 1
  }

  lemma MarchMonthStartValues()
    ensures MarchMonthStart(3) == 0 && MarchMonthStart(4) == 31 && MarchMonthStart(5) == 61
    ensures MarchMonthStart(6) == 92 && MarchMonthStart(7) == 122 && MarchMonthStart(8) == 153
    ensures MarchMonthStart(9) == 184 && MarchMonthStart(10) == 214 && MarchMonthStart(11) == 245
    ensures MarchMonthStart(12) == 275 && MarchMonthStart(1) == 306 && MarchMonthStart(2) == 337
  {
  }

  /** Later March-based years start at least a common year later. */
  lemma {:induction false} MarchStartGrows(x: int, y: int)
    requires x < y
    ensures MarchStart(x) + 365 <= MarchStart(y)
    decreases y - x
  {
    MarchYearLength(y);
    if x < y - 1 {
      MarchStartGrows(x, y - 1);
    }
  }

  /** A valid date lies inside its March-based year. */
  lemma DayOfMarchYearBound(d: Date)
    requires ValidDate(d)
    ensures 0 <= DayOfMarchYear(d) < MarchStart(MarchYear(d) + 1) - MarchStart(MarchYear(d))
  {
    MarchYearLength(MarchYear(d) + 1);
    MarchMonthStartValues();
  }

  /** Within one March-based year, a later date is further from 1 March. */
  lemma SameMarchYearOrder(b: Date, a: Date)
    requires ValidDate(a) && ValidDate(b) && DateBefore(b, a) && MarchYear(b) == MarchYear(a)
    ensures DayOfMarchYear(b) < DayOfMarchYear(a)
  {
    MarchMonthStartValues();
  }

  /** Day numbers follow the calendar: an earlier valid date has a smaller
      day number, so two valid dates with equal day numbers are equal. */
  lemma DayNumberMonotone(b: Date, a: Date)
    requires ValidDate(a) && ValidDate(b) && DateBefore(b, a)
    ensures DayNumber(b) < DayNumber(a)
  {
    DayNumberParts(a);
    DayNumberParts(b);
    DayOfMarchYearBound(a);
    DayOfMarchYearBound(b);
    if MarchYear(b) < MarchYear(a) {
      if MarchYear(b) + 1 < MarchYear(a) {
        MarchStartGrows(MarchYear(b) + 1, MarchYear(a));
      }
    } else {
      SameMarchYearOrder(b, a);
    }
  }

  function MonthOf(d: Date): YearMonth {
    YearMonth(d.year, d.month)
  }

  predicate ValidMonth(ym: YearMonth) {
    1 <= ym.month <= 12
  }

  /** Months counted from January of year 0; consecutive months differ by one. */
  function MonthIndex(ym: YearMonth): int {
    ym.year * 12 + ym.month - 1
  }

  function PrevMonth(ym: YearMonth): (p: YearMonth)
    ensures ValidMonth(ym) ==> ValidMonth(p) && MonthIndex(p) == MonthIndex(ym) - 1
  {
    if ym.month > 1 then YearMonth(ym.year, ym.month - 1) else YearMonth(ym.year - 1, 12)
  }

  lemma DivMod12(x: int, q: int, r: int)
    requires x == 12 * q + r && 0 <= r < 12
    ensures x / 12 == q && x % 12 == r
  {
  }

  /** The month with index `k`. */
  function FromIndex(k: int): (ym: YearMonth)
    ensures ValidMonth(ym) && MonthIndex(ym) == k
  {
    YearMonth(k / 12, k % 12 + 1)
  }

  /** Every valid month is the month of its own index. */
  lemma FromIndexOfMonthIndex(ym: YearMonth)
    requires ValidMonth(ym)
    ensures FromIndex(MonthIndex(ym)) == ym
  {
    DivMod12(MonthIndex(ym), ym.year, ym.month - 1);
  }

  /** On valid months, MonthIndex is one-to-one. */
  lemma MonthIndexInjective(a: YearMonth, b: YearMonth)
    requires ValidMonth(a) && ValidMonth(b) && MonthIndex(a) == MonthIndex(b)
    ensures a == b
  {
  }
}
