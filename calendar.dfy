/**
 * Proleptic Gregorian calendar dates as Python's `datetime.date` and pandas'
 * `Timestamp` treat them: ordinals (`toordinal`), Monday-based weekdays
 * (`weekday()`, `dt.dayofweek`), whole-day `timedelta` arithmetic, the
 * tuple order of dates, and the month/year steps of `relativedelta`.
 */
module Calendar {

  datatype Ymd = Ymd(year: int, month: int, day: int)

  predicate IsLeapYear(y: int)
  {
    y % 4 == 0 && (y % 100 != 0 || y % 400 == 0)
  }

  function DaysInYear(y: int): int
  {
    if IsLeapYear(y) then 366 else 365
  }

  function DaysInMonth(y: int, m: int): int
    requires 1 <= m <= 12
  {
    if m == 2 then (if IsLeapYear(y) then 29 else 28)
    else if m == 4 || m == 6 || m == 9 || m == 11 then 30
    else 31
  }

  predicate IsValid(d: Ymd)
  {
    1 <= d.month <= 12 && 1 <= d.day <= DaysInMonth(d.year, d.month)
  }

  /** A calendar date; the year is unbounded (see InPythonRange). */
  type Date = d: Ymd | IsValid(d) witness Ymd(1, 1, 1)

  /** Years Python's `date` can hold. */
  predicate InPythonRange(d: Date)
  {
    1 <= d.year <= 9999
  }

  /** `date.max.toordinal()`, the ordinal of 9999-12-31. */
  const MAX_ORDINAL := 3652059

  /** Days in the years before `y` (Python's `_days_before_year`). */
  function DaysBeforeYear(y: int): int
  {
    var p := y - 1;
    p * 365 + p / 4 - p / 100 + p / 400
  }

  /** Days in the months of `y` before month `m` (Python's `_days_before_month`). */
  function DaysBeforeMonth(y: int, m: int): int
    requires 1 <= m <= 12
  {
    [0, 31, 59, 90, 120, 151, 181, 212, 243, 273, 304, 334][m - 1]
      + (if m > 2 && IsLeapYear(y) then 1 else 0)
  }

  /** `date.toordinal()`: 0001-01-01 is day 1. */
  function Ordinal(d: Date): int
  {
    DaysBeforeYear(d.year) + DaysBeforeMonth(d.year, d.month) + d.day
  }

  /** A day as a number: its Python ordinal, 0001-01-01 being day 1. */
  type Day = int

  /** `date.weekday()` / `dt.dayofweek` of the day with ordinal n: Monday is 0,
      Sunday is 6 (day 1, 0001-01-01, was a Monday). */
  function DayOfWeek(n: int): int
  {
    (n + 6) % 7
  }

  /** `date.weekday()`. */
  function Weekday(d: Date): int
  {
    DayOfWeek(Ordinal(d))
  }

  /** Python's `<` on dates: the order of (year, month, day) tuples. */
  predicate Before(a: Date, b: Date)
  {
    || a.year < b.year
    || (a.year == b.year && a.month < b.month)
    || (a.year == b.year && a.month == b.month && a.day < b.day)
  }

  // ---------------------------------------------------------------------------
  // Ordinals and the order of dates
  // ---------------------------------------------------------------------------

  lemma FloorStep4(p: int)
    ensures (p + 1) / 4 - p / 4 == if (p + 1) % 4 == 0 then 1 else 0
  {
  }

  lemma FloorStep100(p: int)
    ensures (p + 1) / 100 - p / 100 == if (p + 1) % 100 == 0 then 1 else 0
  {
  }

  lemma FloorStep400(p: int)
    ensures (p + 1) / 400 - p / 400 == if (p + 1) % 400 == 0 then 1 else 0
  {
  }

  /** A multiple of 400 is a multiple of 100, and a multiple of 100 one of 4. */
  lemma DivisibilityChain(y: int)
    ensures y % 400 == 0 ==> y % 100 == 0
    ensures y % 100 == 0 ==> y % 4 == 0
  {
    var a, b, c := y / 400, y / 100, y / 4;
    assert y == 400 * a + y % 400 && y == 100 * b + y % 100 && y == 4 * c + y % 4;
    if y % 400 == 0 {
      assert y % 100 == 100 * (4 * a - b);
    }
    if y % 100 == 0 {
      assert y % 4 == 4 * (25 * b - c);
    }
  }

  /** Consecutive years start DaysInYear days apart. */
  lemma YearLength(y: int)
    ensures DaysBeforeYear(y + 1) == DaysBeforeYear(y) + DaysInYear(y)
  {
    var p := y - 1;
    FloorStep4(p);
    FloorStep100(p);
    FloorStep400(p);
    DivisibilityChain(y);
    assert p + 1 == y;
    var leap := (if y % 4 == 0 then 1 else 0) - (if y % 100 == 0 then 1 else 0)
                + (if y % 400 == 0 then 1 else 0);
    assert DaysInYear(y) == 365 + leap;
    assert DaysBeforeYear(y + 1) == y * 365 + y / 4 - y / 100 + y / 400;
    assert DaysBeforeYear(y) == p * 365 + p / 4 - p / 100 + p / 400;
  }

  lemma {:induction false} YearsOrdered(y1: int, y2: int)
    requires y1 < y2
    ensures DaysBeforeYear(y1) + DaysInYear(y1) <= DaysBeforeYear(y2)
    decreases y2 - y1
  {
    YearLength(y1);
    if y1 + 1 < y2 {
      YearsOrdered(y1 + 1, y2);
    }
  }

  lemma MonthsOrdered(y: int, m1: int, m2: int)
    requires 1 <= m1 < m2 <= 12
    ensures DaysBeforeMonth(y, m1) + DaysInMonth(y, m1) <= DaysBeforeMonth(y, m2)
  {
  }

  lemma DayOfYearInRange(d: Date)
    ensures 1 <= DaysBeforeMonth(d.year, d.month) + d.day <= DaysInYear(d.year)
  {
  }

  /** Python's date order is the order of ordinals. */
  lemma OrdinalOrder(a: Date, b: Date)
    ensures Before(a, b) <==> Ordinal(a) < Ordinal(b)
  {
    if a.year < b.year {
      DayOfYearInRange(a);
      YearsOrdered(a.year, b.year);
    } else if b.year < a.year {
      DayOfYearInRange(b);
      YearsOrdered(b.year, a.year);
    } else if a.month < b.month {
      MonthsOrdered(a.year, a.month, b.month);
    } else if b.month < a.month {
      MonthsOrdered(a.year, b.month, a.month);
    }
  }

  lemma YearsMonotone(y1: int, y2: int)
    requires y1 <= y2
    ensures DaysBeforeYear(y1) <= DaysBeforeYear(y2)
  {
    if y1 < y2 {
      YearsOrdered(y1, y2);
    }
  }

  /** Python's range of dates, years 1 to 9999, is the range of ordinals 1 to MAX_ORDINAL. */
  lemma InPythonRangeByOrdinal(d: Date)
    ensures InPythonRange(d) <==> 1 <= Ordinal(d) <= MAX_ORDINAL
  {
    DayOfYearInRange(d);
    YearLength(d.year);
    assert DaysBeforeYear(1) == 0;
    assert DaysBeforeYear(10000) == MAX_ORDINAL;
    if d.year >= 1 {
      YearsMonotone(1, d.year);
    } else {
      YearsMonotone(d.year + 1, 1);
    }
    if d.year <= 9999 {
      YearsMonotone(d.year + 1, 10000);
    } else {
      YearsMonotone(10000, d.year);
    }
  }

  /** Two dates with the same ordinal are the same date. */
  lemma OrdinalInjective(a: Date, b: Date)
    requires Ordinal(a) == Ordinal(b)
    ensures a == b
  {
    OrdinalOrder(a, b);
    OrdinalOrder(b, a);
  }

  // ---------------------------------------------------------------------------
  // Whole-day arithmetic (`date + timedelta(days=k)`)
  // ---------------------------------------------------------------------------

  function NextDay(d: Date): (r: Date)
    ensures Ordinal(r) == Ordinal(d) + 1
  {
    if d.day < DaysInMonth(d.year, d.month) then Ymd(d.year, d.month, d.day + 1)
    else if d.month < 12 then Ymd(d.year, d.month + 1, 1)
    else YearLength(d.year); Ymd(d.year + 1, 1, 1)
  }

  function PrevDay(d: Date): (r: Date)
    ensures Ordinal(r) == Ordinal(d) - 1
  {
    if d.day > 1 then Ymd(d.year, d.month, d.day - 1)
    else if d.month > 1 then Ymd(d.year, d.month - 1, DaysInMonth(d.year, d.month - 1))
    else YearLength(d.year - 1); Ymd(d.year - 1, 12, 31)
  }

  /** `d + timedelta(days=k)`: the date whose ordinal is k more than d's. */
  function AddDays(d: Date, k: int): (r: Date)
    ensures Ordinal(r) == Ordinal(d) + k
    decreases if k < 0 then -k else k
  {
    if k == 0 then d
    else if k > 0 then AddDays(NextDay(d), k - 1)
    else AddDays(PrevDay(d), k + 1)
  }

  lemma AddDaysTwice(d: Date, j: int, k: int)
    ensures AddDays(AddDays(d, j), k) == AddDays(d, j + k)
  {
    var e2 := AddDays(AddDays(d, j), k);
    var f := AddDays(d, j + k);
    assert Ordinal(e2) == Ordinal(f);
    OrdinalInjective(e2, f);
  }

  /** 0001-01-01, day 1 of Python's ordinals. */
  const EPOCH: Date := Ymd(1, 1, 1)

  lemma EpochOrdinal()
    ensures Ordinal(EPOCH) == 1
  {
  }

  /** `date.fromordinal(n)`, for every day number and not only Python's range. */
  function FromOrdinal(n: int): Date
  {
    AddDays(EPOCH, n - 1)
  }

  /** The date FromOrdinal gives has ordinal n. (Stated apart from the function so that
      the ordinal arithmetic is brought in only where it is needed.) */
  lemma OrdinalFromOrdinal(n: int)
    ensures Ordinal(FromOrdinal(n)) == n
  {
    EpochOrdinal();
  }

  /** FromOrdinal and Ordinal are inverse: day numbers and calendar dates are the same days. */
  lemma FromOrdinalOrdinal(d: Date)
    ensures FromOrdinal(Ordinal(d)) == d
  {
    OrdinalFromOrdinal(Ordinal(d));
    OrdinalInjective(FromOrdinal(Ordinal(d)), d);
  }

  // ---------------------------------------------------------------------------
  // Weeks (Monday to Sunday) on day numbers
  // ---------------------------------------------------------------------------

  /** `day - timedelta(days=dayofweek % 7)`: the Monday that starts the week of day n. */
  function MondayOf(n: int): (r: int)
    ensures DayOfWeek(r) == 0 && n - 6 <= r <= n
  {
    WeekOffsets(n);
    n - DayOfWeek(n) % 7
  }

  /** `day - timedelta(days=dayofweek % 7 - 6)`: the Sunday that ends the week of day n. */
  function SundayOf(n: int): (r: int)
    ensures DayOfWeek(r) == 6 && n <= r <= n + 6
  {
    WeekOffsets(n);
    n - (DayOfWeek(n) % 7 - 6)
  }

  lemma WeekOffsets(n: int)
    ensures 0 <= DayOfWeek(n) % 7 <= 6
    ensures DayOfWeek(n - DayOfWeek(n) % 7) == 0
    ensures DayOfWeek(n - (DayOfWeek(n) % 7 - 6)) == 6
  {
    ModShift(n, -(DayOfWeek(n) % 7));
    ModShift(n, -(DayOfWeek(n) % 7 - 6));
  }

  lemma ModShift(x: int, k: int)
    ensures DayOfWeek(x + k) == (DayOfWeek(x) + k) % 7
  {
  }

  /** The week start of n is exactly the Monday at most six days before n. */
  lemma MondayOfIff(n: int, w: int)
    ensures MondayOf(n) == w <==> DayOfWeek(w) == 0 && w <= n <= w + 6
  {
    if DayOfWeek(w) == 0 && w <= n <= w + 6 {
      ModShift(w, n - w);
      assert DayOfWeek(n) == n - w;
    }
  }

  /** The week end is the week start plus six days. */
  lemma SundayIsMondayPlusSix(n: int)
    ensures SundayOf(n) == MondayOf(n) + 6
  {
  }

  /** Snapping a Monday leaves it where it is. */
  lemma MondayOfIdempotent(n: int)
    ensures MondayOf(MondayOf(n)) == MondayOf(n)
  {
    MondayOfIff(MondayOf(n), MondayOf(n));
  }

  /** `date - timedelta(days=date.weekday() % 7)` on a calendar date: the same Monday rule. */
  function WeekStart(d: Date): (r: Date)
    ensures Ordinal(r) == MondayOf(Ordinal(d))
  {
    AddDays(d, -(Weekday(d) % 7))
  }

  // ---------------------------------------------------------------------------
  // Months and years (`relativedelta(months=n)`, `relativedelta(years=n)`)
  // ---------------------------------------------------------------------------

  function Min(a: int, b: int): int { if a <= b then a else b }

  /** Months since the start of year 0. */
  function MonthIndex(d: Ymd): int
  {
    d.year * 12 + d.month - 1
  }

  /** `d + relativedelta(months=n)`: n calendar months on, the day clamped to the month's length. */
  function ShiftMonths(d: Date, n: int): (r: Date)
    ensures MonthIndex(r) == MonthIndex(d) + n
    ensures r.day <= d.day && (r.day == d.day || r.day == DaysInMonth(r.year, r.month))
  {
    var total := MonthIndex(d) + n;
    var y, m := total / 12, total % 12 + 1;
    Ymd(y, m, Min(d.day, DaysInMonth(y, m)))
  }

  /** `d + relativedelta(years=n)`: n years on, 29 February clamped to 28 in a common year. */
  function ShiftYears(d: Date, n: int): (r: Date)
    ensures r.year == d.year + n && r.month == d.month
    ensures r.day == d.day || (d.month == 2 && d.day == 29 && !IsLeapYear(d.year + n) && r.day == 28)
  {
    Ymd(d.year + n, d.month, Min(d.day, DaysInMonth(d.year + n, d.month)))
  }

  /** Shifting by n years is shifting by 12n months. */
  lemma YearsAreTwelveMonths(d: Date, n: int)
    ensures ShiftYears(d, n) == ShiftMonths(d, 12 * n)
  {
    var total := MonthIndex(d) + 12 * n;
    assert total == (d.year + n) * 12 + (d.month - 1);
    assert total / 12 == d.year + n && total % 12 == d.month - 1;
  }

  /** Days up to the 28th exist in every month, so they survive a month shift. */
  lemma ShiftMonthsKeepsEarlyDays(d: Date, n: int)
    requires d.day <= 28
    ensures ShiftMonths(d, n).day == d.day
  {
  }
}
