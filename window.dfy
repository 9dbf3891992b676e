/**
 * The processing window: `process_date_window` turns the DATE_WINDOW setting
 * into the first date to query, and the query start is then snapped back to
 * the Monday of that date's week so that every queried week is whole.
 */
module DateWindow {
  import opened Wrappers
  import opened Text
  import opened Calendar

  /** The DATE_WINDOW setting: a bare number of days, or text such as "3 weeks". */
  datatype Window = Days(count: int) | Written(text: string)

  datatype WindowError =
    | Malformed(window: string)       // not exactly two space-separated fields
    | UnsupportedUnit(unit: string)   // a unit other than day, week, month, year
    | NotANumber(amount: string)      // `int()` raises ValueError on the amount
    | OutOfRange                      // the start date is outside Python's years 1..9999

  /** The unit field with one trailing 's' removed. */
  function Unit(field: string): string
  {
    if |field| > 0 && field[|field| - 1] == 's' then field[..|field| - 1] else field
  }

  function InRange(d: Date): Result<Date, WindowError>
  {
    if InPythonRange(d) then Ok(d) else Err(OutOfRange)
  }

  /** `process_date_window(window, date_end)`. A day window of n days ends on
      date_end and starts n - 1 days before it, a week window 7n - 1 days
      before it; months and years step back on the calendar. */
  function ProcessDateWindow(window: Window, dateEnd: Date): (r: Result<Date, WindowError>)
    ensures r.Ok? ==> InPythonRange(r.value)
    ensures window.Days? && r.Ok? ==> Ordinal(dateEnd) - Ordinal(r.value) == window.count - 1
  {
    match window
    case Days(n) => InRange(AddDays(dateEnd, -(n - 1)))
    case Written(text) =>
      var fields := Split(text, ' ');
      if |fields| != 2 then Err(Malformed(text))
      else
        var unit := Unit(fields[1]);
        if unit != "day" && unit != "week" && unit != "month" && unit != "year" then
          Err(UnsupportedUnit(fields[1]))
        else
          match ParseInt(fields[0])
          case None => Err(NotANumber(fields[0]))
          case Some(n) => InRange(StepBack(n, unit, dateEnd))
  }

  /** The window start for an amount and a supported unit, before the range check:
      n days back to the first of n days ending on date_end, 7n - 1 days for n weeks,
      n calendar months or n calendar years back. */
  function StepBack(n: int, unit: string, dateEnd: Date): (r: Date)
    ensures unit == "day" ==> Ordinal(dateEnd) - Ordinal(r) + 1 == n
    ensures unit == "week" ==> Ordinal(dateEnd) - Ordinal(r) + 1 == 7 * n
    ensures unit == "month" ==> MonthIndex(r) == MonthIndex(dateEnd) - n
    ensures unit == "year" ==> r.year == dateEnd.year - n && r.month == dateEnd.month
    ensures unit == "month" || unit == "year" ==> r.day <= dateEnd.day
    ensures unit == "month" || unit == "year" ==> r.day == Min(dateEnd.day, DaysInMonth(r.year, r.month))
  {
    if unit == "day" then AddDays(dateEnd, -(n - 1))
    else if unit == "week" then AddDays(dateEnd, -(n * 7 - 1))
    else if unit == "month" then ShiftMonths(dateEnd, -n)
    else ShiftYears(dateEnd, -n)
  }

  /** Line 74: the Monday on or before the window start. */
  function QueryWeekStart(window: Window, now: Date): (r: Result<Date, WindowError>)
    ensures ProcessDateWindow(window, now).Err? <==> r.Err?
    ensures r.Ok? ==> WeekStart(ProcessDateWindow(window, now).value) == r.value
  {
    match ProcessDateWindow(window, now)
    case Err(e) => Err(e)
    case Ok(start) => Ok(WeekStart(start))
  }

  /** The query start is a Monday, at most six days before the window start,
      and still a date Python can hold. */
  lemma QueryWeekStartIsMonday(window: Window, now: Date)
    requires QueryWeekStart(window, now).Ok?
    ensures var start := ProcessDateWindow(window, now).value;
            var monday := QueryWeekStart(window, now).value;
            && Weekday(monday) == 0
            && Ordinal(start) - 6 <= Ordinal(monday) <= Ordinal(start)
            && InPythonRange(monday)
  {
    WeekStartInRange(ProcessDateWindow(window, now).value);
  }

  /** 0001-01-01 is a Monday, so snapping a date Python can hold to its
      Monday never leaves Python's range. */
  lemma WeekStartInRange(start: Date)
    requires InPythonRange(start)
    ensures InPythonRange(WeekStart(start))
  {
    InPythonRangeByOrdinal(start);
    InPythonRangeByOrdinal(WeekStart(start));
    MondayOrdinal(Ordinal(WeekStart(start)));
  }

  /** Mondays have ordinals 1, 8, 15, ... and -6, -13, ... */
  lemma MondayOrdinal(o: int)
    requires DayOfWeek(o) == 0 && o >= -5
    ensures o >= 1
  {
  }

  /** The text must hold exactly one space; otherwise the window is rejected
      as malformed before anything else is looked at. */
  lemma MalformedIffNotOneSpace(text: string, dateEnd: Date)
    ensures ProcessDateWindow(Written(text), dateEnd) == Err(Malformed(text))
            <==> Occurrences(text, ' ') != 1
  {
    SplitCount(text, ' ');
  }

  /** A unit outside day/week/month/year (after dropping one trailing 's') is
      rejected whatever the amount, even one that is not a number. */
  lemma UnsupportedUnitRejected(amount: string, unit: string, dateEnd: Date)
    requires ' ' !in amount && ' ' !in unit
    requires Unit(unit) !in {"day", "week", "month", "year"}
    ensures ProcessDateWindow(Written(amount + " " + unit), dateEnd) == Err(UnsupportedUnit(unit))
  {
    TwoFields(amount, unit);
  }

  /** With one space and a supported unit, the amount is read with `int()`: the window is
      rejected as not a number exactly when that read fails, and then whatever the unit. */
  lemma NotANumberIffUnreadable(amount: string, unit: string, dateEnd: Date)
    requires ' ' !in amount && ' ' !in unit
    requires Unit(unit) in {"day", "week", "month", "year"}
    ensures var r := ProcessDateWindow(Written(amount + " " + unit), dateEnd);
            && (r.Err? && r.error.NotANumber? <==> ParseInt(amount).None?)
            && (ParseInt(amount).None? ==> r == Err(NotANumber(amount)))
  {
    TwoFields(amount, unit);
  }

  /** A written window "n unit" or "n units" steps back from date_end by the
      amount its unit names, and fails only when the start falls outside
      Python's years. */
  lemma WrittenWindowStart(n: int, unit: string, plural: bool, dateEnd: Date)
    requires unit in {"day", "week", "month", "year"}
    ensures var field := if plural then unit + "s" else unit;
            var r := ProcessDateWindow(Written(Show(n) + " " + field), dateEnd);
            && r == InRange(StepBack(n, unit, dateEnd))
            && (unit == "day" && r.Ok? ==> Ordinal(dateEnd) - Ordinal(r.value) + 1 == n)
            && (unit == "week" && r.Ok? ==> Ordinal(dateEnd) - Ordinal(r.value) + 1 == 7 * n)
  {
    var field := if plural then unit + "s" else unit;
    ShowHasNoSpace(n);
    UnitOfField(unit, plural);
    TwoFields(Show(n), field);
    ParseShow(n);
  }

  lemma UnitOfField(unit: string, plural: bool)
    requires unit in {"day", "week", "month", "year"}
    ensures ' ' !in (if plural then unit + "s" else unit)
    ensures Unit(if plural then unit + "s" else unit) == unit
  {
    var field := if plural then unit + "s" else unit;
    if plural {
      assert field[..|field| - 1] == unit;
    } else {
      assert unit[|unit| - 1] != 's';
    }
  }

  lemma TwoFields(amount: string, unit: string)
    requires ' ' !in amount && ' ' !in unit
    ensures Split(amount + " " + unit, ' ') == [amount, unit]
  {
    assert Join([amount, unit], ' ') == amount + " " + unit;
    SplitJoin([amount, unit], ' ');
  }

  lemma ShowHasNoSpace(n: int)
    ensures ' ' !in Show(n)
  {
    var digits := ShowNat(if n < 0 then -n else n);
    assert forall i :: 0 <= i < |digits| ==> digits[i] != ' ';
  }

  /** "1 day" and "1 days" both mean the window is today alone. */
  lemma OneDayWindowIsToday(plural: bool, dateEnd: Date)
    requires InPythonRange(dateEnd)
    ensures ProcessDateWindow(Written(if plural then "1 days" else "1 day"), dateEnd) == Ok(dateEnd)
  {
    WrittenWindowStart(1, "day", plural, dateEnd);
    assert Show(1) == "1";
    assert (if plural then "1 days" else "1 day") == Show(1) + " " + (if plural then "day" + "s" else "day");
    assert StepBack(1, "day", dateEnd) == dateEnd;
  }
}
