/**
 * The hour table: `hours_in_site` turns one stay into one row per hour the
 * patient spent on site, and the driver loop concatenates the rows of every
 * stay. The loop is a method proved against the specification function
 * `StayHours`; the properties of the expansion are lemmas about that function.
 */
module Expansion {
  import opened Wrappers
  import opened Text
  import opened Calendar

  /** One row of the cleaned input: a stay at one site. Dates are day numbers; times are
      text such as "08:15". */
  datatype Stay = Stay(
    siteCode: string,
    arrivalDate: Day,
    arrivalTime: string,
    departureDate: Day,
    departureTime: string)

  /** One row of the hour table. */
  datatype HourRow = HourRow(date: Day, hour: int, siteCode: string, patients: nat, arrivals: nat)

  datatype StayError =
    | BadHour(time: string)       // `int()` of the first two characters raises ValueError
    | HourOutOfRange(hour: int)   // an hour outside 0..23, which the model rejects

  // ---------------------------------------------------------------------------
  // get_hour
  // ---------------------------------------------------------------------------

  /** `get_hour(time_value)`: `int()` of the first two characters (fewer if the text is shorter). */
  function GetHour(time: string): Option<int>
  {
    ParseInt(time[..if |time| < 2 then |time| else 2])
  }

  /** Two leading digits are read as a two-digit number, whatever follows them. */
  lemma GetHourTwoDigits(time: string)
    requires |time| >= 2 && IsDigit(time[0]) && IsDigit(time[1])
    ensures GetHour(time) == Some((time[0] as int - '0' as int) * 10 + (time[1] as int - '0' as int))
  {
    var t := time[..2];
    assert !IsSpace(t[0]) && !IsSpace(t[1]);
    assert StripLeft(t) == t;
    assert StripRight(t) == t;
    assert t[0] != '-' && t[0] != '+';
    assert IsDigitGroup(t);
    assert t[..1] == [t[0]];
    assert DigitsValue([t[0]]) == t[0] as int - '0' as int by {
      assert [t[0]][..0] == [];
    }
    assert DigitsValue(t) == DigitsValue(t[..1]) * 10 + (t[1] as int - '0' as int);
  }

  /** The hour as written by a clock: two digits, zero padded. */
  function ClockHour(h: int): (s: string)
    requires 0 <= h <= 23
    ensures |s| == 2 && IsDigit(s[0]) && IsDigit(s[1])
  {
    [DigitChar(h / 10), DigitChar(h % 10)]
  }

  /** Reading back the hour of a clock time "HH..." gives HH. */
  lemma GetHourOfClockTime(h: int, rest: string)
    requires 0 <= h <= 23
    ensures GetHour(ClockHour(h) + rest) == Some(h)
  {
    var time := ClockHour(h) + rest;
    GetHourTwoDigits(time);
  }

  /** A time written without a leading zero, such as "8:30", makes `int("8:")` raise. */
  lemma SingleDigitHourRejected()
    ensures GetHour("8:30") == None
  {
    assert "8:30"[..2] == "8:";
    assert StripLeft("8:") == "8:";
    assert StripRight("8:") == "8:";
  }

  // ---------------------------------------------------------------------------
  // The walk from arrival to departure
  // ---------------------------------------------------------------------------

  /** One step of the loop: hour 23 wraps to hour 0 of the next day, any other hour goes up by one. */
  function Advance(d: Day, h: int): (Day, int)
  {
    if h == 23 then (d + 1, 0) else (d, h + 1)
  }

  /** Where the loop stands after i steps from (d, h). */
  function SlotAfter(d: Day, h: int, i: nat): (Day, int)
  {
    if i == 0 then (d, h) else Advance(SlotAfter(d, h, i - 1).0, SlotAfter(d, h, i - 1).1)
  }

  /** The loop condition at line 143: still before the departure date, or on it and not past its hour. */
  predicate OnSite(d: Day, h: int, end: Day, endHour: int)
  {
    d < end || (d == end && h <= endHour)
  }

  /** The absolute hour number of hour h on day d. */
  function Position(d: Day, h: int): int
  {
    d * 24 + h
  }

  /** Number of hours from (start, startHour) to (end, endHour), both included; none when the end is earlier. */
  function HoursOnSite(start: Day, startHour: int, end: Day, endHour: int): nat
  {
    var n := Position(end, endHour) - Position(start, startHour) + 1;
    if n < 0 then 0 else n
  }

  /** The row emitted at step i of the walk from (start, startHour). */
  function SlotRow(site: string, start: Day, startHour: int, i: nat): HourRow
  {
    HourRow(SlotAfter(start, startHour, i).0, SlotAfter(start, startHour, i).1, site, 1,
            if i == 0 then 1 else 0)
  }

  /** The first n rows of the walk. */
  function Walk(site: string, start: Day, startHour: int, n: nat): (rows: seq<HourRow>)
    ensures |rows| == n
  {
    if n == 0 then [] else Walk(site, start, startHour, n - 1) + [SlotRow(site, start, startHour, n - 1)]
  }

  /** The rows `hours_in_site` builds for a stay whose hours are in range. */
  function Expansion(site: string, start: Day, startHour: int, end: Day, endHour: int): seq<HourRow>
  {
    Walk(site, start, startHour, HoursOnSite(start, startHour, end, endHour))
  }

  /** Row i of the walk is the row of step i. */
  lemma {:induction false} WalkAt(site: string, start: Day, startHour: int, n: nat, i: nat)
    requires i < n
    ensures Walk(site, start, startHour, n)[i] == SlotRow(site, start, startHour, i)
  {
    if i < n - 1 {
      WalkAt(site, start, startHour, n - 1, i);
    }
  }

  /** From a valid hour, every step moves one hour forward in absolute time and stays on the clock. */
  lemma {:induction false} SlotPosition(d: Day, h: int, i: nat)
    requires 0 <= h <= 23
    ensures 0 <= SlotAfter(d, h, i).1 <= 23
    ensures Position(SlotAfter(d, h, i).0, SlotAfter(d, h, i).1) == Position(d, h) + i
  {
    if i > 0 {
      SlotPosition(d, h, i - 1);
    }
  }

  /** Two slots on the clock with the same absolute hour are the same slot. */
  lemma PositionInjective(d: Day, h: int, e: Day, k: int)
    requires 0 <= h <= 23 && 0 <= k <= 23
    requires Position(d, h) == Position(e, k)
    ensures d == e && h == k
  {

  }

  /** On the clock, the loop condition says exactly that the current hour is not past the departure hour. */
  lemma OnSiteIsPosition(d: Day, h: int, end: Day, endHour: int)
    requires 0 <= h <= 23 && 0 <= endHour <= 23
    ensures OnSite(d, h, end, endHour) <==> Position(d, h) <= Position(end, endHour)
  {

  }

  // ---------------------------------------------------------------------------
  // hours_in_site
  // ---------------------------------------------------------------------------

  /** Both hours of a stay, or the reason they cannot be used. */
  function StayClock(stay: Stay): (r: Result<(int, int), StayError>)
    ensures r.Ok? ==> 0 <= r.value.0 <= 23 && 0 <= r.value.1 <= 23
  {
    match GetHour(stay.arrivalTime)
    case None => Err(BadHour(stay.arrivalTime))
    case Some(startHour) =>
      match GetHour(stay.departureTime)
      case None => Err(BadHour(stay.departureTime))
      case Some(endHour) =>
        if !(0 <= startHour <= 23) then Err(HourOutOfRange(startHour))
        else if !(0 <= endHour <= 23) then Err(HourOutOfRange(endHour))
        else Ok((startHour, endHour))
  }

  /** What `hours_in_site(stay)` returns, or the error it stops with. */
  function StayHours(stay: Stay): Result<seq<HourRow>, StayError>
  {
    match StayClock(stay)
    case Err(e) => Err(e)
    case Ok(clock) =>
      Ok(Expansion(stay.siteCode, stay.arrivalDate, clock.0, stay.departureDate, clock.1))
  }

  /** Number of rows a stay contributes (none for a stay whose hours cannot be read). */
  function StayLength(stay: Stay): nat
  {
    match StayClock(stay)
    case Err(_) => 0
    case Ok(clock) => HoursOnSite(stay.arrivalDate, clock.0, stay.departureDate, clock.1)
  }

  /** `hours_in_site(pat)`: read both hours, then walk the stay. */
  method HoursInSite(stay: Stay) returns (result: Result<seq<HourRow>, StayError>)
    ensures result == StayHours(stay)
  {
    var startHour := GetHour(stay.arrivalTime);
    if startHour.None? {
      return Err(BadHour(stay.arrivalTime));
    }
    var endHour := GetHour(stay.departureTime);
    if endHour.None? {
      return Err(BadHour(stay.departureTime));
    }
    if !(0 <= startHour.value <= 23) {
      return Err(HourOutOfRange(startHour.value));
    }
    if !(0 <= endHour.value <= 23) {
      return Err(HourOutOfRange(endHour.value));
    }
    var hours := WalkStay(stay.siteCode, stay.arrivalDate, startHour.value, stay.departureDate, endHour.value);
    return Ok(hours);
  }

  /** The loop of `hours_in_site` (lines 137-156): one row per hour while on site, the first
      row marked as the arrival, 23 wrapping to hour 0 of the next day. */
  method WalkStay(site: string, startDate: Day, startHour: int, endDate: Day, endHour: int)
    returns (hours: seq<HourRow>)
    requires 0 <= startHour <= 23 && 0 <= endHour <= 23
    ensures hours == Expansion(site, startDate, startHour, endDate, endHour)
  {
    ghost var total := HoursOnSite(startDate, startHour, endDate, endHour);

    var currentDate, currentHour := startDate, startHour;
    hours := [];
    var arrivalMarked := false;
    while OnSite(currentDate, currentHour, endDate, endHour)
      invariant (currentDate, currentHour) == SlotAfter(startDate, startHour, |hours|)
      invariant |hours| <= total
      invariant hours == Walk(site, startDate, startHour, |hours|)
      invariant arrivalMarked <==> |hours| > 0
      decreases total - |hours|
    {
      WalkInside(startDate, startHour, endDate, endHour, |hours|);
      if arrivalMarked {
        hours := hours + [HourRow(currentDate, currentHour, site, 1, 0)];
      } else {
        hours := hours + [HourRow(currentDate, currentHour, site, 1, 1)];
        arrivalMarked := true;
      }
      if currentHour == 23 {
        currentHour := 0;
        currentDate := currentDate + 1;
      } else {
        currentHour := currentHour + 1;
      }
    }
    WalkLeaves(startDate, startHour, endDate, endHour, |hours|);
  }

  /** While the loop condition holds after n steps, fewer than all the stay's hours have been emitted. */
  lemma WalkInside(startDate: Day, startHour: int, endDate: Day, endHour: int, n: nat)
    requires 0 <= startHour <= 23 && 0 <= endHour <= 23
    requires OnSite(SlotAfter(startDate, startHour, n).0, SlotAfter(startDate, startHour, n).1, endDate, endHour)
    ensures n < HoursOnSite(startDate, startHour, endDate, endHour)
  {
    var slot := SlotAfter(startDate, startHour, n);
    SlotPosition(startDate, startHour, n);
    OnSiteIsPosition(slot.0, slot.1, endDate, endHour);
  }

  /** Once the loop condition fails after n steps, all the stay's hours have been emitted. */
  lemma WalkLeaves(startDate: Day, startHour: int, endDate: Day, endHour: int, n: nat)
    requires 0 <= startHour <= 23 && 0 <= endHour <= 23
    requires !OnSite(SlotAfter(startDate, startHour, n).0, SlotAfter(startDate, startHour, n).1, endDate, endHour)
    ensures n >= HoursOnSite(startDate, startHour, endDate, endHour)
  {
    var slot := SlotAfter(startDate, startHour, n);
    SlotPosition(startDate, startHour, n);
    OnSiteIsPosition(slot.0, slot.1, endDate, endHour);
  }

  // ---------------------------------------------------------------------------
  // Properties of one stay's rows
  // ---------------------------------------------------------------------------

  /** The rows start at the arrival slot and each next row is the hour after the previous one,
      23 being followed by hour 0 of the next day. */
  lemma ExpansionConsecutive(site: string, start: Day, startHour: int, end: Day, endHour: int)
    ensures var rows := Expansion(site, start, startHour, end, endHour);
            && (|rows| > 0 ==> rows[0].date == start && rows[0].hour == startHour)
            && (forall i :: 0 < i < |rows| ==>
                  (rows[i].date, rows[i].hour) == Advance(rows[i - 1].date, rows[i - 1].hour))
  {
    var rows := Expansion(site, start, startHour, end, endHour);
    if |rows| > 0 {
      WalkAt(site, start, startHour, |rows|, 0);
    }
    forall i | 0 < i < |rows|
      ensures (rows[i].date, rows[i].hour) == Advance(rows[i - 1].date, rows[i - 1].hour)
    {
      WalkAt(site, start, startHour, |rows|, i);
      WalkAt(site, start, startHour, |rows|, i - 1);
    }
  }

  /** The number of rows is the number of hours from arrival to departure, both included,
      and zero when the departure is earlier than the arrival. */
  lemma ExpansionLength(stay: Stay)
    requires StayHours(stay).Ok?
    ensures var clock := StayClock(stay).value;
            var n := (stay.departureDate - stay.arrivalDate) * 24 + clock.1 - clock.0 + 1;
            |StayHours(stay).value| == StayLength(stay) == (if n < 0 then 0 else n)
  {
  }

  /** The last row is the departure slot. */
  lemma ExpansionEndsAtDeparture(site: string, start: Day, startHour: int, end: Day, endHour: int)
    requires 0 <= startHour <= 23 && 0 <= endHour <= 23
    requires HoursOnSite(start, startHour, end, endHour) > 0
    ensures var rows := Expansion(site, start, startHour, end, endHour);
            rows[|rows| - 1].date == end && rows[|rows| - 1].hour == endHour
  {
    var rows := Expansion(site, start, startHour, end, endHour);
    var n := |rows|;
    WalkAt(site, start, startHour, n, n - 1);
    SlotPosition(start, startHour, n - 1);
    PositionInjective(rows[n - 1].date, rows[n - 1].hour, end, endHour);
  }

  /** Every row is one patient at the stay's site on a clock hour, and only the first row is an arrival. */
  lemma ExpansionRows(stay: Stay)
    requires StayHours(stay).Ok?
    ensures var rows := StayHours(stay).value;
            forall i :: 0 <= i < |rows| ==>
              && rows[i].patients == 1
              && rows[i].siteCode == stay.siteCode
              && 0 <= rows[i].hour <= 23
              && (rows[i].arrivals == 1 <==> i == 0)
              && rows[i].arrivals <= 1
  {
    var clock := StayClock(stay).value;
    var rows := StayHours(stay).value;
    forall i | 0 <= i < |rows|
      ensures && rows[i].patients == 1
              && rows[i].siteCode == stay.siteCode
              && 0 <= rows[i].hour <= 23
              && (rows[i].arrivals == 1 <==> i == 0)
              && rows[i].arrivals <= 1
    {
      WalkAt(stay.siteCode, stay.arrivalDate, clock.0, |rows|, i);
      SlotPosition(stay.arrivalDate, clock.0, i);
    }
  }

  /** No two rows of one stay fall in the same hour. */
  lemma ExpansionDistinctSlots(stay: Stay)
    requires StayHours(stay).Ok?
    ensures var rows := StayHours(stay).value;
            forall i, j :: 0 <= i < j < |rows| ==>
              (rows[i].date, rows[i].hour) != (rows[j].date, rows[j].hour)
  {
    var clock := StayClock(stay).value;
    var rows := StayHours(stay).value;
    forall i, j | 0 <= i < j < |rows|
      ensures (rows[i].date, rows[i].hour) != (rows[j].date, rows[j].hour)
    {
      WalkAt(stay.siteCode, stay.arrivalDate, clock.0, |rows|, i);
      WalkAt(stay.siteCode, stay.arrivalDate, clock.0, |rows|, j);
      SlotPosition(stay.arrivalDate, clock.0, i);
      SlotPosition(stay.arrivalDate, clock.0, j);
    }
  }

  /** A row lies in the stay exactly when its hour is between arrival and departure. */
  lemma ExpansionCoversStay(stay: Stay, d: Day, h: int)
    requires StayHours(stay).Ok?
    requires 0 <= h <= 23
    ensures var clock := StayClock(stay).value;
            var rows := StayHours(stay).value;
            (exists i :: 0 <= i < |rows| && rows[i].date == d && rows[i].hour == h)
            <==> Position(stay.arrivalDate, clock.0) <= Position(d, h) <= Position(stay.departureDate, clock.1)
  {
    var clock := StayClock(stay).value;
    var rows := StayHours(stay).value;
    var p := Position(d, h) - Position(stay.arrivalDate, clock.0);
    if Position(stay.arrivalDate, clock.0) <= Position(d, h) <= Position(stay.departureDate, clock.1) {
      WalkAt(stay.siteCode, stay.arrivalDate, clock.0, |rows|, p);
      SlotPosition(stay.arrivalDate, clock.0, p);
      PositionInjective(rows[p].date, rows[p].hour, d, h);
      assert rows[p].date == d && rows[p].hour == h;
    }
    forall i | 0 <= i < |rows| && rows[i].date == d && rows[i].hour == h
      ensures Position(stay.arrivalDate, clock.0) <= Position(d, h) <= Position(stay.departureDate, clock.1)
    {
      WalkAt(stay.siteCode, stay.arrivalDate, clock.0, |rows|, i);
      SlotPosition(stay.arrivalDate, clock.0, i);
    }
  }

  // ---------------------------------------------------------------------------
  // Out-of-range hours: the loop as written
  // ---------------------------------------------------------------------------

  /** From an hour above 23 the wrap at 23 is never reached: the hour just keeps growing on the same day. */
  lemma {:induction false} NoWrapAboveClock(d: Day, h: int, i: nat)
    requires h >= 24
    ensures SlotAfter(d, h, i) == (d, h + i)
  {
    if i > 0 {
      NoWrapAboveClock(d, h, i - 1);
    }
  }

  /** An arrival hour above 23 with a departure on a later day: the loop condition holds after
      every number of steps, so `hours_in_site` never returns. */
  lemma LoopNeverEnds(start: Day, startHour: int, end: Day, endHour: int, i: nat)
    requires startHour >= 24 && start < end
    ensures OnSite(SlotAfter(start, startHour, i).0, SlotAfter(start, startHour, i).1, end, endHour)
  {
    NoWrapAboveClock(start, startHour, i);
  }

  // ---------------------------------------------------------------------------
  // The driver loop
  // ---------------------------------------------------------------------------

  /** `all_hours += hours_in_site(row)` over the stays in order; the first failing stay stops it. */
  function ExpandStays(stays: seq<Stay>): Result<seq<HourRow>, StayError>
  {
    if |stays| == 0 then Ok([])
    else
      match ExpandStays(stays[..|stays| - 1])
      case Err(e) => Err(e)
      case Ok(rows) =>
        match StayHours(stays[|stays| - 1])
        case Err(e) => Err(e)
        case Ok(more) => Ok(rows + more)
  }

  /** Once a prefix of the stays fails, the whole expansion fails with the same error. */
  lemma {:induction false} ExpandStaysFailurePersists(stays: seq<Stay>, j: nat)
    requires j <= |stays|
    requires ExpandStays(stays[..j]).Err?
    ensures ExpandStays(stays) == ExpandStays(stays[..j])
    decreases |stays| - j
  {
    if j < |stays| {
      assert stays[..j + 1][..j] == stays[..j];
      ExpandStaysFailurePersists(stays, j + 1);
    } else {
      assert stays[..j] == stays;
    }
  }

  /** The loop at lines 161-163. */
  method ExpandAll(stays: seq<Stay>) returns (result: Result<seq<HourRow>, StayError>)
    ensures result == ExpandStays(stays)
  {
    var allHours: seq<HourRow> := [];
    var i := 0;
    while i < |stays|
      invariant 0 <= i <= |stays|
      invariant ExpandStays(stays[..i]) == Ok(allHours)
    {
      assert stays[..i + 1][..i] == stays[..i];
      var hours := HoursInSite(stays[i]);
      if hours.Err? {
        ExpandStaysFailurePersists(stays, i + 1);
        return Err(hours.error);
      }
      allHours := allHours + hours.value;
      i := i + 1;
    }
    assert stays[..i] == stays;
    return Ok(allHours);
  }

  /** Every stay's hours can be read and are on the clock. */
  predicate AllReadable(stays: seq<Stay>)
  {
    forall k :: 0 <= k < |stays| ==> StayHours(stays[k]).Ok?
  }

  /** The expansion succeeds exactly when every stay's hours can be read and are on the clock. */
  lemma {:induction false} ExpandStaysOk(stays: seq<Stay>)
    ensures ExpandStays(stays).Ok? <==> AllReadable(stays)
  {
    if |stays| > 0 {
      var init, last := stays[..|stays| - 1], stays[|stays| - 1];
      ExpandStaysOk(init);
      assert AllReadable(stays) <==> AllReadable(init) && StayHours(last).Ok? by {
        assert forall k :: 0 <= k < |init| ==> init[k] == stays[k];
      }
    }
  }

  /** Total hours of a list of stays. */
  function TotalLength(stays: seq<Stay>): nat
  {
    if |stays| == 0 then 0 else TotalLength(stays[..|stays| - 1]) + StayLength(stays[|stays| - 1])
  }

  /** Number of stays that produce at least one row. */
  function NonEmptyStays(stays: seq<Stay>): nat
  {
    if |stays| == 0 then 0
    else NonEmptyStays(stays[..|stays| - 1]) + (if StayLength(stays[|stays| - 1]) > 0 then 1 else 0)
  }

  /** Sum of the arrivals column. */
  function ArrivalSum(rows: seq<HourRow>): nat
  {
    if |rows| == 0 then 0 else ArrivalSum(rows[..|rows| - 1]) + rows[|rows| - 1].arrivals
  }

  lemma {:induction false} ArrivalSumAppend(a: seq<HourRow>, b: seq<HourRow>)
    ensures ArrivalSum(a + b) == ArrivalSum(a) + ArrivalSum(b)
    decreases |b|
  {
    if |b| > 0 {
      assert (a + b)[..|a + b| - 1] == a + b[..|b| - 1];
      ArrivalSumAppend(a, b[..|b| - 1]);
    } else {
      assert a + b == a;
    }
  }

  /** The rows of one stay hold exactly one arrival when there are any rows at all. */
  lemma {:induction false} StayArrivals(stay: Stay)
    requires StayHours(stay).Ok?
    ensures ArrivalSum(StayHours(stay).value) == if StayLength(stay) > 0 then 1 else 0
  {
    var rows := StayHours(stay).value;
    assert |rows| == StayLength(stay);
    ExpansionRows(stay);
    ArrivalsFromFirst(rows, |rows|);
    assert rows[..|rows|] == rows;
  }

  lemma {:induction false} ArrivalsFromFirst(rows: seq<HourRow>, n: nat)
    requires n <= |rows|
    requires forall i :: 0 <= i < |rows| ==> (rows[i].arrivals == 1 <==> i == 0) && rows[i].arrivals <= 1
    ensures ArrivalSum(rows[..n]) == if n > 0 then 1 else 0
  {
    if n > 0 {
      assert rows[..n][..n - 1] == rows[..n - 1];
      ArrivalsFromFirst(rows, n - 1);
    }
  }

  /** Over all stays: one row per hour on site, and one arrival per stay that has any hours. */
  lemma {:induction false} ExpandStaysTotals(stays: seq<Stay>)
    requires ExpandStays(stays).Ok?
    ensures |ExpandStays(stays).value| == TotalLength(stays)
    ensures ArrivalSum(ExpandStays(stays).value) == NonEmptyStays(stays)
  {
    if |stays| > 0 {
      var init := stays[..|stays| - 1];
      var last := stays[|stays| - 1];
      ExpandStaysTotals(init);
      StayArrivals(last);
      ArrivalSumAppend(ExpandStays(init).value, StayHours(last).value);
    }
  }
}
