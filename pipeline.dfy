/**
 * The script's data path from the stays the query returns to the weekly
 * table: the window is read (lines 71-74), stays with a departure in the
 * future are dropped (line 111), every stay is walked hour by hour (lines
 * 161-165), the hours are counted per date, hour and site (line 173), the
 * week in progress is cut off (lines 176-178) and the weeks are summarised
 * (lines 181-210).
 */
module Pipeline {
  import opened Wrappers
  import opened Calendar
  import opened DateWindow
  import opened Grouping
  import opened Expansion
  import opened Hourly
  import opened Weekly

  datatype Failure =
    | BadWindow(windowError: WindowError)   // process_date_window raises
    | BadStay(stayError: StayError)         // hours_in_site raises on a stay
    | NoHourRows                            // no hour rows at all: the hourly groupby raises KeyError

  /** Line 111: keep the stays whose departure date is not after today, in order. */
  function Departed(stays: seq<Stay>, today: Day): seq<Stay>
  {
    if |stays| == 0 then []
    else
      var init := Departed(stays[..|stays| - 1], today);
      if stays[|stays| - 1].departureDate <= today then init + [stays[|stays| - 1]] else init
  }

  /** Lines 173-210 from the hour rows on. */
  function WeeklyFromHours(hours: seq<HourRow>, today: Day): seq<WeeklyRow>
  {
    WeeklyAggregate(BeforeCutoff(HourlyAggregate(hours), MostRecentWeekStart(today)))
  }

  /** Lines 108-210: the weekly table from the stays the query returns, on day `today`, or
      the error that stops the script. */
  function WeeklyOfStays(stays: seq<Stay>, today: Day): Result<seq<WeeklyRow>, Failure>
  {
    match ExpandStays(Departed(stays, today))
    case Err(e) => Err(BadStay(e))
    case Ok(hours) =>
      if |hours| == 0 then Err(NoHourRows) else Ok(WeeklyFromHours(hours, today))
  }

  /** The whole run: the window is read first (lines 71-74), and its start only shapes the
      query, which is not part of this model. */
  function WeeklyOccupancy(window: Window, stays: seq<Stay>, today: Day): Result<seq<WeeklyRow>, Failure>
  {
    match QueryWeekStart(window, FromOrdinal(today))
    case Err(e) => Err(BadWindow(e))
    case Ok(_) => WeeklyOfStays(stays, today)
  }

  /** The script body: the window, the future-departure filter, the driver loop and the
      two aggregations. */
  method Run(window: Window, stays: seq<Stay>, today: Day) returns (result: Result<seq<WeeklyRow>, Failure>)
    ensures result == WeeklyOccupancy(window, stays, today)
  {
    var queryStart := QueryWeekStart(window, FromOrdinal(today));
    if queryStart.Err? {
      return Err(BadWindow(queryStart.error));
    }
    var cleaned := Departed(stays, today);
    var allHours := ExpandAll(cleaned);
    if allHours.Err? {
      return Err(BadStay(allHours.error));
    }
    if |allHours.value| == 0 {
      return Err(NoHourRows);
    }
    return Ok(WeeklyFromHours(allHours.value, today));
  }

  // ---------------------------------------------------------------------------
  // The departure filter
  // ---------------------------------------------------------------------------

  /** The filter keeps every copy of a departed stay and no copy of any other, so it is no
      longer than its input. */
  lemma {:induction false} DepartedCopies(stays: seq<Stay>, today: Day)
    ensures var kept := Departed(stays, today);
            && (forall s :: multiset(kept)[s] == if s.departureDate <= today then multiset(stays)[s] else 0)
            && |kept| <= |stays|
  {
    if |stays| > 0 {
      var init, last := stays[..|stays| - 1], stays[|stays| - 1];
      DepartedCopies(init, today);
      assert multiset(stays) == multiset(init) + multiset{last} by {
        assert stays == init + [last];
      }
    }
  }

  /** The filter keeps exactly the stays that have departed by today, unchanged and in order. */
  lemma DepartedKeeps(stays: seq<Stay>, today: Day)
    ensures var kept := Departed(stays, today);
            && (forall s :: s in kept <==> s in stays && s.departureDate <= today)
            && (forall s :: multiset(kept)[s] == if s.departureDate <= today then multiset(stays)[s] else 0)
            && |kept| <= |stays|
  {
    var kept := Departed(stays, today);
    DepartedCopies(stays, today);
    forall s
      ensures s in kept <==> s in stays && s.departureDate <= today
    {
      assert s in kept <==> multiset(kept)[s] > 0;
      assert s in stays <==> multiset(stays)[s] > 0;
    }
  }

  // ---------------------------------------------------------------------------
  // Hour rows of many stays
  // ---------------------------------------------------------------------------

  /** Stay s was on site at hour h of day d: its hours can be read and (d, h) lies between its
      arrival hour and its departure hour, both included. */
  predicate Covers(s: Stay, d: Day, h: int)
  {
    && StayClock(s).Ok?
    && Position(s.arrivalDate, StayClock(s).value.0) <= Position(d, h) <= Position(s.departureDate, StayClock(s).value.1)
  }

  /** Some stay at the site was on site at hour h of day d. */
  predicate Attended(stays: seq<Stay>, d: Day, h: int, site: string)
  {
    exists j :: 0 <= j < |stays| && stays[j].siteCode == site && Covers(stays[j], d, h)
  }

  /** At every hour of the seven days from ws, some stay at the site was on site. */
  predicate AttendedAllWeek(stays: seq<Stay>, ws: Day, site: string)
  {
    forall d, h :: ws <= d <= ws + 6 && 0 <= h <= 23 ==> Attended(stays, d, h, site)
  }

  lemma HasRowKeyAppend(a: seq<HourRow>, b: seq<HourRow>, key: HourKey)
    ensures HasRowKey(a + b, key) <==> HasRowKey(a, key) || HasRowKey(b, key)
  {
    if HasRowKey(a + b, key) {
      var j :| 0 <= j < |a + b| && KeyOf((a + b)[j]) == key;
      if j < |a| {
        assert KeyOf(a[j]) == key;
      } else {
        assert KeyOf(b[j - |a|]) == key;
      }
    }
    if HasRowKey(a, key) {
      var j :| 0 <= j < |a| && KeyOf(a[j]) == key;
      assert KeyOf((a + b)[j]) == key;
    }
    if HasRowKey(b, key) {
      var j :| 0 <= j < |b| && KeyOf(b[j]) == key;
      assert KeyOf((a + b)[|a| + j]) == key;
    }
  }

  /** A stay's rows hold (d, h) at a site exactly when the stay is at that site and covers it. */
  lemma StayKeys(s: Stay, key: HourKey)
    requires StayHours(s).Ok? && 0 <= key.hour <= 23
    ensures HasRowKey(StayHours(s).value, key) <==> s.siteCode == key.siteCode && Covers(s, key.date, key.hour)
  {
    var rows := StayHours(s).value;
    ExpansionRows(s);
    ExpansionCoversStay(s, key.date, key.hour);
    if HasRowKey(rows, key) {
      var i :| 0 <= i < |rows| && KeyOf(rows[i]) == key;
      assert rows[i].date == key.date && rows[i].hour == key.hour;
    }
    if s.siteCode == key.siteCode && Covers(s, key.date, key.hour) {
      var i :| 0 <= i < |rows| && rows[i].date == key.date && rows[i].hour == key.hour;
      assert KeyOf(rows[i]) == key;
    }
  }

  /** The hour rows of all stays hold (d, h) at a site exactly when some stay at that site
      covers it. */
  lemma {:induction false} ExpandedKeys(stays: seq<Stay>, key: HourKey)
    requires ExpandStays(stays).Ok? && 0 <= key.hour <= 23
    ensures HasRowKey(ExpandStays(stays).value, key) <==> Attended(stays, key.date, key.hour, key.siteCode)
  {
    if |stays| > 0 {
      var init := stays[..|stays| - 1];
      var last := stays[|stays| - 1];
      ExpandedKeys(init, key);
      assert ExpandStays(stays).value == ExpandStays(init).value + StayHours(last).value;
      HasRowKeyAppend(ExpandStays(init).value, StayHours(last).value, key);
      StayKeys(last, key);
      AttendedStep(stays, key.date, key.hour, key.siteCode);
    }
  }

  lemma AttendedStep(stays: seq<Stay>, d: Day, h: int, site: string)
    requires |stays| > 0
    ensures var last := stays[|stays| - 1];
            Attended(stays, d, h, site)
            <==> Attended(stays[..|stays| - 1], d, h, site) || (last.siteCode == site && Covers(last, d, h))
  {
    var init := stays[..|stays| - 1];
    if Attended(stays, d, h, site) {
      var j :| 0 <= j < |stays| && stays[j].siteCode == site && Covers(stays[j], d, h);
      if j < |init| {
        assert init[j] == stays[j];
      }
    }
    if Attended(init, d, h, site) {
      var j :| 0 <= j < |init| && init[j].siteCode == site && Covers(init[j], d, h);
      assert stays[j] == init[j];
    }
  }

  /** Every hour row of the stays is on the clock. */
  lemma {:induction false} ExpandedHours(stays: seq<Stay>)
    requires ExpandStays(stays).Ok?
    ensures var hours := ExpandStays(stays).value;
            forall i :: 0 <= i < |hours| ==> 0 <= hours[i].hour <= 23
  {
    if |stays| > 0 {
      var init := stays[..|stays| - 1];
      ExpandedHours(init);
      ExpansionRows(stays[|stays| - 1]);
    }
  }

  /** Stay s has at least one hour on site and its first hour falls in week k at k's site. */
  predicate ArrivesIn(s: Stay, k: WeekKey)
  {
    StayLength(s) > 0 && WeekKey(MondayOf(s.arrivalDate), SundayOf(s.arrivalDate), s.siteCode) == k
  }

  /** Reference definition: how many stays arrive in week k at its site. */
  function ArrivalsIn(stays: seq<Stay>, k: WeekKey): nat
  {
    if |stays| == 0 then 0
    else ArrivalsIn(stays[..|stays| - 1], k) + (if ArrivesIn(stays[|stays| - 1], k) then 1 else 0)
  }

  lemma {:induction false} RowsInWeekAppend(a: seq<HourRow>, b: seq<HourRow>, k: WeekKey)
    ensures RowsInWeek(a + b, k) == RowsInWeek(a, k) + RowsInWeek(b, k)
    decreases |b|
  {
    if |b| > 0 {
      assert (a + b)[..|a + b| - 1] == a + b[..|b| - 1];
      RowsInWeekAppend(a, b[..|b| - 1], k);
    } else {
      assert a + b == a;
    }
  }

  lemma {:induction false} ArrivalsInWeekPrefix(rows: seq<HourRow>, k: WeekKey, n: nat)
    requires n <= |rows|
    requires forall i :: 0 <= i < |rows| ==> (rows[i].arrivals == 1 <==> i == 0) && rows[i].arrivals <= 1
    ensures ArrivalSum(RowsInWeek(rows[..n], k)) == if n > 0 && WeekKeyOf(rows[0]) == k then 1 else 0
  {
    if n > 0 {
      ArrivalsInWeekPrefix(rows, k, n - 1);
      assert rows[..n][..n - 1] == rows[..n - 1];
      var m := RowsInWeek(rows[..n - 1], k);
      if WeekKeyOf(rows[n - 1]) == k {
        ArrivalSumAppend(m, [rows[n - 1]]);
        assert [rows[n - 1]][..0] == [];
      }
    }
  }

  /** A stay's rows hold one arrival in the week its first hour falls in, and none in any other. */
  lemma StayArrivalsInWeek(s: Stay, k: WeekKey)
    requires StayHours(s).Ok?
    ensures ArrivalSum(RowsInWeek(StayHours(s).value, k)) == if ArrivesIn(s, k) then 1 else 0
  {
    var rows := StayHours(s).value;
    var clock := StayClock(s).value;
    ExpansionRows(s);
    ExpansionLength(s);
    ArrivalsInWeekPrefix(rows, k, |rows|);
    assert rows[..|rows|] == rows;
    ExpansionConsecutive(s.siteCode, s.arrivalDate, clock.0, s.departureDate, clock.1);
  }

  /** Over all stays, the arrivals in a week's hour rows count the stays arriving that week. */
  lemma {:induction false} ExpandedArrivals(stays: seq<Stay>, k: WeekKey)
    requires ExpandStays(stays).Ok?
    ensures ArrivalSum(RowsInWeek(ExpandStays(stays).value, k)) == ArrivalsIn(stays, k)
  {
    if |stays| > 0 {
      var init := stays[..|stays| - 1];
      var last := stays[|stays| - 1];
      ExpandedArrivals(init, k);
      assert ExpandStays(stays).value == ExpandStays(init).value + StayHours(last).value;
      RowsInWeekAppend(ExpandStays(init).value, StayHours(last).value, k);
      ArrivalSumAppend(RowsInWeek(ExpandStays(init).value, k), RowsInWeek(StayHours(last).value, k));
      StayArrivalsInWeek(last, k);
    }
  }

  // ---------------------------------------------------------------------------
  // End to end
  // ---------------------------------------------------------------------------

  /** After the window, the run fails on a departed stay whose hours cannot be read, and
      otherwise only when the departed stays span no hour at all. */
  lemma WeeklyOfStaysFails(stays: seq<Stay>, today: Day)
    ensures WeeklyOfStays(stays, today).Err? && WeeklyOfStays(stays, today).error.BadStay?
            <==> exists j :: 0 <= j < |Departed(stays, today)| && StayHours(Departed(stays, today)[j]).Err?
    ensures WeeklyOfStays(stays, today) == Err(NoHourRows)
            <==> ExpandStays(Departed(stays, today)).Ok? && TotalLength(Departed(stays, today)) == 0
    ensures WeeklyOfStays(stays, today).Err? ==> !WeeklyOfStays(stays, today).error.BadWindow?
  {
    var cleaned := Departed(stays, today);
    ExpandStaysOk(cleaned);
    if ExpandStays(cleaned).Ok? {
      ExpandStaysTotals(cleaned);
    } else {
      var j :| 0 <= j < |cleaned| && !StayHours(cleaned[j]).Ok?;
      assert StayHours(cleaned[j]).Err?;
      assert WeeklyOfStays(stays, today) == Err(BadStay(ExpandStays(cleaned).error));
      assert exists j :: 0 <= j < |Departed(stays, today)| && StayHours(Departed(stays, today)[j]).Err?;
    }
  }

  /** The hourly table the weeks are built from keeps one row per key and hours on the clock. */
  lemma CutTableShaped(hours: seq<HourRow>, cutoff: Day)
    requires forall i :: 0 <= i < |hours| ==> 0 <= hours[i].hour <= 23
    ensures HourlyShaped(BeforeCutoff(HourlyAggregate(hours), cutoff))
  {
    var agg := HourlyAggregate(hours);
    var kept := BeforeCutoff(agg, cutoff);
    HourlyKeys(hours);
    HourlyHours(hours);
    BeforeCutoffKeepsShape(agg, cutoff);
    BeforeCutoffKeeps(agg, cutoff);
    forall i | 0 <= i < |kept|
      ensures 0 <= kept[i].hour <= 23
    {
      assert kept[i] in agg;
    }
  }

  /** A week in the weekly table ends before the cutoff. */
  lemma WeekBeforeCutoff(hours: seq<HourRow>, today: Day, i: nat)
    requires i < |WeeklyFromHours(hours, today)|
    ensures var w := WeeklyFromHours(hours, today)[i];
            w.dateWeekStarting < w.dateWeekEnding + 1 <= MostRecentWeekStart(today)
  {
    var cutoff := MostRecentWeekStart(today);
    var kept := BeforeCutoff(HourlyAggregate(hours), cutoff);
    var w := WeeklyFromHours(hours, today)[i];
    var k := KeyOfWeek(w);
    WeeklyRowAt(kept, i);
    WeeklyGroupKeys(kept);
    assert HasGroup(WeeklyGroups(kept), k);
    var j :| 0 <= j < |kept| && WeekKeyOf(kept[j]) == k;
    BeforeCutoffKeeps(HourlyAggregate(hours), cutoff);
    assert kept[j] in kept;
    MostRecentWeekStartIsLastMonday(today);
    WholeWeeksKept(kept[j].date, cutoff);
  }

  /** Each week in the weekly table: it runs from a Monday to the next Sunday and has ended
      before last week's Monday; its patients mean is the number of hours patients spent at
      the site that week over 168, its arrivals mean the arrivals among those hours over 168,
      and its completeness, between 0 and 1, is 1 exactly when every hour of the week has a
      patient at the site. */
  lemma WeeklyFromHoursRow(hours: seq<HourRow>, today: Day, i: nat)
    requires forall j :: 0 <= j < |hours| ==> 0 <= hours[j].hour <= 23
    requires i < |WeeklyFromHours(hours, today)|
    ensures var w := WeeklyFromHours(hours, today)[i];
            var inWeek := RowsInWeek(hours, KeyOfWeek(w));
            && DayOfWeek(w.dateWeekStarting) == 0
            && w.dateWeekEnding == w.dateWeekStarting + 6
            && w.dateWeekEnding < MostRecentWeekStart(today)
            && w.patientsMean * 168.0 == |inWeek| as real
            && w.arrivalsMean * 168.0 == ArrivalSum(inWeek) as real
            && 0.0 < w.completeness <= 1.0
            && (w.completeness == 1.0 <==> FullWeek(hours, w.dateWeekStarting, w.siteCode))
  {
    var cutoff := MostRecentWeekStart(today);
    var agg := HourlyAggregate(hours);
    var kept := BeforeCutoff(agg, cutoff);
    var w := WeeklyFromHours(hours, today)[i];
    var k := KeyOfWeek(w);
    WeekBeforeCutoff(hours, today, i);
    WeeklyRowAt(kept, i);
    MostRecentWeekStartIsLastMonday(today);
    CutoffKeepsWeek(agg, cutoff, k);
    WeekOfHourlyTable(hours, k);
    CutTableShaped(hours, cutoff);
    CompletenessAt(kept, i);
    FullWeekBeforeCutoff(hours, cutoff, w.dateWeekStarting, w.siteCode);
  }

  /** For a week ending before the cutoff, the cut hourly table is full exactly when the hour
      rows are. */
  lemma FullWeekBeforeCutoff(hours: seq<HourRow>, cutoff: Day, ws: Day, site: string)
    requires ws + 6 < cutoff
    ensures FullWeek(BeforeCutoff(HourlyAggregate(hours), cutoff), ws, site) <==> FullWeek(hours, ws, site)
  {
    forall d, h | ws <= d <= ws + 6 && 0 <= h <= 23
      ensures HasRowKey(BeforeCutoff(HourlyAggregate(hours), cutoff), HourKey(d, h, site))
              <==> HasRowKey(hours, HourKey(d, h, site))
    {
      HourlyKeyBeforeCutoff(hours, cutoff, HourKey(d, h, site));
    }
  }

  /** The hour rows of the stays fill a week at a site exactly when, at every hour of its
      seven days, some stay at the site was on site. */
  lemma FullWeekOfStays(stays: seq<Stay>, ws: Day, site: string)
    requires ExpandStays(stays).Ok?
    ensures FullWeek(ExpandStays(stays).value, ws, site) <==> AttendedAllWeek(stays, ws, site)
  {
    forall d, h | ws <= d <= ws + 6 && 0 <= h <= 23
      ensures HasRowKey(ExpandStays(stays).value, HourKey(d, h, site)) <==> Attended(stays, d, h, site)
    {
      ExpandedKeys(stays, HourKey(d, h, site));
    }
  }

  /** A week is complete exactly when, at every hour of its seven days, some departed stay at
      its site was on site. */
  lemma CompleteWeekOfStays(stays: seq<Stay>, today: Day, i: nat)
    requires WeeklyOfStays(stays, today).Ok?
    requires i < |WeeklyOfStays(stays, today).value|
    ensures var w := WeeklyOfStays(stays, today).value[i];
            w.completeness == 1.0 <==> AttendedAllWeek(Departed(stays, today), w.dateWeekStarting, w.siteCode)
  {
    var cleaned := Departed(stays, today);
    var hours := ExpandStays(cleaned).value;
    var w := WeeklyFromHours(hours, today)[i];
    ExpandedHours(cleaned);
    WeeklyFromHoursRow(hours, today, i);
    FullWeekOfStays(cleaned, w.dateWeekStarting, w.siteCode);
  }

  /** Each week of a successful run: a Monday-to-Sunday week that has ended at least eight days
      before today; its patients mean is the hours patients spent at the site that week over
      168, its arrivals mean the number of departed stays whose first hour at the site falls
      in that week over 168, and its completeness lies in (0, 1]. */
  lemma WeeklyOfStaysRow(stays: seq<Stay>, today: Day, i: nat)
    requires WeeklyOfStays(stays, today).Ok?
    requires i < |WeeklyOfStays(stays, today).value|
    ensures var hours := ExpandStays(Departed(stays, today)).value;
            var w := WeeklyOfStays(stays, today).value[i];
            && DayOfWeek(w.dateWeekStarting) == 0
            && w.dateWeekEnding == w.dateWeekStarting + 6
            && w.dateWeekEnding <= today - 8
            && w.patientsMean * 168.0 == |RowsInWeek(hours, KeyOfWeek(w))| as real
            && w.arrivalsMean * 168.0 == ArrivalsIn(Departed(stays, today), KeyOfWeek(w)) as real
            && 0.0 < w.completeness <= 1.0
  {
    var cleaned := Departed(stays, today);
    var hours := ExpandStays(cleaned).value;
    var w := WeeklyFromHours(hours, today)[i];
    ExpandedArrivals(cleaned, KeyOfWeek(w));
    ExpandedHours(cleaned);
    WeeklyFromHoursRow(hours, today, i);
    MostRecentWeekStartIsLastMonday(today);
  }
}
