/**
 * The weekly table (lines 181-210): every hourly row is given the Monday and
 * the Sunday of its week, the rows are grouped by week and site, the sums are
 * turned into means over the 168 hours of a week, the share of those hours
 * that have a row becomes the completeness, and the financial year and month
 * labels of the week's Monday are added.
 */
module Weekly {
  import opened Calendar
  import opened Grouping
  import opened Expansion
  import opened Hourly
  import opened Labels

  /** 24 * 7, the divisor of lines 197-199. */
  const HOURS_PER_WEEK: nat := 168

  datatype WeekKey = WeekKey(weekStarting: Day, weekEnding: Day, siteCode: string)

  /** One row of the result, with the eight columns of lines 208-210 in their order. */
  datatype WeeklyRow = WeeklyRow(
    dateWeekStarting: Day,
    dateWeekEnding: Day,
    finYear: string,
    month: string,
    siteCode: string,
    patientsMean: real,
    arrivalsMean: real,
    completeness: real)

  /** Lines 181-182: the week of a date, hour and site runs from the Monday to the Sunday
      around the date. */
  function WeekOfKey(hk: HourKey): WeekKey
  {
    WeekKey(MondayOf(hk.date), SundayOf(hk.date), hk.siteCode)
  }

  /** The week an hourly row is grouped into. */
  function WeekKeyOf(r: HourRow): WeekKey
  {
    WeekOfKey(KeyOf(r))
  }

  /** The hourly rows as the weekly groupby sees them; the completeness column of 1s
      (line 190) is the count of rows each group keeps anyway. */
  function WeekEntries(rows: seq<HourRow>): seq<Entry<WeekKey>>
  {
    seq(|rows|, i requires 0 <= i < |rows| => Entry(WeekKeyOf(rows[i]), rows[i].patients, rows[i].arrivals))
  }

  /** Division by the hours of a week, taken exactly where pandas divides in floating point. */
  function PerWeekHour(n: nat): real
  {
    (n as real) / (HOURS_PER_WEEK as real)
  }

  /** Lines 197-210 for one group: the means, the completeness and the two labels. */
  function WeeklyRowOf(g: Group<WeekKey>): WeeklyRow
  {
    var ws := g.key.weekStarting;
    WeeklyRow(ws, g.key.weekEnding, FinYear(ws), MonthAbbrev(ws), g.key.siteCode,
              PerWeekHour(g.totals.patients), PerWeekHour(g.totals.arrivals), PerWeekHour(g.totals.rows))
  }

  /** Lines 192-194: grouping by week start, week end and site code, with
      patients and arrivals summed and the completeness column counted. */
  function WeeklyGroups(rows: seq<HourRow>): seq<Group<WeekKey>>
  {
    GroupBy(WeekEntries(rows))
  }

  /** Lines 181-210: the weekly table, one row per group with its derived columns. */
  function WeeklyAggregate(rows: seq<HourRow>): seq<WeeklyRow>
  {
    var groups := WeeklyGroups(rows);
    seq(|groups|, i requires 0 <= i < |groups| => WeeklyRowOf(groups[i]))
  }

  function KeyOfWeek(w: WeeklyRow): WeekKey
  {
    WeekKey(w.dateWeekStarting, w.dateWeekEnding, w.siteCode)
  }

  predicate HasWeek(rows: seq<HourRow>, k: WeekKey)
  {
    exists j :: 0 <= j < |rows| && WeekKeyOf(rows[j]) == k
  }

  /** Reference definition: the hourly rows of week k at its site, in order. */
  function RowsInWeek(rows: seq<HourRow>, k: WeekKey): seq<HourRow>
  {
    if |rows| == 0 then []
    else
      var init := RowsInWeek(rows[..|rows| - 1], k);
      if WeekKeyOf(rows[|rows| - 1]) == k then init + [rows[|rows| - 1]] else init
  }

  /** Every hour of the 7 days from ws has a row at the site. */
  predicate FullWeek(rows: seq<HourRow>, ws: Day, site: string)
  {
    forall d, h :: ws <= d <= ws + 6 && 0 <= h <= 23 ==> HasRowKey(rows, HourKey(d, h, site))
  }

  /** The hourly table as the aggregation leaves it: one row per key, hours on the clock. */
  predicate HourlyShaped(rows: seq<HourRow>)
  {
    && (forall i, j :: 0 <= i < j < |rows| ==> KeyOf(rows[i]) != KeyOf(rows[j]))
    && (forall i :: 0 <= i < |rows| ==> 0 <= rows[i].hour <= 23)
  }

  // ---------------------------------------------------------------------------
  // Weeks
  // ---------------------------------------------------------------------------

  /** A row is in the week from Monday ws to Sunday ws + 6 exactly when its date is. */
  lemma WeekKeyOfIff(r: HourRow, k: WeekKey)
    ensures WeekKeyOf(r) == k <==>
              && DayOfWeek(k.weekStarting) == 0
              && k.weekEnding == k.weekStarting + 6
              && k.weekStarting <= r.date <= k.weekEnding
              && r.siteCode == k.siteCode
  {
    MondayOfIff(r.date, k.weekStarting);
    SundayIsMondayPlusSix(r.date);
  }

  // ---------------------------------------------------------------------------
  // Properties of the weekly aggregation
  // ---------------------------------------------------------------------------

  lemma WeekEntriesPrefix(rows: seq<HourRow>, n: nat)
    requires n <= |rows|
    ensures WeekEntries(rows[..n]) == WeekEntries(rows)[..n]
  {
  }

  lemma {:induction false} TotalsForWeek(rows: seq<HourRow>, k: WeekKey)
    ensures var inWeek := RowsInWeek(rows, k);
            TotalsFor(WeekEntries(rows), k) == Totals(|inWeek|, PatientSum(inWeek), ArrivalSum(inWeek))
  {
    if |rows| > 0 {
      var init := rows[..|rows| - 1];
      TotalsForWeek(init, k);
      WeekEntriesPrefix(rows, |rows| - 1);
      var m := RowsInWeek(init, k);
      var last := rows[|rows| - 1];
      if WeekKeyOf(last) == k {
        assert (m + [last])[..|m|] == m;
        ArrivalSumAppend(m, [last]);
        assert [last][..0] == [];
      }
    }
  }

  lemma HasKeyWeekEntries(rows: seq<HourRow>, k: WeekKey)
    ensures HasKey(WeekEntries(rows), k) <==> HasWeek(rows, k)
  {
    if HasKey(WeekEntries(rows), k) {
      var j :| 0 <= j < |WeekEntries(rows)| && WeekEntries(rows)[j].key == k;
      assert WeekKeyOf(rows[j]) == k;
    }
    if HasWeek(rows, k) {
      var j :| 0 <= j < |rows| && WeekKeyOf(rows[j]) == k;
      assert WeekEntries(rows)[j].key == k;
    }
  }

  /** One group per week and site that has an hourly row, and no other. */
  lemma WeeklyGroupKeys(rows: seq<HourRow>)
    ensures DistinctKeys(WeeklyGroups(rows))
    ensures forall k :: HasGroup(WeeklyGroups(rows), k) <==> HasWeek(rows, k)
  {
    GroupByKeys(WeekEntries(rows));
    forall k
      ensures HasGroup(WeeklyGroups(rows), k) <==> HasWeek(rows, k)
    {
      HasKeyWeekEntries(rows, k);
    }
  }

  /** Every group is a week from a Monday to the Sunday six days later. */
  lemma WeeklyGroupWeeks(rows: seq<HourRow>)
    ensures forall i :: 0 <= i < |WeeklyGroups(rows)| ==>
              var k := WeeklyGroups(rows)[i].key;
              DayOfWeek(k.weekStarting) == 0 && k.weekEnding == k.weekStarting + 6
  {
    var groups := WeeklyGroups(rows);
    WeeklyGroupKeys(rows);
    forall i | 0 <= i < |groups|
      ensures DayOfWeek(groups[i].key.weekStarting) == 0
              && groups[i].key.weekEnding == groups[i].key.weekStarting + 6
    {
      var k := groups[i].key;
      assert HasGroup(groups, k);
      var j :| 0 <= j < |rows| && WeekKeyOf(rows[j]) == k;
      WeekKeyOfIff(rows[j], k);
    }
  }

  /** Every group carries the row count and the sums of exactly the hourly rows of its week
      and site. */
  lemma WeeklyGroupTotals(rows: seq<HourRow>)
    ensures forall i :: 0 <= i < |WeeklyGroups(rows)| ==>
              var g := WeeklyGroups(rows)[i];
              var inWeek := RowsInWeek(rows, g.key);
              g.totals == Totals(|inWeek|, PatientSum(inWeek), ArrivalSum(inWeek))
  {
    var groups := WeeklyGroups(rows);
    GroupByTotals(WeekEntries(rows));
    forall i | 0 <= i < |groups|
      ensures var inWeek := RowsInWeek(rows, groups[i].key);
              groups[i].totals == Totals(|inWeek|, PatientSum(inWeek), ArrivalSum(inWeek))
    {
      TotalsForWeek(rows, groups[i].key);
    }
  }

  /** The i-th weekly row is its group's week and site, with the group's sums and count
      spread over the 168 hours of the week. */
  lemma WeeklyRowAt(rows: seq<HourRow>, i: nat)
    requires i < |WeeklyAggregate(rows)|
    ensures var w := WeeklyAggregate(rows)[i];
            var inWeek := RowsInWeek(rows, KeyOfWeek(w));
            && KeyOfWeek(w) == WeeklyGroups(rows)[i].key
            && DayOfWeek(w.dateWeekStarting) == 0
            && w.dateWeekEnding == w.dateWeekStarting + 6
            && w.patientsMean * 168.0 == PatientSum(inWeek) as real
            && w.arrivalsMean * 168.0 == ArrivalSum(inWeek) as real
            && w.completeness * 168.0 == |inWeek| as real
  {
    var g := WeeklyGroups(rows)[i];
    WeeklyGroupWeeks(rows);
    WeeklyGroupTotals(rows);
    assert WeeklyAggregate(rows)[i] == WeeklyRowOf(g);
  }

  /** The labels name the financial year holding the week's Monday (from 1 April of the
      first year to 31 March of the second) and the Monday's month. */
  lemma WeeklyLabelsAt(rows: seq<HourRow>, i: nat)
    requires i < |WeeklyAggregate(rows)|
    ensures var w := WeeklyAggregate(rows)[i];
            var monday := FromOrdinal(w.dateWeekStarting);
            && w.month == MonthName(monday.month)
            && exists q :: !Before(monday, AprilFirst(q - 1)) && Before(monday, AprilFirst(q))
                           && w.finYear == FinYearLabel(q)
  {
    var w := WeeklyAggregate(rows)[i];
    assert w == WeeklyRowOf(WeeklyGroups(rows)[i]);
    FiscalYearSpan(FromOrdinal(w.dateWeekStarting));
  }

  // ---------------------------------------------------------------------------
  // Completeness
  // ---------------------------------------------------------------------------

  /** The hours, as absolute hour numbers, that have a row in week k. */
  function WeekSlots(rows: seq<HourRow>, k: WeekKey): set<int>
  {
    if |rows| == 0 then {}
    else
      var last := rows[|rows| - 1];
      WeekSlots(rows[..|rows| - 1], k) + (if WeekKeyOf(last) == k then {Position(last.date, last.hour)} else {})
  }

  predicate HasSlot(rows: seq<HourRow>, k: WeekKey, s: int)
  {
    exists j :: 0 <= j < |rows| && WeekKeyOf(rows[j]) == k && Position(rows[j].date, rows[j].hour) == s
  }

  /** The n consecutive integers from lo. */
  function Interval(lo: int, n: nat): set<int>
  {
    if n == 0 then {} else Interval(lo, n - 1) + {lo + n - 1}
  }

  lemma {:induction false} IntervalSize(lo: int, n: nat)
    ensures |Interval(lo, n)| == n
    ensures forall s :: s in Interval(lo, n) <==> lo <= s < lo + n
  {
    if n > 0 {
      IntervalSize(lo, n - 1);
    }
  }

  /** A subset is no larger, and one as large is the whole set. */
  lemma SubsetSize(a: set<int>, b: set<int>)
    requires a <= b
    ensures |a| <= |b|
    ensures |a| == |b| ==> a == b
  {
    assert b == a + (b - a);
    if |a| == |b| {
      assert |b - a| == 0;
    }
  }

  lemma {:induction false} WeekSlotsMember(rows: seq<HourRow>, k: WeekKey, s: int)
    ensures s in WeekSlots(rows, k) <==> HasSlot(rows, k, s)
  {
    if |rows| > 0 {
      var init := rows[..|rows| - 1];
      var last := rows[|rows| - 1];
      WeekSlotsMember(init, k, s);
      if HasSlot(init, k, s) {
        var j :| 0 <= j < |init| && WeekKeyOf(init[j]) == k && Position(init[j].date, init[j].hour) == s;
        assert rows[j] == init[j];
      }
      if HasSlot(rows, k, s) && !(WeekKeyOf(last) == k && Position(last.date, last.hour) == s) {
        var j :| 0 <= j < |rows| && WeekKeyOf(rows[j]) == k && Position(rows[j].date, rows[j].hour) == s;
        assert init[j] == rows[j];
      }
    }
  }

  /** With one row per key and hours on the clock, the week's rows fill as many different
      hours as there are rows. */
  lemma {:induction false} WeekSlotsSize(rows: seq<HourRow>, k: WeekKey)
    requires HourlyShaped(rows)
    ensures |WeekSlots(rows, k)| == |RowsInWeek(rows, k)|
  {
    if |rows| > 0 {
      var init := rows[..|rows| - 1];
      var last := rows[|rows| - 1];
      WeekSlotsSize(init, k);
      if WeekKeyOf(last) == k {
        var s := Position(last.date, last.hour);
        forall j | 0 <= j < |init| && WeekKeyOf(init[j]) == k
          ensures Position(init[j].date, init[j].hour) != s
        {
          assert rows[j] == init[j];
          assert KeyOf(rows[j]) != KeyOf(last);
        }
        WeekSlotsMember(init, k, s);
      }
    }
  }

  /** The hours of week k lie within its 168 hours. */
  lemma WeekSlotsInWeek(rows: seq<HourRow>, k: WeekKey)
    requires HourlyShaped(rows)
    requires DayOfWeek(k.weekStarting) == 0 && k.weekEnding == k.weekStarting + 6
    ensures WeekSlots(rows, k) <= Interval(Position(k.weekStarting, 0), HOURS_PER_WEEK)
  {
    IntervalSize(Position(k.weekStarting, 0), HOURS_PER_WEEK);
    forall s | s in WeekSlots(rows, k)
      ensures s in Interval(Position(k.weekStarting, 0), HOURS_PER_WEEK)
    {
      WeekSlotsMember(rows, k, s);
      var j :| 0 <= j < |rows| && WeekKeyOf(rows[j]) == k && Position(rows[j].date, rows[j].hour) == s;
      WeekKeyOfIff(rows[j], k);
    }
  }

  /** All 168 hours of week k are filled exactly when every hour of its seven days has a row. */
  lemma WeekSlotsFull(rows: seq<HourRow>, k: WeekKey)
    requires HourlyShaped(rows)
    requires DayOfWeek(k.weekStarting) == 0 && k.weekEnding == k.weekStarting + 6
    ensures Interval(Position(k.weekStarting, 0), HOURS_PER_WEEK) <= WeekSlots(rows, k)
            <==> FullWeek(rows, k.weekStarting, k.siteCode)
  {
    var ws := k.weekStarting;
    var all := Interval(Position(ws, 0), HOURS_PER_WEEK);
    IntervalSize(Position(ws, 0), HOURS_PER_WEEK);
    if all <= WeekSlots(rows, k) {
      forall d, h | ws <= d <= ws + 6 && 0 <= h <= 23
        ensures HasRowKey(rows, HourKey(d, h, k.siteCode))
      {
        var s := Position(d, h);
        assert s in all;
        WeekSlotsMember(rows, k, s);
        var j :| 0 <= j < |rows| && WeekKeyOf(rows[j]) == k && Position(rows[j].date, rows[j].hour) == s;
        PositionInjective(rows[j].date, rows[j].hour, d, h);
        assert KeyOf(rows[j]) == HourKey(d, h, k.siteCode);
      }
    }
    if FullWeek(rows, ws, k.siteCode) {
      forall s | s in all
        ensures s in WeekSlots(rows, k)
      {
        var d, h := ws + (s - Position(ws, 0)) / 24, (s - Position(ws, 0)) % 24;
        assert Position(d, h) == s;
        assert HasRowKey(rows, HourKey(d, h, k.siteCode));
        var j :| 0 <= j < |rows| && KeyOf(rows[j]) == HourKey(d, h, k.siteCode);
        WeekKeyOfIff(rows[j], k);
        WeekSlotsMember(rows, k, s);
      }
    }
  }

  /** A week and site have at most 168 hourly rows, and exactly 168 when every hour of the
      week has one. */
  lemma WeekRowCount(rows: seq<HourRow>, k: WeekKey)
    requires HourlyShaped(rows)
    requires DayOfWeek(k.weekStarting) == 0 && k.weekEnding == k.weekStarting + 6
    ensures |RowsInWeek(rows, k)| <= HOURS_PER_WEEK
    ensures |RowsInWeek(rows, k)| == HOURS_PER_WEEK <==> FullWeek(rows, k.weekStarting, k.siteCode)
  {
    var all := Interval(Position(k.weekStarting, 0), HOURS_PER_WEEK);
    var slots := WeekSlots(rows, k);
    WeekSlotsSize(rows, k);
    WeekSlotsInWeek(rows, k);
    WeekSlotsFull(rows, k);
    IntervalSize(Position(k.weekStarting, 0), HOURS_PER_WEEK);
    SubsetSize(slots, all);
    if |RowsInWeek(rows, k)| == HOURS_PER_WEEK {
      assert slots == all;
    }
    if FullWeek(rows, k.weekStarting, k.siteCode) {
      assert slots == all;
    }
  }

  /** On the hourly table, every week has between 1 and 168 rows at its site, and 168
      exactly when every hour of the week has one. */
  lemma WeeklyGroupCompleteness(rows: seq<HourRow>)
    requires HourlyShaped(rows)
    ensures forall i :: 0 <= i < |WeeklyGroups(rows)| ==>
              var g := WeeklyGroups(rows)[i];
              && 0 < g.totals.rows <= HOURS_PER_WEEK
              && (g.totals.rows == HOURS_PER_WEEK <==> FullWeek(rows, g.key.weekStarting, g.key.siteCode))
  {
    var groups := WeeklyGroups(rows);
    WeeklyGroupWeeks(rows);
    WeeklyGroupTotals(rows);
    GroupByTotals(WeekEntries(rows));
    forall i | 0 <= i < |groups|
      ensures && 0 < groups[i].totals.rows <= HOURS_PER_WEEK
              && (groups[i].totals.rows == HOURS_PER_WEEK
                  <==> FullWeek(rows, groups[i].key.weekStarting, groups[i].key.siteCode))
    {
      WeekRowCount(rows, groups[i].key);
      WeeklyGroupKeys(rows);
      assert HasGroup(groups, groups[i].key);
      HasKeyWeekEntries(rows, groups[i].key);
      TotalsForRows(WeekEntries(rows), groups[i].key);
    }
  }

  /** On the hourly table, the completeness of a week is positive and at most 1, and it
      is 1 exactly when every one of the week's 168 hours has a row at the site. */
  lemma CompletenessAt(rows: seq<HourRow>, i: nat)
    requires HourlyShaped(rows)
    requires i < |WeeklyAggregate(rows)|
    ensures var w := WeeklyAggregate(rows)[i];
            && 0.0 < w.completeness <= 1.0
            && (w.completeness == 1.0 <==> FullWeek(rows, w.dateWeekStarting, w.siteCode))
  {
    var g := WeeklyGroups(rows)[i];
    WeeklyGroupCompleteness(rows);
    assert WeeklyAggregate(rows)[i] == WeeklyRowOf(g);
  }

  // ---------------------------------------------------------------------------
  // From the hour rows of the stays to the weeks
  // ---------------------------------------------------------------------------

  /** The test "this (date, hour, site) falls in week k at its site". */
  function InWeek(k: WeekKey): HourKey -> bool
  {
    (hk: HourKey) => WeekOfKey(hk) == k
  }

  lemma {:induction false} KeptEntries(rows: seq<HourRow>, k: WeekKey)
    ensures var inWeek := RowsInWeek(rows, k);
            TotalsOf(Keep(Entries(rows), InWeek(k))) == Totals(|inWeek|, PatientSum(inWeek), ArrivalSum(inWeek))
  {
    if |rows| > 0 {
      var init := rows[..|rows| - 1];
      var last := rows[|rows| - 1];
      KeptEntries(init, k);
      EntriesPrefix(rows, |rows| - 1);
      TotalsOfKeepStep(Entries(rows), InWeek(k));
      var m := RowsInWeek(init, k);
      assert Entries(rows)[..|rows| - 1] == Entries(init);
      assert InWeek(k)(Entries(rows)[|rows| - 1].key) <==> WeekKeyOf(last) == k;
      if WeekKeyOf(last) == k {
        assert (m + [last])[..|m|] == m;
        ArrivalSumAppend(m, [last]);
        assert [last][..0] == [];
      }
    }
  }

  /** One more group adds its row to the week's hourly rows exactly when the group's key
      falls in the week. */
  lemma InWeekStep(groups: seq<Group<HourKey>>, k: WeekKey)
    requires |groups| > 0
    ensures var last := HourlyRowOf(groups[|groups| - 1]);
            var m := RowsInWeek(HourlyRows(groups[..|groups| - 1]), k);
            && (InWeek(k)(groups[|groups| - 1].key) <==> WeekKeyOf(last) == k)
            && RowsInWeek(HourlyRows(groups), k) == if WeekKeyOf(last) == k then m + [last] else m
  {
    var hourly := HourlyRows(groups);
    assert hourly[..|groups| - 1] == HourlyRows(groups[..|groups| - 1]);
  }

  lemma {:induction false} KeptHourlyPatients(groups: seq<Group<HourKey>>, k: WeekKey)
    ensures SumKept(groups, InWeek(k)).rows == PatientSum(RowsInWeek(HourlyRows(groups), k))
  {
    if |groups| > 0 {
      var init := groups[..|groups| - 1];
      var g := groups[|groups| - 1];
      KeptHourlyPatients(init, k);
      InWeekStep(groups, k);
      var m := RowsInWeek(HourlyRows(init), k);
      var last := HourlyRowOf(g);
      assert SumKept(groups, InWeek(k)).rows == SumKept(init, InWeek(k)).rows + KeptTotals(g, InWeek(k)).rows;
      if WeekKeyOf(last) == k {
        assert PatientSum(m + [last]) == PatientSum(m) + last.patients by {
          assert (m + [last])[..|m|] == m;
        }
      }
    }
  }

  lemma {:induction false} KeptHourlyArrivals(groups: seq<Group<HourKey>>, k: WeekKey)
    ensures SumKept(groups, InWeek(k)).arrivals == ArrivalSum(RowsInWeek(HourlyRows(groups), k))
  {
    if |groups| > 0 {
      var init := groups[..|groups| - 1];
      KeptHourlyArrivals(init, k);
      InWeekStep(groups, k);
      var m := RowsInWeek(HourlyRows(init), k);
      var last := HourlyRowOf(groups[|groups| - 1]);
      ArrivalSumAppend(m, [last]);
      assert [last][..0] == [];
    }
  }

  /** Counting the hourly table's rows of a week gives back the week's hour rows: its patients
      add up to the number of hour rows in the week at the site, and its arrivals to theirs. */
  lemma WeekOfHourlyTable(rows: seq<HourRow>, k: WeekKey)
    ensures PatientSum(RowsInWeek(HourlyAggregate(rows), k)) == |RowsInWeek(rows, k)|
    ensures ArrivalSum(RowsInWeek(HourlyAggregate(rows), k)) == ArrivalSum(RowsInWeek(rows, k))
  {
    var groups := GroupBy(Entries(rows));
    assert HourlyAggregate(rows) == HourlyRows(groups);
    KeptHourlyPatients(groups, k);
    KeptHourlyArrivals(groups, k);
    GroupByKept(Entries(rows), InWeek(k));
    KeptEntries(rows, k);
  }

  /** Cutting at a Monday after week k keeps all of week k's rows. */
  lemma {:induction false} CutoffKeepsWeek(rows: seq<HourRow>, cutoff: Day, k: WeekKey)
    requires DayOfWeek(cutoff) == 0 && k.weekStarting < cutoff
    ensures RowsInWeek(BeforeCutoff(rows, cutoff), k) == RowsInWeek(rows, k)
  {
    if |rows| > 0 {
      var init := rows[..|rows| - 1];
      var last := rows[|rows| - 1];
      CutoffKeepsWeek(init, cutoff, k);
      var kept := BeforeCutoff(init, cutoff);
      if WeekKeyOf(last) == k {
        WholeWeeksKept(last.date, cutoff);
        assert BeforeCutoff(rows, cutoff) == kept + [last];
        assert (kept + [last])[..|kept|] == kept;
      } else if last.date < cutoff {
        assert (kept + [last])[..|kept|] == kept;
      }
    }
  }

  /** Before the cutoff, a key is in the cut hourly table exactly when some hour row has it. */
  lemma HourlyKeyBeforeCutoff(rows: seq<HourRow>, cutoff: Day, key: HourKey)
    requires key.date < cutoff
    ensures HasRowKey(BeforeCutoff(HourlyAggregate(rows), cutoff), key) <==> HasRowKey(rows, key)
  {
    var agg := HourlyAggregate(rows);
    var kept := BeforeCutoff(agg, cutoff);
    HourlyKeys(rows);
    BeforeCutoffKeeps(agg, cutoff);
    if HasRowKey(kept, key) {
      var j :| 0 <= j < |kept| && KeyOf(kept[j]) == key;
      assert kept[j] in agg;
      var i :| 0 <= i < |agg| && agg[i] == kept[j];
      assert HasRowKey(agg, key);
    }
    if HasRowKey(rows, key) {
      assert HasRowKey(agg, key);
      var i :| 0 <= i < |agg| && KeyOf(agg[i]) == key;
      assert agg[i] in kept;
      var j :| 0 <= j < |kept| && kept[j] == agg[i];
      assert KeyOf(kept[j]) == key;
    }
  }
}
