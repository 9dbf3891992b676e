/**
 * The hourly table (lines 173-178): the hour rows grouped by date, hour and
 * site, with `patients` counting the rows and `arrivals` summing them; then
 * the most recent Monday before today and the filter that drops the rows of
 * the week still in progress.
 */
module Hourly {
  import opened Calendar
  import opened Grouping
  import opened Expansion

  datatype HourKey = HourKey(date: Day, hour: int, siteCode: string)

  function KeyOf(r: HourRow): HourKey
  {
    HourKey(r.date, r.hour, r.siteCode)
  }

  /** The hour rows as the groupby sees them. */
  function Entries(rows: seq<HourRow>): seq<Entry<HourKey>>
  {
    seq(|rows|, i requires 0 <= i < |rows| => Entry(KeyOf(rows[i]), rows[i].patients, rows[i].arrivals))
  }

  /** The row `reset_index()` makes of one group: patients is the group's row count
      ('count'), arrivals the sum of its arrivals ('sum'). */
  function HourlyRowOf(g: Group<HourKey>): HourRow
  {
    HourRow(g.key.date, g.key.hour, g.key.siteCode, g.totals.rows, g.totals.arrivals)
  }

  /** The table `reset_index()` makes of the groups, one row per group in order. */
  function HourlyRows(groups: seq<Group<HourKey>>): seq<HourRow>
  {
    seq(|groups|, i requires 0 <= i < |groups| => HourlyRowOf(groups[i]))
  }

  /** Line 173: grouping by date, hour and site code, counting the patients column and
      summing the arrivals column. */
  function HourlyAggregate(rows: seq<HourRow>): seq<HourRow>
  {
    HourlyRows(GroupBy(Entries(rows)))
  }

  predicate HasRowKey(rows: seq<HourRow>, k: HourKey)
  {
    exists j :: 0 <= j < |rows| && KeyOf(rows[j]) == k
  }

  /** Reference definition: the rows with key k, in order. */
  function RowsWithKey(rows: seq<HourRow>, k: HourKey): seq<HourRow>
  {
    if |rows| == 0 then []
    else
      var init := RowsWithKey(rows[..|rows| - 1], k);
      if KeyOf(rows[|rows| - 1]) == k then init + [rows[|rows| - 1]] else init
  }

  /** Sum of the patients column. */
  function PatientSum(rows: seq<HourRow>): nat
  {
    if |rows| == 0 then 0 else PatientSum(rows[..|rows| - 1]) + rows[|rows| - 1].patients
  }

  // ---------------------------------------------------------------------------
  // Properties of the hourly aggregation
  // ---------------------------------------------------------------------------

  lemma EntriesPrefix(rows: seq<HourRow>, n: nat)
    requires n <= |rows|
    ensures Entries(rows[..n]) == Entries(rows)[..n]
  {
  }

  lemma {:induction false} TotalsForKey(rows: seq<HourRow>, k: HourKey)
    ensures var matching := RowsWithKey(rows, k);
            TotalsFor(Entries(rows), k) == Totals(|matching|, PatientSum(matching), ArrivalSum(matching))
  {
    if |rows| > 0 {
      var init := rows[..|rows| - 1];
      TotalsForKey(init, k);
      EntriesPrefix(rows, |rows| - 1);
      var m := RowsWithKey(init, k);
      var last := rows[|rows| - 1];
      if KeyOf(last) == k {
        assert (m + [last])[..|m|] == m;
        ArrivalSumAppend(m, [last]);
        assert [last][..0] == [];
      }
    }
  }

  lemma {:induction false} TotalsOfEntries(rows: seq<HourRow>)
    ensures TotalsOf(Entries(rows)) == Totals(|rows|, PatientSum(rows), ArrivalSum(rows))
  {
    if |rows| > 0 {
      TotalsOfEntries(rows[..|rows| - 1]);
      EntriesPrefix(rows, |rows| - 1);
    }
  }

  lemma HasKeyEntries(rows: seq<HourRow>, k: HourKey)
    ensures HasKey(Entries(rows), k) <==> HasRowKey(rows, k)
  {
    if HasKey(Entries(rows), k) {
      var j :| 0 <= j < |Entries(rows)| && Entries(rows)[j].key == k;
      assert KeyOf(rows[j]) == k;
    }
    if HasRowKey(rows, k) {
      var j :| 0 <= j < |rows| && KeyOf(rows[j]) == k;
      assert Entries(rows)[j].key == k;
    }
  }

  /** One output row per (date, hour, site_code) that occurs in the input, and no other. */
  lemma HourlyKeys(rows: seq<HourRow>)
    ensures var agg := HourlyAggregate(rows);
            && (forall i, j :: 0 <= i < j < |agg| ==> KeyOf(agg[i]) != KeyOf(agg[j]))
            && (forall k :: HasRowKey(agg, k) <==> HasRowKey(rows, k))
  {
    var groups := GroupBy(Entries(rows));
    var agg := HourlyAggregate(rows);
    GroupByKeys(Entries(rows));
    forall k
      ensures HasRowKey(agg, k) <==> HasRowKey(rows, k)
    {
      HasKeyEntries(rows, k);
      if HasRowKey(agg, k) {
        var i :| 0 <= i < |agg| && KeyOf(agg[i]) == k;
        assert groups[i].key == k;
      }
      if HasGroup(groups, k) {
        var i :| 0 <= i < |groups| && groups[i].key == k;
        assert KeyOf(agg[i]) == k;
      }
    }
  }

  /** Each output row's patients is the number of input rows with its key, and its
      arrivals the sum of their arrivals. */
  lemma HourlyCounts(rows: seq<HourRow>)
    ensures var agg := HourlyAggregate(rows);
            forall i :: 0 <= i < |agg| ==>
              && agg[i].patients == |RowsWithKey(rows, KeyOf(agg[i]))|
              && agg[i].arrivals == ArrivalSum(RowsWithKey(rows, KeyOf(agg[i])))
  {
    var groups := GroupBy(Entries(rows));
    var agg := HourlyAggregate(rows);
    GroupByTotals(Entries(rows));
    forall i | 0 <= i < |agg|
      ensures && agg[i].patients == |RowsWithKey(rows, KeyOf(agg[i]))|
              && agg[i].arrivals == ArrivalSum(RowsWithKey(rows, KeyOf(agg[i])))
    {
      assert KeyOf(agg[i]) == groups[i].key;
      TotalsForKey(rows, groups[i].key);
    }
  }

  lemma {:induction false} SumsOfGroups(groups: seq<Group<HourKey>>)
    ensures var agg := HourlyRows(groups);
            PatientSum(agg) == SumTotals(groups).rows && ArrivalSum(agg) == SumTotals(groups).arrivals
  {
    if |groups| > 0 {
      var init := groups[..|groups| - 1];
      SumsOfGroups(init);
      assert HourlyRows(groups)[..|groups| - 1] == HourlyRows(init);
    }
  }

  /** Aggregating loses nothing: the patients column adds up to the number of hour rows and
      the arrivals column keeps its total. */
  lemma HourlyTotals(rows: seq<HourRow>)
    ensures PatientSum(HourlyAggregate(rows)) == |rows|
    ensures ArrivalSum(HourlyAggregate(rows)) == ArrivalSum(rows)
  {
    SumsOfGroups(GroupBy(Entries(rows)));
    GroupByGrandTotals(Entries(rows));
    TotalsOfEntries(rows);
  }

  /** Over a successful expansion, the patients column adds up to the hours spent on site by
      all stays, and the arrivals column to the number of stays with at least one hour. */
  lemma HourlyTotalsOfStays(stays: seq<Stay>)
    requires ExpandStays(stays).Ok?
    ensures PatientSum(HourlyAggregate(ExpandStays(stays).value)) == TotalLength(stays)
    ensures ArrivalSum(HourlyAggregate(ExpandStays(stays).value)) == NonEmptyStays(stays)
  {
    HourlyTotals(ExpandStays(stays).value);
    ExpandStaysTotals(stays);
  }

  /** The output hours are input hours, so they stay on the clock. */
  lemma HourlyHours(rows: seq<HourRow>)
    requires forall j :: 0 <= j < |rows| ==> 0 <= rows[j].hour <= 23
    ensures var agg := HourlyAggregate(rows);
            forall i :: 0 <= i < |agg| ==> 0 <= agg[i].hour <= 23 && agg[i].patients >= 1
  {
    var agg := HourlyAggregate(rows);
    var groups := GroupBy(Entries(rows));
    HourlyKeys(rows);
    GroupByTotals(Entries(rows));
    forall i | 0 <= i < |agg|
      ensures 0 <= agg[i].hour <= 23 && agg[i].patients >= 1
    {
      assert HasRowKey(agg, KeyOf(agg[i]));
      var j :| 0 <= j < |rows| && KeyOf(rows[j]) == KeyOf(agg[i]);
      HasKeyEntries(rows, groups[i].key);
      TotalsForRows(Entries(rows), groups[i].key);
    }
  }

  /** The aggregation is not idempotent: aggregating the hourly table again counts each
      of its rows once, so every patients value becomes 1 while arrivals are kept. */
  lemma ReaggregationCountsRows(rows: seq<HourRow>)
    ensures var agg := HourlyAggregate(rows);
            var again := HourlyAggregate(agg);
            && |again| == |agg|
            && forall i :: 0 <= i < |agg| ==>
                 again[i] == HourRow(agg[i].date, agg[i].hour, agg[i].siteCode, 1, agg[i].arrivals)
  {
    var agg := HourlyAggregate(rows);
    HourlyKeys(rows);
    var es := Entries(agg);
    assert forall i, j :: 0 <= i < j < |es| ==> es[i].key != es[j].key by {
      forall i, j | 0 <= i < j < |es|
        ensures es[i].key != es[j].key
      {
        assert es[i].key == KeyOf(agg[i]) && es[j].key == KeyOf(agg[j]);
      }
    }
    GroupByDistinctRows(es);
  }

  // ---------------------------------------------------------------------------
  // The cutoff (lines 176-178)
  // ---------------------------------------------------------------------------

  /** Line 176: today stepped back by its weekday plus seven days, the Monday of last week. */
  function MostRecentWeekStart(now: Day): (r: Day)
  {
    now - ((DayOfWeek(now) - 0) % 7 + 7)
  }

  /** The cutoff is the Monday a week before this week's Monday: a Monday, 7 to 13 days ago. */
  lemma MostRecentWeekStartIsLastMonday(now: Day)
    ensures var cutoff := MostRecentWeekStart(now);
            && DayOfWeek(cutoff) == 0
            && now - 13 <= cutoff <= now - 7
            && cutoff == MondayOf(now) - 7
  {
    var cutoff := MostRecentWeekStart(now);
    WeekOffsets(now);
    ModShift(MondayOf(now), -7);
  }

  /** Line 178: keep the rows dated strictly before the cutoff, in order. */
  function BeforeCutoff(rows: seq<HourRow>, cutoff: Day): seq<HourRow>
  {
    if |rows| == 0 then []
    else
      var init := BeforeCutoff(rows[..|rows| - 1], cutoff);
      if rows[|rows| - 1].date < cutoff then init + [rows[|rows| - 1]] else init
  }

  /** The filter keeps exactly the rows dated before the cutoff, unchanged and in order. */
  lemma {:induction false} BeforeCutoffKeeps(rows: seq<HourRow>, cutoff: Day)
    ensures var kept := BeforeCutoff(rows, cutoff);
            && (forall r :: r in kept <==> r in rows && r.date < cutoff)
            && |kept| <= |rows|
  {
    if |rows| > 0 {
      var init := rows[..|rows| - 1];
      BeforeCutoffKeeps(init, cutoff);
      assert rows == init + [rows[|rows| - 1]];
    }
  }

  /** Cutting at a Monday keeps or drops whole weeks: a day is before the cutoff exactly
      when its whole week, Sunday included, is. */
  lemma WholeWeeksKept(d: Day, cutoff: Day)
    requires DayOfWeek(cutoff) == 0
    ensures d < cutoff <==> SundayOf(d) < cutoff
    ensures d < cutoff <==> MondayOf(d) < cutoff
  {
    var monday := MondayOf(d);
    SundayIsMondayPlusSix(d);
    if monday < cutoff {
      ModShift(monday, cutoff - monday);
      assert (cutoff - monday) % 7 == 0;
    }
  }

  /** Filtering keeps the keys distinct and the hours on the clock. */
  lemma BeforeCutoffKeepsShape(rows: seq<HourRow>, cutoff: Day)
    requires forall i, j :: 0 <= i < j < |rows| ==> KeyOf(rows[i]) != KeyOf(rows[j])
    ensures var kept := BeforeCutoff(rows, cutoff);
            forall i, j :: 0 <= i < j < |kept| ==> KeyOf(kept[i]) != KeyOf(kept[j])
  {
    BeforeCutoffSubsequence(rows, cutoff);
  }

  /** Every kept row comes from a later position than the kept rows before it. */
  lemma {:induction false} BeforeCutoffSubsequence(rows: seq<HourRow>, cutoff: Day)
    requires forall i, j :: 0 <= i < j < |rows| ==> KeyOf(rows[i]) != KeyOf(rows[j])
    ensures var kept := BeforeCutoff(rows, cutoff);
            forall i, j :: 0 <= i < j < |kept| ==> KeyOf(kept[i]) != KeyOf(kept[j])
  {
    if |rows| > 0 {
      var init := rows[..|rows| - 1];
      var last := rows[|rows| - 1];
      BeforeCutoffSubsequence(init, cutoff);
      BeforeCutoffKeeps(init, cutoff);
      var kept := BeforeCutoff(init, cutoff);
      if last.date < cutoff {
        forall i | 0 <= i < |kept|
          ensures KeyOf(kept[i]) != KeyOf(last)
        {
          assert kept[i] in init;
          var j :| 0 <= j < |init| && init[j] == kept[i];
          assert rows[j] == kept[i];
        }
      }
    }
  }
}
