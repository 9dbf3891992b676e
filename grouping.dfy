/**
 * pandas' `groupby(keys).agg(...)` reduced to what the pipeline uses: every
 * group keeps its number of rows (the 'count' aggregation) and the sums of
 * the patients and arrivals columns (the 'sum' aggregation). Groups are kept
 * in the order their keys first appear.
 */
module Grouping {

  /** One input row as the groupby sees it: its key and the two summed columns. */
  datatype Entry<K> = Entry(key: K, patients: nat, arrivals: nat)

  /** What a group accumulates: its row count and the sums of both columns. */
  datatype Totals = Totals(rows: nat, patients: nat, arrivals: nat)

  datatype Group<K> = Group(key: K, totals: Totals)

  const NoRows: Totals := Totals(0, 0, 0)

  function Add<K>(t: Totals, e: Entry<K>): Totals
  {
    Totals(t.rows + 1, t.patients + e.patients, t.arrivals + e.arrivals)
  }

  function Plus(a: Totals, b: Totals): Totals
  {
    Totals(a.rows + b.rows, a.patients + b.patients, a.arrivals + b.arrivals)
  }

  /** Reference definition: the totals of the entries whose key is k. */
  function TotalsFor<K(==)>(entries: seq<Entry<K>>, k: K): Totals
  {
    if |entries| == 0 then NoRows
    else
      var t := TotalsFor(entries[..|entries| - 1], k);
      if entries[|entries| - 1].key == k then Add(t, entries[|entries| - 1]) else t
  }

  /** The totals of all entries. */
  function TotalsOf<K>(entries: seq<Entry<K>>): Totals
  {
    if |entries| == 0 then NoRows else Add(TotalsOf(entries[..|entries| - 1]), entries[|entries| - 1])
  }

  /** The totals of all groups added up. */
  function SumTotals<K>(groups: seq<Group<K>>): Totals
  {
    if |groups| == 0 then NoRows else Plus(SumTotals(groups[..|groups| - 1]), groups[|groups| - 1].totals)
  }

  predicate DistinctKeys<K(==)>(groups: seq<Group<K>>)
  {
    forall i, j :: 0 <= i < j < |groups| ==> groups[i].key != groups[j].key
  }

  predicate HasKey<K(==)>(entries: seq<Entry<K>>, k: K)
  {
    exists j :: 0 <= j < |entries| && entries[j].key == k
  }

  predicate HasGroup<K(==)>(groups: seq<Group<K>>, k: K)
  {
    exists i :: 0 <= i < |groups| && groups[i].key == k
  }

  /** The position of the group with key k, or -1 when there is none. */
  function Find<K(==)>(groups: seq<Group<K>>, k: K): (r: int)
    ensures -1 <= r < |groups|
    ensures r >= 0 ==> groups[r].key == k
    ensures r < 0 ==> !HasGroup(groups, k)
  {
    if |groups| == 0 then -1
    else if groups[|groups| - 1].key == k then |groups| - 1
    else Find(groups[..|groups| - 1], k)
  }

  /** Add one row to its group, opening a new group at the end for a key not seen before. */
  function Insert<K(==)>(groups: seq<Group<K>>, e: Entry<K>): seq<Group<K>>
  {
    var i := Find(groups, e.key);
    if i < 0 then groups + [Group(e.key, Add(NoRows, e))]
    else groups[i := Group(e.key, Add(groups[i].totals, e))]
  }

  /** `groupby(key).agg(...)` over the rows in order. */
  function GroupBy<K(==)>(entries: seq<Entry<K>>): seq<Group<K>>
  {
    if |entries| == 0 then [] else Insert(GroupBy(entries[..|entries| - 1]), entries[|entries| - 1])
  }

  // ---------------------------------------------------------------------------
  // Properties
  // ---------------------------------------------------------------------------

  /** A key with no rows has empty totals, and a key with rows has at least one. */
  lemma {:induction false} TotalsForRows<K>(entries: seq<Entry<K>>, k: K)
    ensures TotalsFor(entries, k).rows > 0 <==> HasKey(entries, k)
  {
    if |entries| > 0 {
      var init := entries[..|entries| - 1];
      TotalsForRows(init, k);
      if HasKey(init, k) {
        var j :| 0 <= j < |init| && init[j].key == k;
        assert entries[j].key == k;
      }
      if HasKey(entries, k) && entries[|entries| - 1].key != k {
        var j :| 0 <= j < |entries| && entries[j].key == k;
        assert init[j].key == k;
      }
    }
  }

  lemma {:induction false} TotalsForAbsent<K>(entries: seq<Entry<K>>, k: K)
    requires !HasKey(entries, k)
    ensures TotalsFor(entries, k) == NoRows
  {
    if |entries| > 0 {
      var init := entries[..|entries| - 1];
      forall j | 0 <= j < |init|
        ensures init[j].key != k
      {
        assert init[j] == entries[j];
      }
      TotalsForAbsent(init, k);
    }
  }

  /** The groups have pairwise different keys, and there is a group for a key
      exactly when some row has that key. */
  lemma {:induction false} GroupByKeys<K>(entries: seq<Entry<K>>)
    ensures DistinctKeys(GroupBy(entries))
    ensures forall k :: HasGroup(GroupBy(entries), k) <==> HasKey(entries, k)
  {
    if |entries| > 0 {
      var init := entries[..|entries| - 1];
      var e := entries[|entries| - 1];
      var groups := GroupBy(init);
      GroupByKeys(init);
      var i := Find(groups, e.key);
      var result := GroupBy(entries);
      assert result == Insert(groups, e);
      forall k
        ensures HasGroup(result, k) <==> HasKey(entries, k)
      {
        if HasKey(entries, k) {
          if k == e.key {
            if i < 0 {
              assert result[|groups|].key == k;
            } else {
              assert result[i].key == k;
            }
          } else {
            var j :| 0 <= j < |entries| && entries[j].key == k;
            assert init[j].key == k;
            assert HasKey(init, k);
            var g :| 0 <= g < |groups| && groups[g].key == k;
            assert result[g].key == k;
          }
        }
        if HasGroup(result, k) {
          var g :| 0 <= g < |result| && result[g].key == k;
          if k != e.key {
            assert groups[g].key == k;
            assert HasGroup(groups, k);
            var j :| 0 <= j < |init| && init[j].key == k;
            assert entries[j].key == k;
          } else {
            assert entries[|entries| - 1].key == k;
          }
        }
      }
    }
  }

  /** Every group carries the totals of exactly the rows with its key. */
  lemma {:induction false} GroupByTotals<K>(entries: seq<Entry<K>>)
    ensures forall i :: 0 <= i < |GroupBy(entries)| ==>
              GroupBy(entries)[i].totals == TotalsFor(entries, GroupBy(entries)[i].key)
  {
    if |entries| > 0 {
      var init := entries[..|entries| - 1];
      var e := entries[|entries| - 1];
      var groups := GroupBy(init);
      GroupByTotals(init);
      GroupByKeys(init);
      var f := Find(groups, e.key);
      var result := GroupBy(entries);
      assert result == Insert(groups, e);
      if f < 0 {
        TotalsForAbsent(init, e.key);
      }
      forall i | 0 <= i < |result|
        ensures result[i].totals == TotalsFor(entries, result[i].key)
      {
        if i < |groups| && i != f {
          assert result[i] == groups[i];
          assert groups[i].key != e.key;
          assert TotalsFor(entries, groups[i].key) == TotalsFor(init, groups[i].key);
        } else if i == f {
          assert groups[f].key == e.key;
          assert groups[f].totals == TotalsFor(init, e.key);
          assert result[i] == Group(e.key, Add(TotalsFor(init, e.key), e));
        } else {
          assert result[i] == Group(e.key, Add(NoRows, e));
        }
      }
    }
  }

  lemma {:induction false} SumTotalsAppend<K>(groups: seq<Group<K>>, g: Group<K>)
    ensures SumTotals(groups + [g]) == Plus(SumTotals(groups), g.totals)
  {
    assert (groups + [g])[..|groups|] == groups;
  }

  /** Replacing one group's totals changes the sum by the difference. */
  lemma {:induction false} SumTotalsUpdate<K>(groups: seq<Group<K>>, i: nat, g: Group<K>)
    requires i < |groups|
    ensures Plus(SumTotals(groups[i := g]), groups[i].totals) == Plus(SumTotals(groups), g.totals)
  {
    var n := |groups| - 1;
    if i < n {
      assert groups[i := g][..n] == groups[..n][i := g];
      SumTotalsUpdate(groups[..n], i, g);
    } else {
      assert groups[i := g][..n] == groups[..n];
    }
  }

  /** Grouping loses no row: the groups' totals add up to the totals of all rows. */
  lemma {:induction false} GroupByGrandTotals<K>(entries: seq<Entry<K>>)
    ensures SumTotals(GroupBy(entries)) == TotalsOf(entries)
  {
    if |entries| > 0 {
      var init := entries[..|entries| - 1];
      var e := entries[|entries| - 1];
      var groups := GroupBy(init);
      GroupByGrandTotals(init);
      var f := Find(groups, e.key);
      if f < 0 {
        SumTotalsAppend(groups, Group(e.key, Add(NoRows, e)));
      } else {
        SumTotalsUpdate(groups, f, Group(e.key, Add(groups[f].totals, e)));
      }
    }
  }

  /** Rows whose keys are all different come out as one group each, in the same order. */
  lemma {:induction false} GroupByDistinctRows<K>(entries: seq<Entry<K>>)
    requires forall i, j :: 0 <= i < j < |entries| ==> entries[i].key != entries[j].key
    ensures var groups := GroupBy(entries);
            && |groups| == |entries|
            && forall i :: 0 <= i < |groups| ==>
                 groups[i] == Group(entries[i].key, Totals(1, entries[i].patients, entries[i].arrivals))
  {
    if |entries| > 0 {
      var init := entries[..|entries| - 1];
      var e := entries[|entries| - 1];
      GroupByDistinctRows(init);
      var groups := GroupBy(init);
      forall g | 0 <= g < |groups|
        ensures groups[g].key != e.key
      {
        assert groups[g].key == init[g].key == entries[g].key;
      }
    }
  }

  // ---------------------------------------------------------------------------
  // Grouping, then keeping the groups whose keys pass a test
  // ---------------------------------------------------------------------------

  /** The entries whose keys pass p, in order. */
  function Keep<K>(entries: seq<Entry<K>>, p: K -> bool): seq<Entry<K>>
  {
    if |entries| == 0 then []
    else
      var init := Keep(entries[..|entries| - 1], p);
      if p(entries[|entries| - 1].key) then init + [entries[|entries| - 1]] else init
  }

  /** The kept entries gain the last entry's totals exactly when its key passes p. */
  lemma TotalsOfKeepStep<K>(entries: seq<Entry<K>>, p: K -> bool)
    requires |entries| > 0
    ensures var init, e := entries[..|entries| - 1], entries[|entries| - 1];
            TotalsOf(Keep(entries, p))
              == if p(e.key) then Add(TotalsOf(Keep(init, p)), e) else TotalsOf(Keep(init, p))
  {
    var init, e := entries[..|entries| - 1], entries[|entries| - 1];
    if p(e.key) {
      var kept := Keep(init, p);
      assert Keep(entries, p) == kept + [e];
      assert (kept + [e])[..|kept|] == kept;
    }
  }

  /** What group g adds to a sum that counts only the keys passing p. */
  function KeptTotals<K>(g: Group<K>, p: K -> bool): Totals
  {
    if p(g.key) then g.totals else NoRows
  }

  /** The totals of the groups whose keys pass p, added up. */
  function SumKept<K>(groups: seq<Group<K>>, p: K -> bool): Totals
  {
    if |groups| == 0 then NoRows
    else Plus(SumKept(groups[..|groups| - 1], p), KeptTotals(groups[|groups| - 1], p))
  }

  lemma {:induction false} SumKeptAppend<K>(groups: seq<Group<K>>, g: Group<K>, p: K -> bool)
    ensures SumKept(groups + [g], p) == Plus(SumKept(groups, p), KeptTotals(g, p))
  {
    assert (groups + [g])[..|groups|] == groups;
  }

  /** Replacing one group by one with the same key changes the kept sum by the difference. */
  lemma {:induction false} SumKeptUpdate<K>(groups: seq<Group<K>>, i: nat, g: Group<K>, p: K -> bool)
    requires i < |groups| && g.key == groups[i].key
    ensures Plus(SumKept(groups[i := g], p), KeptTotals(groups[i], p)) == Plus(SumKept(groups, p), KeptTotals(g, p))
  {
    var n := |groups| - 1;
    if i < n {
      assert groups[i := g][..n] == groups[..n][i := g];
      SumKeptUpdate(groups[..n], i, g, p);
    } else {
      assert groups[i := g][..n] == groups[..n];
    }
  }

  /** Adding one row to its group adds it to the kept sum exactly when its key passes p. */
  lemma InsertKept<K>(groups: seq<Group<K>>, e: Entry<K>, p: K -> bool)
    ensures SumKept(Insert(groups, e), p) == if p(e.key) then Add(SumKept(groups, p), e) else SumKept(groups, p)
  {
    var f := Find(groups, e.key);
    if f < 0 {
      SumKeptAppend(groups, Group(e.key, Add(NoRows, e)), p);
    } else {
      SumKeptUpdate(groups, f, Group(e.key, Add(groups[f].totals, e)), p);
    }
  }

  /** Grouping and then keeping the groups whose keys pass p loses no kept row: their totals
      add up to the totals of the entries whose keys pass p. */
  lemma {:induction false} GroupByKept<K>(entries: seq<Entry<K>>, p: K -> bool)
    ensures SumKept(GroupBy(entries), p) == TotalsOf(Keep(entries, p))
  {
    if |entries| > 0 {
      var init := entries[..|entries| - 1];
      var e := entries[|entries| - 1];
      GroupByKept(init, p);
      InsertKept(GroupBy(init), e, p);
      TotalsOfKeepStep(entries, p);
    }
  }
}
