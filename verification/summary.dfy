/** Group-and-summarise (getSummary in Artefact/dataProcessing.py): the
    cleaned table is grouped by one column, groups come out in ascending key
    order (DataFrame.groupby sorts its keys), and each group yields the mean,
    median, max and min of earnings and of annual change, rounded to two
    places. */
module Summary {
  import opened Basics
  import opened Ordering
  import opened Stats
  import opened Cleaning

  /** The column getSummary is asked to group by. */
  datatype GroupColumn = BySector | BySex | ByYear

  /** A group key: a Year is an integer, a Sex or a Sector a string. */
  datatype Key = Number(n: int) | Text(s: string)

  function KeyOf(col: GroupColumn, r: CleanRecord): Key
  {
    match col
    case BySector => Text(r.sector)
    case BySex => Text(r.sex)
    case ByYear => Number(r.year)
  }

  /** Integers in numeric order, strings in Python's order (one grouping
      column never mixes the two). */
  predicate KeyLess(a: Key, b: Key)
  {
    match (a, b)
    case (Number(x), Number(y)) => x < y
    case (Text(x), Text(y)) => StrLess(x, y)
    case (Number(_), Text(_)) => true
    case (Text(_), Number(_)) => false
  }

  lemma KeyLessIrreflexive(a: Key)
    ensures !KeyLess(a, a)
  {
    if a.Text? {
      StrLessIrreflexive(a.s);
    }
  }

  lemma KeyLessTransitive(a: Key, b: Key, c: Key)
    requires KeyLess(a, b) && KeyLess(b, c)
    ensures KeyLess(a, c)
  {
    if a.Text? && b.Text? && c.Text? {
      StrLessTransitive(a.s, b.s, c.s);
    }
  }

  lemma KeyLessTotal(a: Key, b: Key)
    ensures a == b || KeyLess(a, b) || KeyLess(b, a)
  {
    if a.Text? && b.Text? {
      StrLessTotal(a.s, b.s);
    }
  }

  predicate Ascending(ks: seq<Key>)
  {
    forall i, j :: 0 <= i < j < |ks| ==> KeyLess(ks[i], ks[j])
  }

  /** Adds k to an ascending list of keys, unless it is already there. */
  function InsertKey(k: Key, ks: seq<Key>): (r: seq<Key>)
    requires Ascending(ks)
    ensures Ascending(r)
    ensures forall x :: x in r <==> x == k || x in ks
  {
    if ks == [] then [k]
    else if k == ks[0] then ks
    else if KeyLess(k, ks[0]) then
      assert forall j :: 0 <= j < |ks| ==> KeyLess(k, ks[j]) by {
        forall j | 0 <= j < |ks| ensures KeyLess(k, ks[j]) {
          if j > 0 {
            KeyLessTransitive(k, ks[0], ks[j]);
          }
        }
      }
      [k] + ks
    else
      var t := InsertKey(k, ks[1..]);
      assert KeyLess(ks[0], k) by {
        KeyLessTotal(k, ks[0]);
      }
      assert forall j :: 0 <= j < |t| ==> KeyLess(ks[0], t[j]) by {
        forall j | 0 <= j < |t| ensures KeyLess(ks[0], t[j]) {
          assert t[j] == k || t[j] in ks[1..];
        }
      }
      [ks[0]] + t
  }

  /** The distinct keys of the rows, ascending: the order groupby yields
      its groups in. */
  function GroupKeys(rows: seq<CleanRecord>, col: GroupColumn): (ks: seq<Key>)
    ensures Ascending(ks)
    ensures forall i :: 0 <= i < |rows| ==> KeyOf(col, rows[i]) in ks
    ensures forall k :: k in ks ==> exists i :: 0 <= i < |rows| && KeyOf(col, rows[i]) == k
  {
    if rows == [] then []
    else
      var n := |rows| - 1;
      var prev := GroupKeys(rows[..n], col);
      var ks := InsertKey(KeyOf(col, rows[n]), prev);
      assert rows == rows[..n] + [rows[n]];
      GroupKeysStep(rows[..n], rows[n], col, prev, ks);
      ks
  }

  /** Adding one row's key keeps the keys exactly those of the rows. */
  lemma GroupKeysStep(init: seq<CleanRecord>, r: CleanRecord, col: GroupColumn, prev: seq<Key>, ks: seq<Key>)
    requires forall i :: 0 <= i < |init| ==> KeyOf(col, init[i]) in prev
    requires forall k :: k in prev ==> exists i :: 0 <= i < |init| && KeyOf(col, init[i]) == k
    requires forall x :: x in ks <==> x == KeyOf(col, r) || x in prev
    ensures forall i :: 0 <= i < |init + [r]| ==> KeyOf(col, (init + [r])[i]) in ks
    ensures forall k :: k in ks ==> exists i :: 0 <= i < |init + [r]| && KeyOf(col, (init + [r])[i]) == k
  {
    var rows := init + [r];
    forall i | 0 <= i < |rows| ensures KeyOf(col, rows[i]) in ks {
      if i < |init| {
        assert rows[i] == init[i];
      }
    }
    forall k | k in ks ensures exists i :: 0 <= i < |rows| && KeyOf(col, rows[i]) == k {
      if k == KeyOf(col, r) {
        assert rows[|init|] == r;
      } else {
        var i :| 0 <= i < |init| && KeyOf(col, init[i]) == k;
        assert rows[i] == init[i];
      }
    }
  }

  /** The rows whose key is k, in table order. */
  function GroupRows(rows: seq<CleanRecord>, col: GroupColumn, k: Key): (g: seq<CleanRecord>)
    ensures forall j :: 0 <= j < |g| ==> KeyOf(col, g[j]) == k
  {
    if rows == [] then []
    else
      var n := |rows| - 1;
      GroupRows(rows[..n], col, k) + (if KeyOf(col, rows[n]) == k then [rows[n]] else [])
  }

  lemma {:induction false} GroupRowsNonEmpty(rows: seq<CleanRecord>, col: GroupColumn, i: nat)
    requires i < |rows|
    ensures |GroupRows(rows, col, KeyOf(col, rows[i]))| > 0
  {
    var n := |rows| - 1;
    if i < n {
      GroupRowsNonEmpty(rows[..n], col, i);
    }
  }

  datatype Group = Group(key: Key, rows: seq<CleanRecord>)

  function GroupsFor(ks: seq<Key>, rows: seq<CleanRecord>, col: GroupColumn): (gs: seq<Group>)
    ensures |gs| == |ks|
  {
    if ks == [] then [] else [Group(ks[0], GroupRows(rows, col, ks[0]))] + GroupsFor(ks[1..], rows, col)
  }

  lemma {:induction false} GroupsForAt(ks: seq<Key>, rows: seq<CleanRecord>, col: GroupColumn)
    ensures forall i :: 0 <= i < |ks| ==> GroupsFor(ks, rows, col)[i] == Group(ks[i], GroupRows(rows, col, ks[i]))
  {
    if ks != [] {
      GroupsForAt(ks[1..], rows, col);
    }
  }

  /** df.groupby(column): one group per distinct key, ascending. */
  function GroupBy(rows: seq<CleanRecord>, col: GroupColumn): seq<Group>
  {
    GroupsFor(GroupKeys(rows, col), rows, col)
  }

  /** All group members one after the other. */
  function Flatten(gs: seq<Group>): seq<CleanRecord>
  {
    if gs == [] then [] else gs[0].rows + Flatten(gs[1..])
  }

  /** mean, median, max and min of one column in one group; None when the
      group has no value in that column. */
  datatype ColumnStats = ColumnStats(mean: Option<real>, median: Option<real>, max: Option<real>, min: Option<real>)

  function Describe(xs: seq<real>): ColumnStats
  {
    if xs == [] then ColumnStats(None, None, None, None)
    else ColumnStats(Some(Mean(xs)), Some(Median(xs)), Some(Max(xs)), Some(Min(xs)))
  }

  /** .round(2) applied to each statistic. */
  function Rounded(s: ColumnStats): ColumnStats
  {
    ColumnStats(RoundOption(s.mean), RoundOption(s.median), RoundOption(s.max), RoundOption(s.min))
  }

  /** Either all four statistics are absent, or min <= median <= max and
      min <= mean <= max. */
  predicate Ordered(s: ColumnStats)
  {
    || (s.mean.None? && s.median.None? && s.max.None? && s.min.None?)
    || (&& s.mean.Some? && s.median.Some? && s.max.Some? && s.min.Some?
        && s.min.value <= s.median.value <= s.max.value
        && s.min.value <= s.mean.value <= s.max.value)
  }

  /** The earnings of a group. */
  function Earnings(rows: seq<CleanRecord>): (xs: seq<real>)
    ensures |xs| == |rows|
    ensures forall i :: 0 <= i < |rows| ==> xs[i] == rows[i].earnings
  {
    if rows == [] then [] else Earnings(rows[..|rows| - 1]) + [rows[|rows| - 1].earnings]
  }

  /** The annual-change values of a group, NaN cells skipped (as pandas'
      reductions skip them). */
  function Changes(rows: seq<CleanRecord>): (xs: seq<real>)
    ensures |xs| <= |rows|
    ensures xs == [] <==> forall i :: 0 <= i < |rows| ==> rows[i].change.None?
  {
    if rows == [] then []
    else
      var last := rows[|rows| - 1];
      Changes(rows[..|rows| - 1]) + (if last.change.Some? then [last.change.value] else [])
  }

  /** The positions of the rows whose change is not NaN, ascending. */
  function ChangeIndices(rows: seq<CleanRecord>): (ix: seq<nat>)
    ensures forall j :: 0 <= j < |ix| ==> ix[j] < |rows| && rows[ix[j]].change.Some?
    ensures forall j, k :: 0 <= j < k < |ix| ==> ix[j] < ix[k]
    ensures forall i :: 0 <= i < |rows| && rows[i].change.Some? ==> i in ix
  {
    if rows == [] then []
    else
      var n := |rows| - 1;
      ChangeIndices(rows[..n]) + (if rows[n].change.Some? then [n] else [])
  }

  /** Every change that is not NaN is summarised, once and in row order: the
      k-th value is the change of the k-th such row. */
  lemma {:induction false} ChangesAt(rows: seq<CleanRecord>)
    ensures var xs, ix := Changes(rows), ChangeIndices(rows);
      && |xs| == |ix|
      && forall k :: 0 <= k < |xs| ==> xs[k] == rows[ix[k]].change.value
  {
    if rows != [] {
      ChangesAt(rows[..|rows| - 1]);
    }
  }

  /** One row of the summary table. */
  datatype SummaryRow = SummaryRow(key: Key, earnings: ColumnStats, change: ColumnStats)

  function Summarise(g: Group): SummaryRow
  {
    SummaryRow(g.key, Rounded(Describe(Earnings(g.rows))), Rounded(Describe(Changes(g.rows))))
  }

  function SummaryTable(rows: seq<CleanRecord>, col: GroupColumn): (t: seq<SummaryRow>)
    ensures |t| == |GroupBy(rows, col)|
  {
    var gs := GroupBy(rows, col);
    seq(|gs|, i requires 0 <= i < |gs| => Summarise(gs[i]))
  }

  /** The statistics of a non-empty column are ordered, before and after
      rounding; those of an empty column are all absent. */
  lemma DescribeOrdered(xs: seq<real>)
    ensures Ordered(Describe(xs)) && Ordered(Rounded(Describe(xs)))
    ensures Describe(xs).mean.None? <==> xs == []
  {
    if xs != [] {
      MeanBetween(xs);
      var lo, med, hi, mean := Min(xs), Median(xs), Max(xs), Mean(xs);
      assert Describe(xs) == ColumnStats(Some(mean), Some(med), Some(hi), Some(lo));
      RoundedStatsOrdered(lo, med, hi, mean);
      assert Rounded(Describe(xs)) ==
               ColumnStats(Some(Round(mean, 2)), Some(Round(med, 2)), Some(Round(hi, 2)), Some(Round(lo, 2)));
    }
  }

  lemma RoundedStatsOrdered(lo: real, med: real, hi: real, mean: real)
    requires lo <= med <= hi && lo <= mean <= hi
    ensures Round(lo, 2) <= Round(med, 2) <= Round(hi, 2)
    ensures Round(lo, 2) <= Round(mean, 2) <= Round(hi, 2)
  {
    RoundMonotone(lo, med, 2);
    RoundMonotone(med, hi, 2);
    RoundMonotone(lo, mean, 2);
    RoundMonotone(mean, hi, 2);
  }

  /** getSummary: the groups, and one summary row per group in the same
      (ascending key) order. */
  method GetSummary(rows: seq<CleanRecord>, col: GroupColumn) returns (summary: seq<SummaryRow>, groups: seq<Group>)
    ensures groups == GroupBy(rows, col)
    ensures summary == SummaryTable(rows, col)
    ensures forall i :: 0 <= i < |summary| ==>
              && summary[i].key == groups[i].key
              && Ordered(summary[i].earnings) && summary[i].earnings.mean.Some?
              && Ordered(summary[i].change)
  {
    groups := GroupBy(rows, col);
    summary := [];
    for i := 0 to |groups|
      invariant |summary| == i
      invariant forall j :: 0 <= j < i ==> summary[j] == Summarise(groups[j])
    {
      var result := Summarise(groups[i]);
      summary := summary + [result];
    }
    SummaryTableOrdered(rows, col);
  }

  lemma SummaryTableOrdered(rows: seq<CleanRecord>, col: GroupColumn)
    ensures forall i :: 0 <= i < |SummaryTable(rows, col)| ==>
              && SummaryTable(rows, col)[i].key == GroupBy(rows, col)[i].key
              && Ordered(SummaryTable(rows, col)[i].earnings) && SummaryTable(rows, col)[i].earnings.mean.Some?
              && Ordered(SummaryTable(rows, col)[i].change)
  {
    var gs := GroupBy(rows, col);
    forall i | 0 <= i < |gs|
      ensures && SummaryTable(rows, col)[i].key == gs[i].key
              && Ordered(SummaryTable(rows, col)[i].earnings) && SummaryTable(rows, col)[i].earnings.mean.Some?
              && Ordered(SummaryTable(rows, col)[i].change)
    {
      GroupIsNonEmpty(rows, col, i);
      SummariseOrdered(gs[i]);
    }
  }

  /** Each summary row keeps its group's key and has ordered statistics;
      a non-empty group always has earnings statistics. */
  lemma SummariseOrdered(g: Group)
    requires |g.rows| > 0
    ensures Summarise(g).key == g.key
    ensures Ordered(Summarise(g).earnings) && Summarise(g).earnings.mean.Some?
    ensures Ordered(Summarise(g).change)
    ensures Summarise(g).change.mean.None? <==> forall i :: 0 <= i < |g.rows| ==> g.rows[i].change.None?
  {
    DescribeOrdered(Earnings(g.rows));
    DescribeOrdered(Changes(g.rows));
  }

  /** A summary row's earnings minimum and maximum are the rounded earnings
      of rows of the group, and every row's rounded earnings lie between
      them; the same holds for the changes that are not NaN. */
  lemma SummaryFromRows(g: Group)
    requires |g.rows| > 0
    ensures var e := Summarise(g).earnings;
      && (exists i :: 0 <= i < |g.rows| && e.min.value == Round(g.rows[i].earnings, 2))
      && (exists i :: 0 <= i < |g.rows| && e.max.value == Round(g.rows[i].earnings, 2))
      && (forall i :: 0 <= i < |g.rows| ==> e.min.value <= Round(g.rows[i].earnings, 2) <= e.max.value)
    ensures var c := Summarise(g).change;
      && (c.min.Some? ==> exists i :: 0 <= i < |g.rows| && g.rows[i].change.Some? && c.min.value == Round(g.rows[i].change.value, 2))
      && (c.max.Some? ==> exists i :: 0 <= i < |g.rows| && g.rows[i].change.Some? && c.max.value == Round(g.rows[i].change.value, 2))
      && (forall i :: 0 <= i < |g.rows| && g.rows[i].change.Some? ==>
            c.min.value <= Round(g.rows[i].change.value, 2) <= c.max.value)
  {
    var xs, cs := Earnings(g.rows), Changes(g.rows);
    assert Summarise(g).earnings.min == Some(Round(Min(xs), 2));
    assert Summarise(g).earnings.max == Some(Round(Max(xs), 2));
    EarningsFromRows(g.rows);
    if cs != [] {
      assert Summarise(g).change.min == Some(Round(Min(cs), 2));
      assert Summarise(g).change.max == Some(Round(Max(cs), 2));
      ChangesFromRows(g.rows);
    }
  }

  lemma EarningsFromRows(rows: seq<CleanRecord>)
    requires |rows| > 0
    ensures var xs := Earnings(rows);
      && (exists i :: 0 <= i < |rows| && Round(Min(xs), 2) == Round(rows[i].earnings, 2))
      && (exists i :: 0 <= i < |rows| && Round(Max(xs), 2) == Round(rows[i].earnings, 2))
      && (forall i :: 0 <= i < |rows| ==> Round(Min(xs), 2) <= Round(rows[i].earnings, 2) <= Round(Max(xs), 2))
  {
    var xs := Earnings(rows);
    var lo :| 0 <= lo < |xs| && xs[lo] == Min(xs);
    var hi :| 0 <= hi < |xs| && xs[hi] == Max(xs);
    forall i | 0 <= i < |rows| ensures Round(Min(xs), 2) <= Round(rows[i].earnings, 2) <= Round(Max(xs), 2) {
      RoundMonotone(Min(xs), xs[i], 2);
      RoundMonotone(xs[i], Max(xs), 2);
    }
  }

  lemma ChangesFromRows(rows: seq<CleanRecord>)
    ensures var xs := Changes(rows);
      xs != [] ==>
      && (exists i :: 0 <= i < |rows| && rows[i].change.Some? && Round(Min(xs), 2) == Round(rows[i].change.value, 2))
      && (exists i :: 0 <= i < |rows| && rows[i].change.Some? && Round(Max(xs), 2) == Round(rows[i].change.value, 2))
      && (forall i :: 0 <= i < |rows| && rows[i].change.Some? ==>
            Round(Min(xs), 2) <= Round(rows[i].change.value, 2) <= Round(Max(xs), 2))
  {
    var xs, ix := Changes(rows), ChangeIndices(rows);
    ChangesAt(rows);
    if xs != [] {
      var lo :| 0 <= lo < |xs| && xs[lo] == Min(xs);
      var hi :| 0 <= hi < |xs| && xs[hi] == Max(xs);
      assert rows[ix[lo]].change.Some? && rows[ix[hi]].change.Some?;
      forall i | 0 <= i < |rows| && rows[i].change.Some?
        ensures Round(Min(xs), 2) <= Round(rows[i].change.value, 2) <= Round(Max(xs), 2)
      {
        var k :| 0 <= k < |ix| && ix[k] == i;
        RoundMonotone(Min(xs), xs[k], 2);
        RoundMonotone(xs[k], Max(xs), 2);
      }
    }
  }


  lemma GroupIsNonEmpty(rows: seq<CleanRecord>, col: GroupColumn, i: nat)
    requires i < |GroupBy(rows, col)|
    ensures |GroupBy(rows, col)[i].rows| > 0
  {
    var ks := GroupKeys(rows, col);
    GroupsForAt(ks, rows, col);
    assert ks[i] in ks;
    var j :| 0 <= j < |rows| && KeyOf(col, rows[j]) == ks[i];
    GroupRowsNonEmpty(rows, col, j);
  }

  // ---------------------------------------------------------------------
  // The groups partition the table

  lemma GroupRowsSnoc(rows: seq<CleanRecord>, r: CleanRecord, col: GroupColumn, k: Key)
    ensures GroupRows(rows + [r], col, k) == GroupRows(rows, col, k) + (if KeyOf(col, r) == k then [r] else [])
  {
    assert (rows + [r])[..|rows|] == rows;
  }

  lemma MultisetSnocShape(a: seq<CleanRecord>, rest: seq<CleanRecord>, rest': seq<CleanRecord>, r: CleanRecord, hit: bool, inRest: bool)
    requires multiset(rest') == multiset(rest) + (if inRest then multiset{r} else multiset{})
    requires !(hit && inRest)
    ensures multiset(a + (if hit then [r] else []) + rest') ==
            multiset(a + rest) + (if hit || inRest then multiset{r} else multiset{})
  {
  }

  lemma {:induction false} FlattenSnoc(ks: seq<Key>, rows: seq<CleanRecord>, r: CleanRecord, col: GroupColumn)
    requires forall i, j :: 0 <= i < j < |ks| ==> ks[i] != ks[j]
    ensures multiset(Flatten(GroupsFor(ks, rows + [r], col))) ==
            multiset(Flatten(GroupsFor(ks, rows, col))) + (if KeyOf(col, r) in ks then multiset{r} else multiset{})
  {
    if ks != [] {
      var k, key := ks[0], KeyOf(col, r);
      FlattenSnoc(ks[1..], rows, r, col);
      GroupRowsSnoc(rows, r, col, k);
      assert key == k ==> key !in ks[1..];
      assert key in ks <==> key == k || key in ks[1..];
      MultisetSnocShape(GroupRows(rows, col, k), Flatten(GroupsFor(ks[1..], rows, col)),
                        Flatten(GroupsFor(ks[1..], rows + [r], col)), r, key == k, key in ks[1..]);
    }
  }

  lemma {:induction false} FlattenCovers(ks: seq<Key>, rows: seq<CleanRecord>, col: GroupColumn)
    requires forall i, j :: 0 <= i < j < |ks| ==> ks[i] != ks[j]
    requires forall i :: 0 <= i < |rows| ==> KeyOf(col, rows[i]) in ks
    ensures multiset(Flatten(GroupsFor(ks, rows, col))) == multiset(rows)
  {
    if rows == [] {
      FlattenOfNothing(ks, col);
    } else {
      var n := |rows| - 1;
      assert rows == rows[..n] + [rows[n]];
      FlattenCovers(ks, rows[..n], col);
      FlattenSnoc(ks, rows[..n], rows[n], col);
    }
  }

  lemma {:induction false} FlattenOfNothing(ks: seq<Key>, col: GroupColumn)
    ensures Flatten(GroupsFor(ks, [], col)) == []
  {
    if ks != [] {
      FlattenOfNothing(ks[1..], col);
    }
  }

  /** The groups partition the table: keys ascend (so no key is repeated),
      each group is non-empty and holds only rows with its key, and the
      groups together hold every row exactly as often as the table does. */
  lemma GroupByPartitions(rows: seq<CleanRecord>, col: GroupColumn)
    ensures var gs := GroupBy(rows, col);
      && (forall i, j :: 0 <= i < j < |gs| ==> KeyLess(gs[i].key, gs[j].key))
      && (forall i :: 0 <= i < |gs| ==> |gs[i].rows| > 0)
      && (forall i, j :: 0 <= i < |gs| && 0 <= j < |gs[i].rows| ==> KeyOf(col, gs[i].rows[j]) == gs[i].key)
      && (forall r :: r in rows ==> exists i :: 0 <= i < |gs| && gs[i].key == KeyOf(col, r))
      && multiset(Flatten(gs)) == multiset(rows)
  {
    var ks := GroupKeys(rows, col);
    GroupsForAt(ks, rows, col);
    forall i, j | 0 <= i < j < |ks| ensures ks[i] != ks[j] {
      KeyLessIrreflexive(ks[i]);
    }
    forall i | 0 <= i < |ks| ensures |GroupBy(rows, col)[i].rows| > 0 {
      GroupIsNonEmpty(rows, col, i);
    }
    var gs := GroupBy(rows, col);
    forall r | r in rows ensures exists i :: 0 <= i < |gs| && gs[i].key == KeyOf(col, r) {
      var p :| 0 <= p < |rows| && rows[p] == r;
      assert KeyOf(col, rows[p]) in ks;
      var i :| 0 <= i < |ks| && ks[i] == KeyOf(col, r);
      assert gs[i].key == ks[i];
    }
    FlattenCovers(ks, rows, col);
  }
}
