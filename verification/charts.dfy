/** The earnings line charts (createGraph in Artefact/dataProcessing.py): one
    series per sector, in the order sectors first appear in the data, with
    one point per requested year. A point is the mean earnings of that
    sector's rows for the year, or a gap when the sector has no row for the
    year or the mean is zero (a falsy value). */
module Charts {
  import opened Basics
  import opened Seqs
  import opened Stats
  import opened Cleaning

  /** One line of the chart: the sector it is labelled with and its points. */
  datatype Series = Series(sector: string, points: seq<Option<real>>)

  function SectorColumn(data: seq<CleanRecord>): (s: seq<string>)
    ensures |s| == |data|
    ensures forall i :: 0 <= i < |data| ==> s[i] == data[i].sector
  {
    seq(|data|, i requires 0 <= i < |data| => data[i].sector)
  }

  /** The sectors of the data, each once, in first-seen order (unique()). */
  function Sectors(data: seq<CleanRecord>): seq<string>
  {
    Distinct(SectorColumn(data))
  }

  predicate InCell(r: CleanRecord, sector: string, year: int)
  {
    r.sector == sector && r.year == year
  }

  /** The earnings of the rows of one (sector, year) cell, in row order. */
  function CellEarnings(data: seq<CleanRecord>, sector: string, year: int): (xs: seq<real>)
    ensures |xs| <= |data|
    ensures xs == [] <==> forall j :: 0 <= j < |data| ==> !InCell(data[j], sector, year)
  {
    if data == [] then []
    else
      var init := CellEarnings(data[..|data| - 1], sector, year);
      var r := data[|data| - 1];
      if InCell(r, sector, year) then init + [r.earnings] else init
  }

  /** The value plotted for a sector in a year. */
  function Point(data: seq<CleanRecord>, sector: string, year: int): Option<real>
  {
    var xs := CellEarnings(data, sector, year);
    if xs == [] then None
    else
      var e := Mean(xs);
      if e == 0.0 then None else Some(e)
  }

  function SeriesFor(data: seq<CleanRecord>, sector: string, years: seq<int>): (s: Series)
    ensures s.sector == sector && |s.points| == |years|
  {
    Series(sector, seq(|years|, i requires 0 <= i < |years| => Point(data, sector, years[i])))
  }

  /** Every series of the chart, in the order they are added. */
  function ChartSeries(data: seq<CleanRecord>, years: seq<int>): (ss: seq<Series>)
    ensures |ss| == |Sectors(data)|
  {
    var sectors := Sectors(data);
    seq(|sectors|, k requires 0 <= k < |sectors| => SeriesFor(data, sectors[k], years))
  }

  /** The axis titles every earnings chart carries. */
  const YearAxis := "Year"
  const EarningsAxis := "Median Annual Earnings (€)"

  /** A pygal line chart: a title, axis titles, the x labels and the series
      added so far. */
  class LineChart {
    var title: string
    var xTitle: string
    var yTitle: string
    var xLabels: seq<int>
    var series: seq<Series>

    constructor (title: string, xLabels: seq<int>)
      ensures this.title == title && this.xLabels == xLabels
      ensures xTitle == YearAxis && yTitle == EarningsAxis
      ensures series == []
    {
      this.title := title;
      this.xTitle := YearAxis;
      this.yTitle := EarningsAxis;
      this.xLabels := xLabels;
      this.series := [];
    }

    /** Appends one series; nothing else about the chart changes. */
    method Add(s: Series)
      modifies this
      ensures series == old(series) + [s]
      ensures title == old(title) && xTitle == old(xTitle) && yTitle == old(yTitle)
      ensures xLabels == old(xLabels)
    {
      series := series + [s];
    }
  }

  /** createGraph: builds the chart series by series. */
  method CreateGraph(data: seq<CleanRecord>, title: string, years: seq<int>) returns (chart: LineChart)
    ensures fresh(chart)
    ensures chart.title == title && chart.xLabels == years
    ensures chart.xTitle == YearAxis && chart.yTitle == EarningsAxis
    ensures chart.series == ChartSeries(data, years)
  {
    chart := new LineChart(title, years);
    var sectors := Sectors(data);
    for k := 0 to |sectors|
      invariant chart.title == title && chart.xLabels == years
      invariant chart.xTitle == YearAxis && chart.yTitle == EarningsAxis
      invariant chart.series == ChartSeries(data, years)[..k]
    {
      var points := seq(|years|, i requires 0 <= i < |years| => Point(data, sectors[k], years[i]));
      chart.Add(Series(sectors[k], points));
    }
  }

  lemma {:induction false} CellEarningsMembers(data: seq<CleanRecord>, sector: string, year: int)
    ensures forall x :: x in CellEarnings(data, sector, year) ==>
              exists r :: r in data && InCell(r, sector, year) && r.earnings == x
  {
    if data != [] {
      var init := data[..|data| - 1];
      CellEarningsMembers(init, sector, year);
      assert data == init + [data[|data| - 1]];
    }
  }

  /** The positions of the rows of one (sector, year) cell, ascending. */
  function CellIndices(data: seq<CleanRecord>, sector: string, year: int): (ix: seq<nat>)
    ensures forall j :: 0 <= j < |ix| ==> ix[j] < |data| && InCell(data[ix[j]], sector, year)
    ensures forall j, k :: 0 <= j < k < |ix| ==> ix[j] < ix[k]
    ensures forall i :: 0 <= i < |data| && InCell(data[i], sector, year) ==> i in ix
  {
    if data == [] then []
    else
      var n := |data| - 1;
      CellIndices(data[..n], sector, year) + (if InCell(data[n], sector, year) then [n] else [])
  }

  /** Every row of the cell contributes its earnings, once and in row order:
      the k-th value is the earnings of the k-th row of the cell. */
  lemma {:induction false} CellEarningsAt(data: seq<CleanRecord>, sector: string, year: int)
    ensures var xs, ix := CellEarnings(data, sector, year), CellIndices(data, sector, year);
      && |xs| == |ix|
      && forall k :: 0 <= k < |xs| ==> xs[k] == data[ix[k]].earnings
  {
    if data != [] {
      var n := |data| - 1;
      CellEarningsAt(data[..n], sector, year);
    }
  }

  lemma {:induction false} CellEarningsOfOne(data: seq<CleanRecord>, sector: string, year: int, i: nat)
    requires i < |data| && InCell(data[i], sector, year)
    requires forall j :: 0 <= j < |data| && j != i ==> !InCell(data[j], sector, year)
    ensures CellEarnings(data, sector, year) == [data[i].earnings]
  {
    var init := data[..|data| - 1];
    if i < |data| - 1 {
      CellEarningsOfOne(init, sector, year, i);
    }
  }

  /** The chart has one series per distinct sector of the data, labelled in
      first-seen order, and each series has one point per year. */
  lemma ChartShape(data: seq<CleanRecord>, years: seq<int>)
    ensures var ss := ChartSeries(data, years);
            && (forall k :: 0 <= k < |ss| ==> |ss[k].points| == |years|)
            && (forall s :: s in Sectors(data) <==> exists i :: 0 <= i < |data| && data[i].sector == s)
            && (forall k :: 0 <= k < |ss| ==> ss[k].sector == Sectors(data)[k])
            && (forall k, l :: 0 <= k < l < |ss| ==> ss[k].sector != ss[l].sector)
            && (forall k, l :: 0 <= k < l < |ss| ==>
                  FirstIndex(SectorColumn(data), ss[k].sector) < FirstIndex(SectorColumn(data), ss[l].sector))
  {
    var col := SectorColumn(data);
    forall s ensures s in Sectors(data) <==> exists i :: 0 <= i < |data| && data[i].sector == s {
      if s in col {
        var i :| 0 <= i < |col| && col[i] == s;
        assert data[i].sector == s;
      }
    }
  }

  /** A point is missing exactly when the sector has no row for the year or
      its mean earnings are zero; otherwise it is that mean, which lies
      between the smallest and largest earnings of the cell. */
  lemma PointMeaning(data: seq<CleanRecord>, sector: string, year: int)
    ensures Point(data, sector, year).None? <==>
              (forall j :: 0 <= j < |data| ==> !InCell(data[j], sector, year))
              || Mean(CellEarnings(data, sector, year)) == 0.0
    ensures Point(data, sector, year).Some? ==>
              var xs := CellEarnings(data, sector, year);
              && Point(data, sector, year).value == Mean(xs)
              && Min(xs) <= Point(data, sector, year).value <= Max(xs)
  {
    var xs := CellEarnings(data, sector, year);
    if xs != [] {
      MeanBetween(xs);
    }
  }

  /** With one row per (sector, year), as the published table has, the
      point is that row's earnings unless they are zero. */
  lemma PointOfSingleRow(data: seq<CleanRecord>, i: nat)
    requires i < |data|
    requires forall j :: 0 <= j < |data| && j != i ==> !InCell(data[j], data[i].sector, data[i].year)
    ensures Point(data, data[i].sector, data[i].year) ==
              if data[i].earnings == 0.0 then None else Some(data[i].earnings)
  {
    CellEarningsOfOne(data, data[i].sector, data[i].year, i);
    assert Sum([data[i].earnings]) == data[i].earnings by {
      assert [data[i].earnings][..0] == [];
    }
  }

  /** When every earnings figure is positive, gaps in a line mark exactly the
      years the sector has no row for. */
  lemma PositiveEarningsGapOnlyWhenAbsent(data: seq<CleanRecord>, sector: string, year: int)
    requires forall i :: 0 <= i < |data| ==> data[i].earnings > 0.0
    ensures Point(data, sector, year).None? <==> forall j :: 0 <= j < |data| ==> !InCell(data[j], sector, year)
  {
    CellEarningsMembers(data, sector, year);
    var xs := CellEarnings(data, sector, year);
    if xs != [] {
      assert forall k :: 0 <= k < |xs| ==> xs[k] > 0.0 by {
        forall k | 0 <= k < |xs| ensures xs[k] > 0.0 {
          assert xs[k] in xs;
        }
      }
      MeanWithin(xs, Min(xs), Max(xs));
    }
  }
}
