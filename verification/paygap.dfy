/** The gender pay-gap table (gpgStatistics in Artefact/dataProcessing.py):
    male and female rows are inner-joined on (Year, Sector), three columns are
    derived per joined row, the table is sorted by (Sector, Year), and a
    fourth column holds the per-sector first difference of the pay gap. */
module PayGap {
  import opened Basics
  import opened Ordering
  import opened Cleaning

  /** A male row and a female row merged on (Year, Sector). */
  datatype Joined = Joined(male: CleanRecord, female: CleanRecord)

  predicate SameCell(m: CleanRecord, f: CleanRecord)
  {
    m.year == f.year && m.sector == f.sector
  }

  /** The female rows that join with one male row, in their order. */
  function Partners(m: CleanRecord, female: seq<CleanRecord>): seq<Joined>
  {
    if female == [] then []
    else (if SameCell(m, female[0]) then [Joined(m, female[0])] else []) + Partners(m, female[1..])
  }

  /** male.merge(female, on=['Year', 'NACE Rev 2 Sector']): an inner join that
      keeps the male rows' order, each followed by its partners in order. */
  function Merge(male: seq<CleanRecord>, female: seq<CleanRecord>): seq<Joined>
  {
    if male == [] then [] else Partners(male[0], female) + Merge(male[1..], female)
  }

  lemma {:induction false} PartnersMembers(m: CleanRecord, female: seq<CleanRecord>, j: Joined)
    ensures j in Partners(m, female) <==> j.male == m && j.female in female && SameCell(m, j.female)
  {
    if female != [] {
      PartnersMembers(m, female[1..], j);
      assert j.female in female <==> j.female == female[0] || j.female in female[1..];
    }
  }

  /** A merged row pairs a male and a female row of the same (Year, Sector),
      and every such pair is merged: cells present for one sex only give
      nothing. */
  lemma {:induction false} MergeMembers(male: seq<CleanRecord>, female: seq<CleanRecord>, j: Joined)
    ensures j in Merge(male, female) <==> j.male in male && j.female in female && SameCell(j.male, j.female)
  {
    if male != [] {
      MergeMembers(male[1..], female, j);
      PartnersMembers(male[0], female, j);
      assert j.male in male <==> j.male == male[0] || j.male in male[1..];
    }
  }

  /** One row of the pay-gap table: Year, Sector, Difference in Earnings,
      Difference in Annual Change, Gender Pay Gap (%), Change in Gender Pay
      Gap (%). None is NaN: a missing change, a pay gap with zero male
      earnings (undefined), or no earlier year in the sector. */
  datatype GapRow = GapRow(
    year: int,
    sector: string,
    earningsDifference: real,
    changeDifference: Option<real>,
    payGap: Option<real>,
    payGapChange: Option<real>)

  /** The difference of two annual changes, rounded to one place. */
  function ChangeDifference(m: Option<real>, f: Option<real>): Option<real>
  {
    if m.Some? && f.Some? then Some(Round(m.value - f.value, 1)) else None
  }

  /** The earnings difference as a percentage of male earnings, rounded to
      two places; undefined when male earnings are zero. */
  function PayGapPercent(difference: real, maleEarnings: real): Option<real>
  {
    if maleEarnings == 0.0 then None else Some(Round(difference / maleEarnings * 100.0, 2))
  }

  function Derive(j: Joined): (r: GapRow)
    ensures RowOfPair(r, j.male, j.female) && r.payGapChange.None?
  {
    var difference := j.male.earnings - j.female.earnings;
    GapRow(j.male.year, j.male.sector, difference,
           ChangeDifference(j.male.change, j.female.change),
           PayGapPercent(difference, j.male.earnings), None)
  }

  function DeriveAll(js: seq<Joined>): (rows: seq<GapRow>)
    ensures |rows| == |js|
  {
    seq(|js|, i requires 0 <= i < |js| => Derive(js[i]))
  }

  /** Sort order of sort_values(by=['NACE Rev 2 Sector', 'Year']). */
  predicate CellLeq(a: GapRow, b: GapRow)
  {
    StrLess(a.sector, b.sector) || (a.sector == b.sector && a.year <= b.year)
  }

  lemma CellLeqTotal(a: GapRow, b: GapRow)
    ensures CellLeq(a, b) || CellLeq(b, a)
  {
    StrLessTotal(a.sector, b.sector);
  }

  lemma CellLeqTransitive(a: GapRow, b: GapRow, c: GapRow)
    requires CellLeq(a, b) && CellLeq(b, c)
    ensures CellLeq(a, c)
  {
    if StrLess(a.sector, b.sector) && StrLess(b.sector, c.sector) {
      StrLessTransitive(a.sector, b.sector, c.sector);
    }
  }

  predicate SortedByCell(rows: seq<GapRow>)
  {
    forall i, j :: 0 <= i < j < |rows| ==> CellLeq(rows[i], rows[j])
  }

  /** Puts r before the first row it does not follow, so that earlier rows
      stay ahead of later ones with the same (Sector, Year). */
  function InsertRow(r: GapRow, rows: seq<GapRow>): (out: seq<GapRow>)
    requires SortedByCell(rows)
    ensures SortedByCell(out)
    ensures multiset(out) == multiset(rows) + multiset{r}
  {
    if rows == [] then [r]
    else if CellLeq(r, rows[0]) then
      assert forall j :: 0 <= j < |rows| ==> CellLeq(r, rows[j]) by {
        forall j | 0 <= j < |rows| ensures CellLeq(r, rows[j]) {
          if j > 0 {
            CellLeqTransitive(r, rows[0], rows[j]);
          }
        }
      }
      [r] + rows
    else
      var t := InsertRow(r, rows[1..]);
      InsertRowStep(r, rows, t);
      [rows[0]] + t
  }

  /** Putting the first row back in front of the rest with r inserted. */
  lemma InsertRowStep(r: GapRow, rows: seq<GapRow>, t: seq<GapRow>)
    requires |rows| > 0 && SortedByCell(rows) && !CellLeq(r, rows[0])
    requires SortedByCell(t) && multiset(t) == multiset(rows[1..]) + multiset{r}
    ensures SortedByCell([rows[0]] + t)
    ensures multiset([rows[0]] + t) == multiset(rows) + multiset{r}
  {
    assert rows == [rows[0]] + rows[1..];
    CellLeqTotal(r, rows[0]);
    forall j | 0 <= j < |t| ensures CellLeq(rows[0], t[j]) {
      assert t[j] in multiset(rows[1..]) + multiset{r};
    }
    var out := [rows[0]] + t;
    forall i, j | 0 <= i < j < |out| ensures CellLeq(out[i], out[j]) {
      assert out[j] == t[j - 1];
    }
  }

  function SortRows(rows: seq<GapRow>): (out: seq<GapRow>)
    ensures SortedByCell(out)
    ensures multiset(out) == multiset(rows)
  {
    if rows == [] then []
    else
      assert rows == [rows[0]] + rows[1..];
      InsertRow(rows[0], SortRows(rows[1..]))
  }

  /** The position of the nearest earlier row of the same sector: the row
      groupby(sector).diff() subtracts. */
  function PreviousInSector(rows: seq<GapRow>, sector: string, i: nat): (p: Option<nat>)
    requires i <= |rows|
    ensures p.Some? ==> p.value < i && rows[p.value].sector == sector
    ensures p.Some? ==> forall j :: p.value < j < i ==> rows[j].sector != sector
    ensures p.None? ==> forall j :: 0 <= j < i ==> rows[j].sector != sector
  {
    if i == 0 then None
    else if rows[i - 1].sector == sector then Some(i - 1)
    else PreviousInSector(rows, sector, i - 1)
  }

  /** diff() of two pay gaps, then round(2); NaN if either is NaN. */
  function GapDifference(current: Option<real>, previous: Option<real>): Option<real>
  {
    if current.Some? && previous.Some? then Some(Round(current.value - previous.value, 2)) else None
  }

  function GapChangeAt(rows: seq<GapRow>, i: nat): Option<real>
    requires i < |rows|
  {
    match PreviousInSector(rows, rows[i].sector, i)
    case None => None
    case Some(j) => GapDifference(rows[i].payGap, rows[j].payGap)
  }

  /** Adds the Change in Gender Pay Gap column. */
  function WithGapChanges(rows: seq<GapRow>): (out: seq<GapRow>)
    ensures |out| == |rows|
  {
    seq(|rows|, i requires 0 <= i < |rows| => rows[i].(payGapChange := GapChangeAt(rows, i)))
  }

  /** gpgStatistics as a value. */
  function GenderPayGap(male: seq<CleanRecord>, female: seq<CleanRecord>): seq<GapRow>
  {
    WithGapChanges(SortRows(DeriveAll(Merge(male, female))))
  }

  /** A table row with its last column cleared. */
  function Base(r: GapRow): GapRow
  {
    r.(payGapChange := None)
  }

  /** What one table row says about the male row m and the female row f it
      was merged from. */
  predicate RowOfPair(r: GapRow, m: CleanRecord, f: CleanRecord)
  {
    && r.year == m.year && r.sector == m.sector
    && r.earningsDifference == m.earnings - f.earnings
    && r.changeDifference == ChangeDifference(m.change, f.change)
    && (r.payGap.None? <==> m.earnings == 0.0)
    && (m.earnings != 0.0 ==> r.payGap == Some(Round(r.earningsDifference / m.earnings * 100.0, 2)))
  }

  lemma DerivedRowOfPair(m: CleanRecord, f: CleanRecord, r: GapRow)
    requires Base(r) == Derive(Joined(m, f))
    ensures RowOfPair(r, m, f)
  {
  }

  /** Every row of the sorted frame is the derivation of a merged pair. */
  lemma SortedRowSource(js: seq<Joined>, k: nat) returns (j: Joined)
    requires k < |SortRows(DeriveAll(js))|
    ensures j in js && SortRows(DeriveAll(js))[k] == Derive(j)
  {
    var d := DeriveAll(js);
    var rows := SortRows(d);
    assert rows[k] in multiset(d);
    var p :| 0 <= p < |d| && d[p] == rows[k];
    j := js[p];
  }

  /** Every row of the table comes from a male row and a female row of the
      same (Year, Sector), and carries their difference, their change
      difference and the pay gap computed from them. */
  lemma TableRowsComeFromPairs(male: seq<CleanRecord>, female: seq<CleanRecord>, i: nat)
    requires i < |GenderPayGap(male, female)|
    ensures exists m, f :: m in male && f in female && SameCell(m, f)
                           && RowOfPair(GenderPayGap(male, female)[i], m, f)
  {
    var rows := SortRows(DeriveAll(Merge(male, female)));
    var j := SortedRowSource(Merge(male, female), i);
    MergeMembers(male, female, j);
    DerivedRowOfPair(j.male, j.female, GenderPayGap(male, female)[i]);
  }

  /** Every male row and female row of the same (Year, Sector) give a row of
      the table. */
  lemma PairsReachTable(male: seq<CleanRecord>, female: seq<CleanRecord>, m: CleanRecord, f: CleanRecord)
    requires m in male && f in female && SameCell(m, f)
    ensures exists i :: 0 <= i < |GenderPayGap(male, female)| && RowOfPair(GenderPayGap(male, female)[i], m, f)
  {
    var js := Merge(male, female);
    var d := DeriveAll(js);
    var rows := SortRows(d);
    MergeMembers(male, female, Joined(m, f));
    var p :| 0 <= p < |js| && js[p] == Joined(m, f);
    assert d[p] in multiset(rows);
    var i :| 0 <= i < |rows| && rows[i] == d[p];
    DerivedRowOfPair(m, f, GenderPayGap(male, female)[i]);
  }

  /** With positive male earnings and female earnings between zero and them,
      the pay gap is a percentage between 0 and 100. */
  lemma PayGapWithinPercent(male: real, female: real)
    requires 0.0 <= female <= male && male > 0.0
    ensures PayGapPercent(male - female, male).Some?
    ensures 0.0 <= PayGapPercent(male - female, male).value <= 100.0
  {
    var x := (male - female) / male * 100.0;
    assert (male - female) / male <= 1.0;
    assert 0.0 <= x <= 100.0;
    RoundMonotone(0.0, x, 2);
    RoundMonotone(x, 100.0, 2);
    RoundWhole(0, 2);
    RoundWhole(100, 2);
  }

  /** Women earning more than men gives a gap of at most zero. */
  lemma PayGapNegativeWhenWomenEarnMore(male: real, female: real)
    requires 0.0 < male < female
    ensures PayGapPercent(male - female, male).Some?
    ensures PayGapPercent(male - female, male).value <= 0.0
  {
    var x := (male - female) / male * 100.0;
    assert (male - female) / male < 0.0;
    RoundMonotone(x, 0.0, 2);
    RoundWhole(0, 2);
  }

  lemma SortedGapChange(rows: seq<GapRow>, i: nat)
    requires SortedByCell(rows) && i < |rows|
    ensures GapChangeAt(rows, i) ==
              if i > 0 && rows[i - 1].sector == rows[i].sector
              then GapDifference(rows[i].payGap, rows[i - 1].payGap)
              else None
  {
    if i > 0 && rows[i - 1].sector != rows[i].sector {
      var p := PreviousInSector(rows, rows[i].sector, i);
      if p.Some? {
        var j := p.value;
        assert CellLeq(rows[j], rows[i - 1]) && CellLeq(rows[i - 1], rows[i]);
        assert StrLess(rows[i].sector, rows[i - 1].sector) && StrLess(rows[i - 1].sector, rows[i].sector);
        StrLessAsymmetric(rows[i].sector, rows[i - 1].sector);
      }
    }
  }

  /** The pay-gap table has one row per merged pair, is sorted by (Sector,
      Year), and each row's change is the difference from the row before it
      when that row has the same sector, and NaN for a sector's first row. */
  lemma GenderPayGapShape(male: seq<CleanRecord>, female: seq<CleanRecord>)
    ensures var table := GenderPayGap(male, female);
      && |table| == |Merge(male, female)|
      && SortedByCell(table)
      && forall i :: 0 <= i < |table| ==>
           table[i].payGapChange ==
             if i > 0 && table[i - 1].sector == table[i].sector
             then GapDifference(table[i].payGap, table[i - 1].payGap)
             else None
  {
    var d := DeriveAll(Merge(male, female));
    var rows := SortRows(d);
    var table := GenderPayGap(male, female);
    assert |rows| == |d| by { assert |multiset(rows)| == |multiset(d)|; }
    assert forall i :: 0 <= i < |rows| ==> Base(table[i]) == Base(rows[i]);
    forall i, j | 0 <= i < j < |table| ensures CellLeq(table[i], table[j]) {
      assert CellLeq(rows[i], rows[j]);
    }
    forall i | 0 <= i < |table|
      ensures table[i].payGapChange ==
                if i > 0 && table[i - 1].sector == table[i].sector
                then GapDifference(table[i].payGap, table[i - 1].payGap)
                else None
    {
      SortedGapChange(rows, i);
    }
  }

  /** gpgStatistics: the merged frame gains its derived columns one by one,
      is sorted by (Sector, Year), then gains the per-sector change. */
  method GpgStatistics(male: seq<CleanRecord>, female: seq<CleanRecord>) returns (table: seq<GapRow>)
    ensures table == GenderPayGap(male, female)
    ensures |table| == |Merge(male, female)|
    ensures SortedByCell(table)
    ensures forall i :: 0 <= i < |table| ==>
              table[i].payGapChange ==
                if i > 0 && table[i - 1].sector == table[i].sector
                then GapDifference(table[i].payGap, table[i - 1].payGap)
                else None
  {
    var merged := Merge(male, female);
    var n := |merged|;
    var difference := seq(n, i requires 0 <= i < n => merged[i].male.earnings - merged[i].female.earnings);
    var changeDifference := seq(n, i requires 0 <= i < n => ChangeDifference(merged[i].male.change, merged[i].female.change));
    var payGap := seq(n, i requires 0 <= i < n => PayGapPercent(difference[i], merged[i].male.earnings));
    var rows := seq(n, i requires 0 <= i < n =>
      GapRow(merged[i].male.year, merged[i].male.sector, difference[i], changeDifference[i], payGap[i], None));
    assert rows == DeriveAll(merged);
    rows := SortRows(rows);
    table := WithGapChanges(rows);
    GenderPayGapShape(male, female);
  }
}
