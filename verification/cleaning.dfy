/** Validation and cleaning of the raw earnings table (cleanData in
    Artefact/dataProcessing.py): a dtype gate, a missing-value gate, then the
    annual-change rows are folded into a column by position and dropped. */
module Cleaning {
  import opened Basics

  /** pandas dtype tags, as far as the gate distinguishes them. */
  datatype DType = ObjectType | Int64 | Float64 | OtherType(name: string)

  /** The Statistic Label that marks an annual-change row. */
  const AnnualChangeLabel: string := "Annual Change (Median Annual Earnings)"

  /** The declared dtype of each raw column, in the order the gate checks them. */
  const ExpectedTypes: seq<(string, DType)> := [
    ("Statistic Label", ObjectType),
    ("Year", Int64),
    ("Sex", ObjectType),
    ("NACE Rev 2 Sector", ObjectType),
    ("Age Group", ObjectType),
    ("UNIT", ObjectType),
    ("VALUE", Float64)
  ]

  /** One raw observation; None is a missing (NaN) cell. */
  datatype RawRow = RawRow(
    statistic: Option<string>,
    year: Option<int>,
    sex: Option<string>,
    sector: Option<string>,
    ageGroup: Option<string>,
    unit: Option<string>,
    value: Option<real>)

  /** One cleaned row: Year, Sex, NACE Rev 2 Sector, Median Annual Earnings (€), Annual Change (%). */
  datatype CleanRecord = CleanRecord(year: int, sex: string, sector: string, earnings: real, change: Option<real>)

  /** The two ways the gate aborts (a KeyError for an absent column is the third). */
  datatype CleanError =
    | ColumnNotFound(column: string)
    | WrongType(column: string, expected: DType, actual: DType)
    | MissingValues

  predicate ColumnMatches(dtypes: map<string, DType>, i: nat)
    requires i < |ExpectedTypes|
  {
    ExpectedTypes[i].0 in dtypes && dtypes[ExpectedTypes[i].0] == ExpectedTypes[i].1
  }

  /** The abort raised when the i-th expected column is checked. */
  function ColumnError(dtypes: map<string, DType>, i: nat): (e: Option<CleanError>)
    requires i < |ExpectedTypes|
    ensures e.None? <==> ColumnMatches(dtypes, i)
  {
    var (column, expected) := ExpectedTypes[i];
    if column !in dtypes then Some(ColumnNotFound(column))
    else if dtypes[column] != expected then Some(WrongType(column, expected, dtypes[column]))
    else None
  }

  /** The first failing column check from position i on, if any. */
  function TypeErrorFrom(dtypes: map<string, DType>, i: nat): (e: Option<CleanError>)
    requires i <= |ExpectedTypes|
    ensures e.None? <==> forall j :: i <= j < |ExpectedTypes| ==> ColumnMatches(dtypes, j)
    ensures e.Some? ==> exists j :: i <= j < |ExpectedTypes| && e == ColumnError(dtypes, j) &&
                                    forall k :: i <= k < j ==> ColumnMatches(dtypes, k)
    decreases |ExpectedTypes| - i
  {
    if i == |ExpectedTypes| then None
    else if ColumnError(dtypes, i).Some? then ColumnError(dtypes, i)
    else TypeErrorFrom(dtypes, i + 1)
  }

  function TypeCheck(dtypes: map<string, DType>): Option<CleanError>
  {
    TypeErrorFrom(dtypes, 0)
  }

  /** The loop over expectedTypes: stops at the first column whose dtype is
      not the declared one. */
  method CheckTypes(dtypes: map<string, DType>) returns (err: Option<CleanError>)
    ensures err == TypeCheck(dtypes)
    ensures err.None? <==> forall j :: 0 <= j < |ExpectedTypes| ==> ColumnMatches(dtypes, j)
    ensures err.Some? ==> exists j :: 0 <= j < |ExpectedTypes| && err == ColumnError(dtypes, j) &&
                                      forall k :: 0 <= k < j ==> ColumnMatches(dtypes, k)
  {
    var i := 0;
    while i < |ExpectedTypes|
      invariant 0 <= i <= |ExpectedTypes|
      invariant forall k :: 0 <= k < i ==> ColumnMatches(dtypes, k)
      invariant TypeErrorFrom(dtypes, i) == TypeCheck(dtypes)
    {
      var (column, expected) := ExpectedTypes[i];
      if column !in dtypes {
        return Some(ColumnNotFound(column));
      }
      if dtypes[column] != expected {
        return Some(WrongType(column, expected, dtypes[column]));
      }
      i := i + 1;
    }
    return None;
  }

  predicate IsAnnualChange(r: RawRow)
  {
    r.statistic == Some(AnnualChangeLabel)
  }

  predicate Complete(r: RawRow)
  {
    r.statistic.Some? && r.year.Some? && r.sex.Some? && r.sector.Some? &&
    r.ageGroup.Some? && r.unit.Some? && r.value.Some?
  }

  /** Some row other than an annual-change row has a missing cell. A row
      whose label is missing is not an annual-change row. */
  predicate HasMissingValues(rows: seq<RawRow>)
  {
    exists i :: 0 <= i < |rows| && !IsAnnualChange(rows[i]) && !Complete(rows[i])
  }

  /** The VALUE cells of the annual-change rows, in table order. */
  function ChangeValues(rows: seq<RawRow>): seq<Option<real>>
  {
    if rows == [] then []
    else
      var n := |rows| - 1;
      ChangeValues(rows[..n]) + (if IsAnnualChange(rows[n]) then [rows[n].value] else [])
  }

  /** The inserted "Annual Change (%)" column: a fresh Series indexed
      0, 1, ... aligned with the table's own 0-based index, so row i gets the
      i-th annual-change value and rows past the last one get NaN. */
  function ChangeColumn(rows: seq<RawRow>): seq<Option<real>>
  {
    var values := ChangeValues(rows);
    seq(|rows|, i requires 0 <= i < |rows| => if i < |values| then values[i] else None)
  }

  function ToRecord(r: RawRow, change: Option<real>): CleanRecord
    requires Complete(r)
  {
    CleanRecord(r.year.value, r.sex.value, r.sector.value, r.value.value, change)
  }

  /** Drops the annual-change rows and projects the rest to the five output
      columns, taking each row's change from the inserted column. */
  function DropChangeRows(rows: seq<RawRow>, column: seq<Option<real>>): seq<CleanRecord>
    requires |column| == |rows|
    requires forall i :: 0 <= i < |rows| && !IsAnnualChange(rows[i]) ==> Complete(rows[i])
  {
    if rows == [] then []
    else
      var n := |rows| - 1;
      DropChangeRows(rows[..n], column[..n]) +
        (if IsAnnualChange(rows[n]) then [] else [ToRecord(rows[n], column[n])])
  }

  /** cleanData as a value: the dtype gate, the missing-value gate, then the
      cleaned rows. */
  function Clean(dtypes: map<string, DType>, rows: seq<RawRow>): Result<seq<CleanRecord>, CleanError>
  {
    match TypeCheck(dtypes)
    case Some(e) => Err(e)
    case None =>
      if HasMissingValues(rows) then Err(MissingValues)
      else Ok(DropChangeRows(rows, ChangeColumn(rows)))
  }

  /** The raw table as pandas holds it: dtype tags per column, the rows, and
      the "Annual Change (%)" column once cleanData has inserted it. */
  class RawFrame {
    var dtypes: map<string, DType>
    var rows: seq<RawRow>
    var annualChange: Option<seq<Option<real>>>

    constructor (dtypes: map<string, DType>, rows: seq<RawRow>)
      ensures this.dtypes == dtypes && this.rows == rows && annualChange == None
    {
      this.dtypes := dtypes;
      this.rows := rows;
      annualChange := None;
    }
  }

  /** cleanData: on success the caller's frame also gains the annual-change
      column (the in-place insert); on an abort nothing changes. */
  method CleanData(df: RawFrame) returns (r: Result<seq<CleanRecord>, CleanError>)
    modifies df
    ensures r == Clean(old(df.dtypes), old(df.rows))
    ensures df.dtypes == old(df.dtypes) && df.rows == old(df.rows)
    ensures df.annualChange == if r.Ok? then Some(ChangeColumn(df.rows)) else old(df.annualChange)
  {
    var err := CheckTypes(df.dtypes);
    if err.Some? {
      return Err(err.value);
    }
    if HasMissingValues(df.rows) {
      return Err(MissingValues);
    }
    df.annualChange := Some(ChangeColumn(df.rows));
    r := Ok(DropChangeRows(df.rows, df.annualChange.value));
  }

  // ---------------------------------------------------------------------
  // Properties of the cleaning step

  /** The gate: cleaning succeeds exactly when every declared column has its
      declared dtype and every row that is not an annual-change row is
      complete. Missing cells in annual-change rows are tolerated. */
  lemma CleanGate(dtypes: map<string, DType>, rows: seq<RawRow>)
    ensures Clean(dtypes, rows).Ok? <==>
              (forall j :: 0 <= j < |ExpectedTypes| ==> ColumnMatches(dtypes, j)) &&
              (forall i :: 0 <= i < |rows| && !IsAnnualChange(rows[i]) ==> Complete(rows[i]))
    ensures TypeCheck(dtypes).Some? ==> Clean(dtypes, rows) == Err(TypeCheck(dtypes).value)
    ensures TypeCheck(dtypes).None? && HasMissingValues(rows) ==> Clean(dtypes, rows) == Err(MissingValues)
  {
  }

  /** Positions of the rows that are not annual-change rows, ascending. */
  function PrimaryIndices(rows: seq<RawRow>): (ix: seq<nat>)
    ensures forall j :: 0 <= j < |ix| ==> ix[j] < |rows| && !IsAnnualChange(rows[ix[j]])
    ensures forall j, k :: 0 <= j < k < |ix| ==> ix[j] < ix[k]
    ensures forall i :: 0 <= i < |rows| && !IsAnnualChange(rows[i]) ==> i in ix
  {
    if rows == [] then []
    else
      var n := |rows| - 1;
      PrimaryIndices(rows[..n]) + (if IsAnnualChange(rows[n]) then [] else [n])
  }

  /** The change value that row i receives: the VALUE of the i-th
      annual-change row, or NaN when there are not that many. */
  function ChangeAt(rows: seq<RawRow>, i: nat): Option<real>
  {
    var values := ChangeValues(rows);
    if i < |values| then values[i] else None
  }

  lemma {:induction false} ChangeValuesCount(rows: seq<RawRow>)
    ensures |ChangeValues(rows)| + |PrimaryIndices(rows)| == |rows|
  {
    if rows != [] {
      ChangeValuesCount(rows[..|rows| - 1]);
    }
  }

  lemma {:induction false} DropChangeRowsAt(rows: seq<RawRow>, column: seq<Option<real>>)
    requires |column| == |rows|
    requires forall i :: 0 <= i < |rows| && !IsAnnualChange(rows[i]) ==> Complete(rows[i])
    ensures |DropChangeRows(rows, column)| == |PrimaryIndices(rows)|
    ensures forall j :: 0 <= j < |PrimaryIndices(rows)| ==>
              DropChangeRows(rows, column)[j] == ToRecord(rows[PrimaryIndices(rows)[j]], column[PrimaryIndices(rows)[j]])
  {
    if rows != [] {
      var n := |rows| - 1;
      DropChangeRowsAt(rows[..n], column[..n]);
    }
  }

  /** The cleaned table has one row per non-annual-change input row, in the
      original order, carrying that row's Year, Sex, Sector and VALUE; the
      change it carries is chosen by POSITION: the row at table index i gets
      the VALUE of the i-th annual-change row, whatever its key. */
  lemma CleanedRowsArePositional(dtypes: map<string, DType>, rows: seq<RawRow>)
    requires Clean(dtypes, rows).Ok?
    ensures var out, ix := Clean(dtypes, rows).value, PrimaryIndices(rows);
      && |out| == |ix| == |rows| - |ChangeValues(rows)|
      && (forall j :: 0 <= j < |out| ==>
            && out[j].year == rows[ix[j]].year.value
            && out[j].sex == rows[ix[j]].sex.value
            && out[j].sector == rows[ix[j]].sector.value
            && out[j].earnings == rows[ix[j]].value.value
            && out[j].change == ChangeAt(rows, ix[j]))
  {
    ChangeValuesCount(rows);
    DropChangeRowsAt(rows, ChangeColumn(rows));
  }

  /** The pairing is right when the table lists every primary row first and
      then the annual-change rows in the same (Year, Sex, Sector) order: each
      cleaned row then carries the change recorded for its own key, and the
      table halves in size. */
  lemma PairingCorrectWhenPrimaryRowsLead(dtypes: map<string, DType>, primary: seq<RawRow>, changes: seq<RawRow>)
    requires TypeCheck(dtypes).None?
    requires |primary| == |changes|
    requires forall i :: 0 <= i < |primary| ==> !IsAnnualChange(primary[i]) && Complete(primary[i])
    requires forall i :: 0 <= i < |changes| ==> IsAnnualChange(changes[i])
    requires forall i :: 0 <= i < |primary| ==>
               changes[i].year == primary[i].year && changes[i].sex == primary[i].sex &&
               changes[i].sector == primary[i].sector
    ensures Clean(dtypes, primary + changes).Ok?
    ensures var out := Clean(dtypes, primary + changes).value;
      && |out| == |primary| == |primary + changes| / 2
      && forall i :: 0 <= i < |primary| ==>
           && Some(out[i].year) == changes[i].year
           && Some(out[i].sex) == changes[i].sex
           && Some(out[i].sector) == changes[i].sector
           && Some(out[i].earnings) == primary[i].value
           && out[i].change == changes[i].value
  {
    var rows := primary + changes;
    assert !HasMissingValues(rows);
    PrimaryIndicesOfPrefix(primary, changes);
    ChangeValuesOfSuffix(primary, changes);
    CleanedRowsArePositional(dtypes, rows);
  }

  lemma {:induction false} PrimaryIndicesOfPrefix(primary: seq<RawRow>, changes: seq<RawRow>)
    requires forall i :: 0 <= i < |primary| ==> !IsAnnualChange(primary[i])
    requires forall i :: 0 <= i < |changes| ==> IsAnnualChange(changes[i])
    ensures PrimaryIndices(primary + changes) == seq(|primary|, i requires 0 <= i < |primary| => i as nat)
    decreases |changes|
  {
    if changes == [] {
      PrimaryIndicesOfPrimaries(primary);
      assert primary + changes == primary;
    } else {
      var rows := primary + changes;
      var n := |changes| - 1;
      assert rows[..|rows| - 1] == primary + changes[..n];
      PrimaryIndicesOfPrefix(primary, changes[..n]);
    }
  }

  lemma {:induction false} PrimaryIndicesOfPrimaries(primary: seq<RawRow>)
    requires forall i :: 0 <= i < |primary| ==> !IsAnnualChange(primary[i])
    ensures PrimaryIndices(primary) == seq(|primary|, i requires 0 <= i < |primary| => i as nat)
  {
    if primary != [] {
      PrimaryIndicesOfPrimaries(primary[..|primary| - 1]);
    }
  }

  lemma {:induction false} ChangeValuesOfPrimaries(primary: seq<RawRow>)
    requires forall i :: 0 <= i < |primary| ==> !IsAnnualChange(primary[i])
    ensures ChangeValues(primary) == []
  {
    if primary != [] {
      ChangeValuesOfPrimaries(primary[..|primary| - 1]);
    }
  }

  lemma {:induction false} ChangeValuesOfSuffix(primary: seq<RawRow>, changes: seq<RawRow>)
    requires forall i :: 0 <= i < |primary| ==> !IsAnnualChange(primary[i])
    requires forall i :: 0 <= i < |changes| ==> IsAnnualChange(changes[i])
    ensures ChangeValues(primary + changes) == seq(|changes|, i requires 0 <= i < |changes| => changes[i].value)
    decreases |changes|
  {
    if changes == [] {
      assert primary + changes == primary;
      ChangeValuesOfPrimaries(primary);
    } else {
      var rows := primary + changes;
      var n := |changes| - 1;
      assert rows[..|rows| - 1] == primary + changes[..n];
      ChangeValuesOfSuffix(primary, changes[..n]);
    }
  }

  /** When primary and annual-change rows alternate, the pairing goes wrong:
      with two keys laid out primary, change, primary, change, the second
      cleaned row (table index 2) gets no change value at all, although its
      own annual-change row is present. */
  lemma PairingBreaksWhenRowsInterleave(dtypes: map<string, DType>, p1: RawRow, c1: RawRow, p2: RawRow, c2: RawRow)
    requires TypeCheck(dtypes).None?
    requires !IsAnnualChange(p1) && Complete(p1) && !IsAnnualChange(p2) && Complete(p2)
    requires IsAnnualChange(c1) && IsAnnualChange(c2) && c2.value.Some?
    ensures Clean(dtypes, [p1, c1, p2, c2]).Ok?
    ensures var out := Clean(dtypes, [p1, c1, p2, c2]).value;
      |out| == 2 && out[0].change == c1.value && out[1].change == None && out[1].change != c2.value
  {
    var rows := [p1, c1, p2, c2];
    assert !HasMissingValues(rows);
    InterleavedChangeValues(p1, c1, p2, c2);
    InterleavedPrimaryIndices(p1, c1, p2, c2);
    CleanedRowsArePositional(dtypes, rows);
  }

  lemma InterleavedChangeValues(p1: RawRow, c1: RawRow, p2: RawRow, c2: RawRow)
    requires !IsAnnualChange(p1) && !IsAnnualChange(p2) && IsAnnualChange(c1) && IsAnnualChange(c2)
    ensures ChangeValues([p1, c1, p2, c2]) == [c1.value, c2.value]
  {
    assert [p1, c1, p2, c2][..3] == [p1, c1, p2];
    assert [p1, c1, p2][..2] == [p1, c1];
    assert [p1, c1][..1] == [p1];
    assert ChangeValues([p1]) == [] by { assert [p1][..0] == []; }
    assert ChangeValues([p1, c1]) == [c1.value];
    assert ChangeValues([p1, c1, p2]) == [c1.value];
  }

  lemma InterleavedPrimaryIndices(p1: RawRow, c1: RawRow, p2: RawRow, c2: RawRow)
    requires !IsAnnualChange(p1) && !IsAnnualChange(p2) && IsAnnualChange(c1) && IsAnnualChange(c2)
    ensures PrimaryIndices([p1, c1, p2, c2]) == [0, 2]
  {
    assert [p1, c1, p2, c2][..3] == [p1, c1, p2];
    assert [p1, c1, p2][..2] == [p1, c1];
    assert [p1, c1][..1] == [p1];
    assert PrimaryIndices([p1]) == [0] by { assert [p1][..0] == []; }
    assert PrimaryIndices([p1, c1]) == [0];
    assert PrimaryIndices([p1, c1, p2]) == [0, 2];
  }
}
