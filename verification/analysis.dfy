/** The analysis step (analyseData and saveGraphs in
    Artefact/dataProcessing.py): three summaries of the cleaned table, the
    male and female sub-tables, one chart per sex group over the years of
    the table, and the gender pay-gap table. */
module Analysis {
  import opened Basics
  import opened Ordering
  import opened Cleaning
  import opened Summary
  import opened PayGap
  import opened Charts

  /** Looking up a sex that has no group raises a KeyError. */
  datatype AnalysisError = MissingSex(sex: string)

  /** A rendered chart reduced to what it shows: its title, axis titles, x
      labels and series. */
  datatype Chart = Chart(title: string, xTitle: string, yTitle: string, xLabels: seq<int>, series: seq<Series>)

  datatype Report = Report(
    sectorSummary: seq<SummaryRow>,
    sexSummary: seq<SummaryRow>,
    yearSummary: seq<SummaryRow>,
    male: seq<CleanRecord>,
    female: seq<CleanRecord>,
    genderPayGap: seq<GapRow>,
    bothChart: Chart,
    maleChart: Chart,
    femaleChart: Chart)

  const BothTitle := "Median Annual Earnings by Sector Over Time (Both Sexes)"
  const MaleTitle := "Median Annual Earnings by Sector Over Time (Male Only)"
  const FemaleTitle := "Median Annual Earnings by Sector Over Time (Female Only)"

  /** groups[k]: the rows of the group with key k, if there is one. */
  function Lookup(groups: seq<Group>, k: Key): (r: Option<seq<CleanRecord>>)
    ensures r.None? <==> forall i :: 0 <= i < |groups| ==> groups[i].key != k
  {
    if groups == [] then None
    else if groups[0].key == k then Some(groups[0].rows)
    else Lookup(groups[1..], k)
  }

  predicate HasSex(df: seq<CleanRecord>, sex: string)
  {
    exists i :: 0 <= i < |df| && df[i].sex == sex
  }

  /** The year groups' keys, as the chart's x labels. */
  function YearLabels(groups: seq<Group>): (ys: seq<int>)
    requires forall i :: 0 <= i < |groups| ==> groups[i].key.Number?
    ensures |ys| == |groups|
  {
    seq(|groups|, i requires 0 <= i < |groups| => groups[i].key.n)
  }

  lemma YearKeysAreNumbers(df: seq<CleanRecord>)
    ensures forall i :: 0 <= i < |GroupBy(df, ByYear)| ==> GroupBy(df, ByYear)[i].key.Number?
  {
    var ks := GroupKeys(df, ByYear);
    GroupsForAt(ks, df, ByYear);
    forall i | 0 <= i < |ks| ensures ks[i].Number? {
      assert ks[i] in ks;
    }
  }

  /** list(years.keys()): the years the table covers, as x labels. */
  function TableYears(df: seq<CleanRecord>): (ys: seq<int>)
    ensures |ys| == |GroupBy(df, ByYear)|
    ensures forall i :: 0 <= i < |ys| ==> GroupBy(df, ByYear)[i].key == Number(ys[i])
  {
    YearKeysAreNumbers(df);
    YearLabels(GroupBy(df, ByYear))
  }

  /** The report built from the table and its three sex groups. */
  function Assemble(df: seq<CleanRecord>, male: seq<CleanRecord>, female: seq<CleanRecord>, both: seq<CleanRecord>): Report
  {
    var years := TableYears(df);
    Report(
      SummaryTable(df, BySector), SummaryTable(df, BySex), SummaryTable(df, ByYear),
      male, female, GenderPayGap(male, female),
      Chart(BothTitle, YearAxis, EarningsAxis, years, ChartSeries(both, years)),
      Chart(MaleTitle, YearAxis, EarningsAxis, years, ChartSeries(male, years)),
      Chart(FemaleTitle, YearAxis, EarningsAxis, years, ChartSeries(female, years)))
  }

  /** analyseData as a value. */
  function Analyse(df: seq<CleanRecord>): Result<Report, AnalysisError>
  {
    var sexes := GroupBy(df, BySex);
    var male := Lookup(sexes, Text("Male"));
    var female := Lookup(sexes, Text("Female"));
    var both := Lookup(sexes, Text("Both sexes"));
    if male.None? then Err(MissingSex("Male"))
    else if female.None? then Err(MissingSex("Female"))
    else if both.None? then Err(MissingSex("Both sexes"))
    else Ok(Assemble(df, male.value, female.value, both.value))
  }

  method Snapshot(c: LineChart) returns (chart: Chart)
    ensures chart == Chart(c.title, c.xTitle, c.yTitle, c.xLabels, c.series)
  {
    chart := Chart(c.title, c.xTitle, c.yTitle, c.xLabels, c.series);
  }

  /** analyseData: summaries, the two sex sub-tables, the three charts
      (saveGraphs draws both sexes, then male, then female) and the pay-gap
      table. */
  method AnalyseData(df: seq<CleanRecord>) returns (r: Result<Report, AnalysisError>)
    ensures r == Analyse(df)
  {
    var sectorSummary, sectorGroups := GetSummary(df, BySector);
    var sexSummary, sexes := GetSummary(df, BySex);
    var yearSummary, yearGroups := GetSummary(df, ByYear);
    var male := Lookup(sexes, Text("Male"));
    if male.None? {
      return Err(MissingSex("Male"));
    }
    var female := Lookup(sexes, Text("Female"));
    if female.None? {
      return Err(MissingSex("Female"));
    }
    var both := Lookup(sexes, Text("Both sexes"));
    if both.None? {
      return Err(MissingSex("Both sexes"));
    }
    var years := TableYears(df);
    var bothGraph := CreateGraph(both.value, BothTitle, years);
    var maleGraph := CreateGraph(male.value, MaleTitle, years);
    var femaleGraph := CreateGraph(female.value, FemaleTitle, years);
    var bothChart := Snapshot(bothGraph);
    var maleChart := Snapshot(maleGraph);
    var femaleChart := Snapshot(femaleGraph);
    var genderPayGap := GpgStatistics(male.value, female.value);
    r := Ok(Report(sectorSummary, sexSummary, yearSummary, male.value, female.value,
                   genderPayGap, bothChart, maleChart, femaleChart));
  }

  lemma {:induction false} GroupRowsMembers(rows: seq<CleanRecord>, col: GroupColumn, k: Key)
    ensures forall x :: x in GroupRows(rows, col, k) <==> x in rows && KeyOf(col, x) == k
  {
    if rows != [] {
      var n := |rows| - 1;
      GroupRowsMembers(rows[..n], col, k);
      assert rows == rows[..n] + [rows[n]];
    }
  }

  /** A sex group holds exactly the table's rows of that sex. */
  lemma SexRows(df: seq<CleanRecord>, rows: seq<CleanRecord>, sex: string)
    requires rows == GroupRows(df, BySex, Text(sex))
    ensures forall x :: x in rows <==> x in df && x.sex == sex
  {
    GroupRowsMembers(df, BySex, Text(sex));
  }

  /** Looking a key up among the groups finds exactly the rows with that key,
      and finds nothing when no row has it. */
  lemma LookupGroupBy(df: seq<CleanRecord>, col: GroupColumn, k: Key)
    ensures Lookup(GroupBy(df, col), k) ==
              if exists i :: 0 <= i < |df| && KeyOf(col, df[i]) == k
              then Some(GroupRows(df, col, k)) else None
  {
    var ks := GroupKeys(df, col);
    var gs := GroupBy(df, col);
    GroupsForAt(ks, df, col);
    assert forall i :: 0 <= i < |gs| ==> gs[i].key == ks[i];
    if exists i :: 0 <= i < |df| && KeyOf(col, df[i]) == k {
      var i :| 0 <= i < |df| && KeyOf(col, df[i]) == k;
      assert k in ks;
      var p :| 0 <= p < |ks| && ks[p] == k;
      LookupFinds(gs, p);
    } else {
      forall p | 0 <= p < |gs| ensures gs[p].key != k {
        assert ks[p] in ks;
      }
    }
  }

  lemma {:induction false} LookupFinds(gs: seq<Group>, p: nat)
    requires p < |gs|
    requires forall i, j :: 0 <= i < j < |gs| ==> KeyLess(gs[i].key, gs[j].key)
    ensures Lookup(gs, gs[p].key) == Some(gs[p].rows)
  {
    if p > 0 {
      KeyLessIrreflexive(gs[p].key);
      LookupFinds(gs[1..], p - 1);
    }
  }

  lemma SexLookup(df: seq<CleanRecord>, sex: string)
    ensures Lookup(GroupBy(df, BySex), Text(sex)) ==
              if HasSex(df, sex) then Some(GroupRows(df, BySex, Text(sex))) else None
  {
    LookupGroupBy(df, BySex, Text(sex));
  }

  /** A sex group found by lookup is the sex's rows in table order. */
  lemma SexFound(df: seq<CleanRecord>, sex: string)
    requires Lookup(GroupBy(df, BySex), Text(sex)).Some?
    ensures Lookup(GroupBy(df, BySex), Text(sex)).value == GroupRows(df, BySex, Text(sex))
  {
    SexLookup(df, sex);
  }

  /** The analysis fails exactly when the table lacks one of the three sex
      groups, naming the first missing one in the order Male, Female, Both
      sexes. */
  lemma AnalysisFailsOnMissingSex(df: seq<CleanRecord>)
    ensures Analyse(df).Err? <==> !HasSex(df, "Male") || !HasSex(df, "Female") || !HasSex(df, "Both sexes")
    ensures Analyse(df).Err? ==>
              Analyse(df).error ==
                if !HasSex(df, "Male") then MissingSex("Male")
                else if !HasSex(df, "Female") then MissingSex("Female")
                else MissingSex("Both sexes")
  {
    SexLookup(df, "Male");
    SexLookup(df, "Female");
    SexLookup(df, "Both sexes");
  }

  /** The x labels are the table's distinct years, in ascending order. */
  lemma TableYearsAscending(df: seq<CleanRecord>)
    ensures forall i, j :: 0 <= i < j < |TableYears(df)| ==> TableYears(df)[i] < TableYears(df)[j]
    ensures forall y :: y in TableYears(df) <==> exists i :: 0 <= i < |df| && df[i].year == y
  {
    var ks := GroupKeys(df, ByYear);
    var years := TableYears(df);
    GroupsForAt(ks, df, ByYear);
    assert forall i :: 0 <= i < |years| ==> ks[i] == Number(years[i]);
    forall i, j | 0 <= i < j < |years| ensures years[i] < years[j] {
      assert KeyLess(ks[i], ks[j]);
    }
    forall y ensures y in years <==> exists i :: 0 <= i < |df| && df[i].year == y {
      if exists i :: 0 <= i < |df| && df[i].year == y {
        var i :| 0 <= i < |df| && df[i].year == y;
        assert KeyOf(ByYear, df[i]) in ks;
        var p :| 0 <= p < |ks| && ks[p] == Number(y);
        assert years[p] == y;
      }
      if y in years {
        var p :| 0 <= p < |years| && years[p] == y;
        assert ks[p] in ks;
      }
    }
  }

  /** On success the male and female tables hold exactly the rows of that
      sex, and the pay-gap table is built from them. */
  lemma AnalysisSexTables(df: seq<CleanRecord>)
    requires Analyse(df).Ok?
    ensures var rep := Analyse(df).value;
      && (forall x :: x in rep.male <==> x in df && x.sex == "Male")
      && (forall x :: x in rep.female <==> x in df && x.sex == "Female")
      && rep.genderPayGap == GenderPayGap(rep.male, rep.female)
  {
    SexFound(df, "Male");
    SexFound(df, "Female");
    var rep := Analyse(df).value;
    SexRows(df, rep.male, "Male");
    SexRows(df, rep.female, "Female");
  }

  /** On success each chart plots the rows of its sex group, titled for it,
      with the table's years as x labels. */
  lemma AnalysisCharts(df: seq<CleanRecord>)
    requires Analyse(df).Ok?
    ensures var rep := Analyse(df).value;
      && rep.bothChart == Chart(BothTitle, YearAxis, EarningsAxis, TableYears(df), ChartSeries(GroupRows(df, BySex, Text("Both sexes")), TableYears(df)))
      && rep.maleChart == Chart(MaleTitle, YearAxis, EarningsAxis, TableYears(df), ChartSeries(GroupRows(df, BySex, Text("Male")), TableYears(df)))
      && rep.femaleChart == Chart(FemaleTitle, YearAxis, EarningsAxis, TableYears(df), ChartSeries(GroupRows(df, BySex, Text("Female")), TableYears(df)))
  {
    SexFound(df, "Male");
    SexFound(df, "Female");
    SexFound(df, "Both sexes");
  }
}
