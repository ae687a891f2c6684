# Gender pay gap analysis: a verified model

This project models two parts of a gender-pay-gap analysis application.

The first part is the batch pipeline in `Artefact/dataProcessing.py`. It works on a national earnings-by-sector table. It validates and cleans the table, summarises it by sector, by sex and by year, builds a gender pay-gap table from the male and female rows, and draws one earnings line chart per sex group.

The second part is the survey logic in `app.py`. It covers:
- how the "is the government doing enough" answer is read from the submitted form;
- the summary page: yes/no percentages, the most common sector, the mean pay-gap estimate;
- the recommendations page: a consensus verdict, an estimation band against the published 17.27% gap, and the most frequently given factors.

Modules, one per file:

- `Basics` (basics.dfy): `Option`/`Result`, `Round` (rounding to n places, to the nearest multiple, monotone) and `RoundOption` (rounding a value that may be NaN).
- `Ordering` (ordering.dfy): Python's string order, as a strict total order.
- `Seqs` (seqs.dfy): occurrence counts, and the distinct values in first-seen order (`unique()`, `Counter`).
- `Stats` (stats.dfy): sum, mean, min, max and median of a non-empty sequence, with bounds.
- `Cleaning` (cleaning.dfy): `cleanData`. The raw frame is a class, because the function inserts the annual-change column into the caller's frame.
- `Summary` (summary.dfy): `getSummary`. `groupby` partitions the table into groups with ascending keys, and each group gets four rounded statistics.
- `PayGap` (paygap.dfy): `gpgStatistics`. An inner join on (Year, Sector), the derived columns, a sort by (Sector, Year), and the per-sector difference of the gap.
- `Charts` (charts.dfy): the series loop of `createGraph`, on a `LineChart` class whose `Add` appends one series.
- `Analysis` (analysis.dfy): `analyseData` together with the three `saveGraphs` charts.
- `GovField` (gov.dfy): `bool(int(form.get('gov', 0)))`.
- `Survey` (survey.dfy): the `summary` and `recommendations` pages.

Imperative steps are methods proved against the function that defines their result:
- the dtype loop (`Cleaning.CheckTypes`);
- the in-place column insert (`Cleaning.CleanData`);
- the loop over groups (`Summary.GetSummary`);
- the column-by-column build of the pay-gap frame (`PayGap.GpgStatistics`);
- the loop that adds a series per sector (`Charts.CreateGraph`);
- the analysis driver (`Analysis.AnalyseData`).

Modelling choices:
- A NaN cell is `None`. So is a statistic over an empty column, and so is a percentage with zero male earnings. pandas would give NaN or ±inf for the last one.
- A survey estimate submitted as "nan" is `None`: SQLite stores it as NULL and pandas reads it back as NaN. The mean estimate skips such values, as pandas' `mean()` does, and is `None` when every estimate is NaN.
- Every abort (a `sys.exit`, a `KeyError`, a `ValueError`) becomes the `Err` case of a `Result`.

Two facts about the code shape the model:
- `DataFrame.groupby` sorts its keys, so groups come in ascending key order. This order also fixes the chart's year labels.
- `cleanData` attaches the annual-change value by index position, not by (Year, Sex, Sector). `Cleaning.CleanedRowsArePositional` states this exactly. `Cleaning.PairingCorrectWhenPrimaryRowsLead` shows the layout where the pairing is right. `Cleaning.PairingBreaksWhenRowsInterleave` shows a layout where it goes wrong.

## Model

| member | source | states |
|---|---|---|
| Cleaning.ColumnError | Artefact/dataProcessing.py:32-35 | checking one declared column fails exactly when the column is absent or its dtype differs from the declared one |
| Cleaning.TypeErrorFrom | Artefact/dataProcessing.py:32-35 | the gate reports nothing exactly when every remaining column matches; otherwise it reports the first failing column, with all earlier ones matching |
| Cleaning.CheckTypes | Artefact/dataProcessing.py:19-35 | the loop over the seven expected dtypes returns the first mismatch in declaration order, or nothing when all seven columns match |
| Cleaning.Clean | Artefact/dataProcessing.py:30-58 | defines cleaning: the dtype gate, the missing-value gate, the positional change column and the drop of the change rows; `CleanGate` states when it succeeds and `CleanedRowsArePositional` what it returns |
| Cleaning.CleanData | Artefact/dataProcessing.py:30-58 | result equals `Clean` of the frame; on success the frame gains the positional annual-change column and keeps its dtypes and rows; on an abort the frame is unchanged |
| Cleaning.CleanGate | Artefact/dataProcessing.py:30-41 | cleaning succeeds iff every column has its declared dtype and every non-annual-change row is complete; a dtype error wins over a missing-value error |
| Cleaning.CleanedRowsArePositional | Artefact/dataProcessing.py:43-55 | the output has one record per non-annual-change row, in order, with that row's Year, Sex, Sector and VALUE; the record at table index i gets the i-th annual-change VALUE, or NaN if there are not that many |
| Cleaning.PairingCorrectWhenPrimaryRowsLead | Artefact/dataProcessing.py:43-46 | when all primary rows come first and the change rows follow in the same key order, each record carries its own key's change and the table halves |
| Cleaning.PairingBreaksWhenRowsInterleave | Artefact/dataProcessing.py:43-46 | with primary and change rows alternating, the second record gets NaN although its own change row is present |
| Seqs.Distinct | Artefact/dataProcessing.py:110 | the distinct values are exactly the input's values, with no repeats, in order of first appearance |
| Summary.GroupKeys | Artefact/dataProcessing.py:65 | the group keys strictly ascend, and they are exactly the keys that occur in the table |
| Summary.GroupRows | Artefact/dataProcessing.py:65 | every row of a group has the group's key |
| Summary.GroupIsNonEmpty | Artefact/dataProcessing.py:65 | no group is empty |
| Summary.GroupByPartitions | Artefact/dataProcessing.py:65 | the groups partition the table: ascending distinct keys, each group non-empty and holding only its key's rows, every row in some group, and together the groups hold the table's rows as a multiset |
| Summary.GroupBy | Artefact/dataProcessing.py:65 | defines `groupby`: one group per key of `GroupKeys`, holding that key's rows in table order; `GroupByPartitions` states that the groups partition the table |
| Summary.DescribeOrdered | Artefact/dataProcessing.py:72-75 | min <= median <= max and min <= mean <= max, before and after rounding to two places; all four statistics are absent exactly when the column is empty |
| Summary.Summarise | Artefact/dataProcessing.py:71-88 | defines one summary row: the group key and the rounded mean, median, max and min of the group's earnings (`Earnings`) and of its non-NaN changes (`Changes`, pinned by `ChangeIndices` and `ChangesAt`); `SummariseOrdered` and `SummaryFromRows` state its properties |
| Summary.SummaryTable | Artefact/dataProcessing.py:71-93 | one summary row per group, as many rows as groups; `SummaryTableOrdered` states that row i is group i's, with ordered statistics |
| Summary.SummariseOrdered | Artefact/dataProcessing.py:71-88 | a group's summary row keeps the group key, its earnings statistics are present and ordered, its change statistics are ordered or all absent, and they are absent exactly when every change of the group is NaN |
| Summary.SummaryFromRows | Artefact/dataProcessing.py:71-88 | the summary's earnings minimum and maximum are the rounded earnings of rows of the group and bound every row's rounded earnings; the same for the changes that are not NaN |
| Summary.Earnings | Artefact/dataProcessing.py:72-75 | the earnings column of a group: the i-th value is the i-th row's earnings |
| Summary.Changes | Artefact/dataProcessing.py:72-75 | the change values the statistics are taken over: none exactly when every change of the group is NaN |
| Summary.ChangeIndices | Artefact/dataProcessing.py:72-75 | the positions of the rows whose change is not NaN: ascending, and every such row among them |
| Summary.ChangesAt | Artefact/dataProcessing.py:72-75 | every change that is not NaN is summarised once, in row order: the k-th value is the change of the k-th such row |
| Summary.SummaryTableOrdered | Artefact/dataProcessing.py:71-93 | row i of the summary table is for group i and has ordered statistics |
| Summary.GetSummary | Artefact/dataProcessing.py:62-96 | returns the groups of `groupby` and one summary row per group, in the same ascending key order, each row with ordered statistics |
| Stats.Median | Artefact/dataProcessing.py:73 | the median of a non-empty column lies between its minimum and maximum |
| Stats.MeanBetween | Artefact/dataProcessing.py:72 | the mean of a non-empty column lies between its minimum and maximum |
| Charts.CellEarnings | Artefact/dataProcessing.py:111-114 | a (sector, year) cell has no earnings exactly when no row has that sector and year |
| Charts.CellEarningsMembers | Artefact/dataProcessing.py:111-113 | each earnings value of a cell comes from a row of that sector and year |
| Charts.CellIndices | Artefact/dataProcessing.py:111-113 | the positions of the rows of a (sector, year) cell: ascending, each in the cell, and every row of the cell among them |
| Charts.CellEarningsAt | Artefact/dataProcessing.py:111-113 | every row of a cell contributes its earnings once, in row order: the k-th value is the earnings of the k-th row of the cell |
| Charts.Point | Artefact/dataProcessing.py:112-120 | defines a chart point: the mean of the cell's earnings, or a gap when the cell is empty or the mean is 0; `PointMeaning` states this |
| Charts.ChartSeries | Artefact/dataProcessing.py:110-120 | the chart has one series per distinct sector |
| Charts.LineChart.constructor | Artefact/dataProcessing.py:101-107 | a new chart has the given title and x labels, the axis titles "Year" and "Median Annual Earnings (€)", and no series |
| Charts.LineChart.Add | Artefact/dataProcessing.py:120 | adding a series appends it and leaves the titles and labels as they were |
| Charts.CreateGraph | Artefact/dataProcessing.py:98-120 | the finished chart is fresh, carries the title, axis titles and year labels, and its series are exactly `ChartSeries` of the data |
| Charts.ChartShape | Artefact/dataProcessing.py:110-117 | one series per distinct sector, labelled in first-seen order with no repeats; a sector is charted iff some row has it; each series has one point per year |
| Charts.PointMeaning | Artefact/dataProcessing.py:112-120 | a point is a gap iff the sector has no row for the year or the cell's mean is 0; otherwise it is that mean, between the cell's min and max |
| Charts.PointOfSingleRow | Artefact/dataProcessing.py:112-120 | with one row per (sector, year), the point is that row's earnings, or a gap when they are 0 |
| Charts.PositiveEarningsGapOnlyWhenAbsent | Artefact/dataProcessing.py:114-120 | with positive earnings, a point is a gap exactly when the sector has no row for that year |
| PayGap.PartnersMembers | Artefact/dataProcessing.py:147 | the rows joined to one male row are exactly the female rows of the same (Year, Sector) |
| PayGap.MergeMembers | Artefact/dataProcessing.py:147 | a joined row exists iff its male and female rows share (Year, Sector): the merge is an inner join |
| PayGap.Merge | Artefact/dataProcessing.py:147 | defines the inner merge on (Year, Sector), male rows in order, each with its partners in female order; `MergeMembers` states that it is exactly the inner join |
| PayGap.Derive | Artefact/dataProcessing.py:150-156 | a merged pair gives a row with its year and sector, the earnings difference, the change difference to one place and the pay gap to two places, undefined exactly when male earnings are 0 |
| PayGap.CellLeqTotal | Artefact/dataProcessing.py:159 | any two rows are comparable by (Sector, Year) |
| PayGap.CellLeqTransitive | Artefact/dataProcessing.py:159 | the (Sector, Year) order is transitive |
| PayGap.SortRows | Artefact/dataProcessing.py:159 | the sorted frame is ordered by (Sector, Year) and is a permutation of its input |
| PayGap.PreviousInSector | Artefact/dataProcessing.py:162 | the row diff() subtracts is the nearest earlier row of the same sector, and there is none when no earlier row has that sector |
| PayGap.SortedGapChange | Artefact/dataProcessing.py:159-162 | once sorted, a row's change in pay gap is the rounded difference from the row just before it when that row has the same sector, and NaN otherwise |
| PayGap.GapChangeAt | Artefact/dataProcessing.py:162 | defines a row's change in pay gap: the rounded difference from the nearest earlier row of its sector, NaN when there is none or either gap is NaN; `SortedGapChange` states it for a sorted table |
| PayGap.WithGapChanges | Artefact/dataProcessing.py:162 | adds the change column and keeps the number of rows; `GenderPayGapShape` states the column's values |
| PayGap.GenderPayGap | Artefact/dataProcessing.py:144-166 | defines the pay-gap table: merge, derive, sort, then the change column; `GenderPayGapShape`, `TableRowsComeFromPairs` and `PairsReachTable` state its properties |
| PayGap.TableRowsComeFromPairs | Artefact/dataProcessing.py:147-159 | every table row comes from a male and a female row of the same (Year, Sector), and carries their difference, their change difference (to one place) and the pay gap (difference / male × 100, to two places; undefined exactly when male earnings are 0) |
| PayGap.PairsReachTable | Artefact/dataProcessing.py:147-159 | every male row and female row of the same (Year, Sector) give a table row |
| PayGap.PayGapWithinPercent | Artefact/dataProcessing.py:156 | with 0 <= female <= male and male > 0, the pay gap is defined and lies in [0, 100] |
| PayGap.PayGapNegativeWhenWomenEarnMore | Artefact/dataProcessing.py:156 | when women earn more, the pay gap is defined and at most 0 |
| PayGap.GenderPayGapShape | Artefact/dataProcessing.py:147-162 | the pay-gap table has one row per merged pair, is sorted by (Sector, Year), and a row's change is the rounded difference from the previous row when it has the same sector, NaN for a sector's first row |
| PayGap.GpgStatistics | Artefact/dataProcessing.py:144-166 | the table equals `GenderPayGap`, has one row per joined pair, is sorted by (Sector, Year), and each row's change is the difference from the previous row of the same sector, NaN for a sector's first row |
| Analysis.Lookup | Artefact/dataProcessing.py:175-178 | looking a key up fails exactly when no group has that key |
| Analysis.TableYears | Artefact/dataProcessing.py:173-178 | the x labels are the year groups' keys, one per group, in group order |
| Analysis.LookupGroupBy | Artefact/dataProcessing.py:172-176 | looking a key up among the groups yields exactly the rows with that key, or fails when no row has it |
| Analysis.SexLookup | Artefact/dataProcessing.py:175-176 | a sex group is found iff some row has that sex, and it is that sex's rows in table order |
| Analysis.SexFound | Artefact/dataProcessing.py:175-176 | a sex group that is found is that sex's rows in table order |
| Analysis.SexRows | Artefact/dataProcessing.py:172-176 | a sex group holds exactly the table's rows of that sex |
| Analysis.AnalysisFailsOnMissingSex | Artefact/dataProcessing.py:175-178 | the analysis fails iff the table lacks Male, Female or Both sexes rows, and it names the first missing one in the order Male, Female, Both sexes |
| Analysis.TableYearsAscending | Artefact/dataProcessing.py:173-178 | the charts' x labels strictly ascend, and they are exactly the table's years |
| Analysis.AnalysisSexTables | Artefact/dataProcessing.py:175-180 | on success, the male and female tables hold exactly the rows of that sex, and the pay-gap table is built from them |
| Analysis.AnalysisCharts | Artefact/dataProcessing.py:126-131 | on success, each of the three charts carries its sex group's title, the axis titles "Year" and "Median Annual Earnings (€)" and the table's years, and plots the series of that group's rows |
| Analysis.AnalyseData | Artefact/dataProcessing.py:169-182 | the driver, with its three summaries, lookups, charts and pay-gap table, returns exactly `Analyse`, including its early failures |
| Analysis.Analyse | Artefact/dataProcessing.py:169-182 | defines the analysis as a value: the Male, Female and Both sexes lookups in that order, then the report; `AnalysisFailsOnMissingSex`, `AnalysisSexTables` and `AnalysisCharts` state its properties |
| GovField.ParseGov | app.py:255 | an absent field is false; a present field is an error exactly when int() rejects its text |
| GovField.ParseInt | app.py:255 | defines `int()` on a string: strip whitespace (space and 9-13), an optional sign, digit groups joined by single underscores; `ParseIntOfString` and `GovTrueIffNonzeroDigit` state what it accepts and returns |
| GovField.ParseIntOfString | app.py:255 | reading back the decimal text of any integer gives that integer |
| GovField.GovOfIntegerText | app.py:255 | a submitted integer's text is recorded as true exactly when the integer is not 0 |
| GovField.GovTrueIffNonzeroDigit | app.py:255 | for text int() accepts, the answer is true iff the text has a nonzero digit, whatever its sign, padding or underscores |
| GovField.GovAcceptsIntegers | app.py:255 | "1" is recorded as true; " -0 " is accepted and recorded as false |
| GovField.GovRejectsNonIntegers | app.py:255 | "", "on", "1_" and a digit after character 28 (a separator int() does not strip) are rejected |
| Survey.YesNoPartition | app.py:285-287 | every response counts once, as a yes or as a no |
| Survey.Percentage | app.py:288-289 | a count out of a positive total is within half a hundredth of its exact percentage, and 0 when the total is 0 |
| Survey.PercentageBounds | app.py:288-289 | a count out of a total is a rounded percentage in [0, 100] |
| Survey.PercentageAboveHalf | app.py:288 | a rounded percentage exceeds 50 iff 20000 × count >= 10001 × total |
| Survey.ConsensusOf | app.py:321-326 | defines the verdict from the two percentages, yes first; `ConsensusFromCounts` states it in terms of the counts |
| Survey.ConsensusFromCounts | app.py:314-326 | "doing enough" iff at least 50.005% say yes; "not doing enough" iff at least 50.005% say no; either verdict needs a strict majority; up to 10000 responses a strict majority suffices |
| Survey.EstimationOf | app.py:328-357 | the seven ordered tests pick out seven disjoint intervals of the difference that together cover every value |
| Survey.EstimationMonotone | app.py:333-357 | a larger difference never gets a lower band |
| Survey.EstimationSymmetric | app.py:333-357 | over- and under-estimates by the same amount get mirrored bands |
| Survey.Band | app.py:328-357 | the band as seven intervals of the difference, with a NaN difference (which fails every test) in the "within an acceptable range" band together with differences in [-2.5, 2.5] |
| Survey.Frequent | app.py:362 | the listed factors are exactly the candidates given at least three times |
| Survey.TopFactorsProperties | app.py:359-363 | at most three factors, no repeats, each given at least three times, in first-seen order; a factor given three or more times is missing only when three earlier ones are listed |
| Survey.TopFactors | app.py:359-363 | at most three factors; `TopFactorsProperties` states which ones and in what order |
| Survey.Mode | app.py:281 | the sector shown is a given sector with the highest count, and the smallest one on a tie |
| Survey.PayGaps | app.py:282 | the estimates pandas' `mean()` averages: none exactly when every estimate is NaN |
| Survey.EstimateIndices | app.py:282 | the positions of the responses whose estimate is not NaN: ascending, and every such response among them |
| Survey.PayGapsAt | app.py:282 | every estimate that is not NaN is averaged once, in response order |
| Survey.MeanEstimate | app.py:282 | the mean estimate is NaN exactly when every estimate is NaN, and otherwise lies between the smallest and largest estimates |
| Survey.RoundedMeanEstimate | app.py:282 | the rounded mean estimate is NaN exactly when every estimate is, and otherwise lies between the rounded smallest and largest estimates |
| Survey.SummaryOf | app.py:264-298 | defines the summary page: the empty page for no responses, otherwise the percentages, the modal sector and the rounded mean estimate; `SummaryFacts` states its properties |
| Survey.SummaryFacts | app.py:264-298 | no responses iff the empty page; otherwise both percentages are in [0, 100], the sector is one of the most frequent, and the mean estimate is NaN exactly when every estimate is NaN and otherwise lies between the rounded smallest and largest estimates |
| Survey.RecommendationsFacts | app.py:301-373 | no responses iff the empty page; otherwise the verdict follows the yes/no counts as above, the mean is NaN exactly when every estimate is NaN, the band is "within range" iff the mean is NaN or its unrounded difference from 17.27 is within ±2.5, and at most three factors are listed |
| Survey.RecommendationsOf | app.py:301-373 | defines the recommendations page: the empty page for no responses, otherwise the verdict, the band, the rounded mean and difference, and the top factors; `RecommendationsFacts` states its properties |
| Basics.Round | Artefact/dataProcessing.py:72-75 | rounding to n places gives a whole number of units of the n-th place, with the input less than half a unit above it and at most half a unit below it |
| Basics.RoundOption | app.py:296 | `round(·, 2)` keeps NaN as NaN and moves any other value to within half a hundredth |
| Basics.RoundMonotone | Artefact/dataProcessing.py:72-75 | rounding never reverses the order of two values |

## Left out

- File I/O is not modelled: reading the CSV, writing the cleaned, summary and pay-gap CSVs, and writing the SVG files. SQLite, Flask routing, templates and redirects are left out too. The model works on the values these produce or consume.
- `print` and `sys.exit` become the `Err` results of `Cleaning.Clean`. The message texts are not modelled.
- pandas dtype inference is not modelled. The dtypes reach the model as a map from column name to a tag.
- The `Sex` column dropped from the male and female sub-tables is kept in the model. No later step reads it.
- Binary floating point is modelled by exact reals. Python's and numpy's round-half-to-even on binary values is modelled as round half up on exact values. Results can differ on ties and in the last place.
- Division by zero male earnings: pandas gives ±inf or NaN. The model gives `None`, and so the following gap change is `None` too.
- Charts.CreateGraph: the per-point labels (` €{e:.2f}`) and pygal's SVG rendering are not modelled. Only the title, axis titles, x labels and series are.
- GovField.ParseGov: only text made of ASCII characters is modelled, with whitespace space and 9-13 and ASCII digits. For text with a non-ASCII character, Python's int() first maps Unicode digits to ASCII digits and Unicode whitespace (28-31 included) to spaces. That path is not modelled.
- The `float()` parse of the submitted payGap and the reading of `sector` and `factors` from the form are left out. A response arrives already typed, with a NaN estimate as `None`.
- Survey.Response: an estimate of "inf" or "-inf", which `float()` accepts, has no real value. The infinite means and differences it leads to, and the bands they fall into, are not modelled.
- GovField.ParseInt: Python's limit on the length of the text `int()` converts (4300 digits by default, since Python 3.11) is not modelled. The model accepts digit strings of any length.
- Survey.Mode: pandas sorts the tied modes and takes the first. The model's smallest is in code-point order, which matches Python's `str` ordering.
- The `else "No responses"` and `else 0.0` branches at app.py:281-282 and app.py:313 cannot be taken after the empty-frame return, so they are not modelled.
- PayGap.SortRows: the model's sort is stable, as pandas' multi-key sort is, but no contract states the order among rows with equal (Sector, Year).
