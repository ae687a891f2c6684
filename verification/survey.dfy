/** The survey pages (summary and recommendations in app.py): the stored
    responses are reduced to yes/no percentages for the government question,
    the most common sector, the mean pay-gap estimate, a consensus verdict,
    an estimation band against the published gap, and the most frequent
    factors. */
module Survey {
  import opened Basics
  import opened Ordering
  import opened Seqs
  import opened Stats

  /** One row of the responses table. The estimate is None when the
      submitted text was "nan": SQLite stores a NaN as NULL, and pandas reads
      NULL back as NaN. */
  datatype Response = Response(id: int, sector: string, factors: string, payGap: Option<real>, gov: bool)

  function GovAnswers(rs: seq<Response>): (bs: seq<bool>)
    ensures |bs| == |rs| && forall i :: 0 <= i < |rs| ==> bs[i] == rs[i].gov
  {
    seq(|rs|, i requires 0 <= i < |rs| => rs[i].gov)
  }

  function SectorAnswers(rs: seq<Response>): (ss: seq<string>)
    ensures |ss| == |rs| && forall i :: 0 <= i < |rs| ==> ss[i] == rs[i].sector
  {
    seq(|rs|, i requires 0 <= i < |rs| => rs[i].sector)
  }

  function Factors(rs: seq<Response>): (fs: seq<string>)
    ensures |fs| == |rs| && forall i :: 0 <= i < |rs| ==> fs[i] == rs[i].factors
  {
    seq(|rs|, i requires 0 <= i < |rs| => rs[i].factors)
  }

  /** The estimates that are not NaN, in response order: the values that
      pandas' mean() averages, since it skips NaN. */
  function PayGaps(rs: seq<Response>): (xs: seq<real>)
    ensures |xs| <= |rs|
    ensures xs == [] <==> forall i :: 0 <= i < |rs| ==> rs[i].payGap.None?
  {
    if rs == [] then []
    else
      var last := rs[|rs| - 1];
      PayGaps(rs[..|rs| - 1]) + (if last.payGap.Some? then [last.payGap.value] else [])
  }

  /** The positions of the responses whose estimate is not NaN, ascending. */
  function EstimateIndices(rs: seq<Response>): (ix: seq<nat>)
    ensures forall j :: 0 <= j < |ix| ==> ix[j] < |rs| && rs[ix[j]].payGap.Some?
    ensures forall j, k :: 0 <= j < k < |ix| ==> ix[j] < ix[k]
    ensures forall i :: 0 <= i < |rs| && rs[i].payGap.Some? ==> i in ix
  {
    if rs == [] then []
    else
      var n := |rs| - 1;
      EstimateIndices(rs[..n]) + (if rs[n].payGap.Some? then [n] else [])
  }

  /** Every estimate that is not NaN is averaged, once and in order: the k-th
      value is the estimate of the k-th such response. */
  lemma {:induction false} PayGapsAt(rs: seq<Response>)
    ensures var xs, ix := PayGaps(rs), EstimateIndices(rs);
      && |xs| == |ix|
      && forall k :: 0 <= k < |xs| ==> xs[k] == rs[ix[k]].payGap.value
  {
    if rs != [] {
      PayGapsAt(rs[..|rs| - 1]);
    }
  }

  /** df['payGap'].astype(float).mean(): NaN (None) when every estimate is
      NaN. */
  function MeanEstimate(rs: seq<Response>): (m: Option<real>)
    ensures m.None? <==> forall i :: 0 <= i < |rs| ==> rs[i].payGap.None?
    ensures m.Some? ==> Min(PayGaps(rs)) <= m.value <= Max(PayGaps(rs))
  {
    var xs := PayGaps(rs);
    if xs == [] then None
    else
      MeanBetween(xs);
      Some(Mean(xs))
  }

  function YesCount(rs: seq<Response>): nat
  {
    Count(GovAnswers(rs), true)
  }

  function NoCount(rs: seq<Response>): nat
  {
    Count(GovAnswers(rs), false)
  }

  lemma {:induction false} BoolCountsAddUp(bs: seq<bool>)
    ensures Count(bs, true) + Count(bs, false) == |bs|
  {
    if bs != [] {
      var init := bs[..|bs| - 1];
      BoolCountsAddUp(init);
      assert Count(bs, true) == Count(init, true) + (if bs[|bs| - 1] then 1 else 0);
      assert Count(bs, false) == Count(init, false) + (if bs[|bs| - 1] then 0 else 1);
    }
  }

  /** Every response is counted once, as a yes or as a no. */
  lemma YesNoPartition(rs: seq<Response>)
    ensures YesCount(rs) + NoCount(rs) == |rs|
  {
    BoolCountsAddUp(GovAnswers(rs));
  }

  /** count as a percentage of total, rounded to two places; 0 when there
      is nothing to count. */
  function Percentage(count: nat, total: nat): (r: real)
    ensures total == 0 ==> r == 0.0
    ensures total > 0 ==> r - 0.005 <= count as real / total as real * 100.0 < r + 0.005
  {
    if total > 0 then Round(count as real / total as real * 100.0, 2) else 0.0
  }

  lemma PercentageBounds(count: nat, total: nat)
    requires count <= total
    ensures 0.0 <= Percentage(count, total) <= 100.0
  {
    if total > 0 {
      var y := count as real / total as real * 100.0;
      assert count as real / total as real <= 1.0;
      RoundMonotone(0.0, y, 2);
      RoundMonotone(y, 100.0, 2);
      RoundWhole(0, 2);
      RoundWhole(100, 2);
    }
  }

  /** A rounded percentage exceeds 50 exactly when the unrounded one is at
      least 50.005. */
  lemma RoundedAboveHalf(y: real)
    ensures Round(y, 2) > 50.0 <==> y * 100.0 >= 5000.5
  {
    assert Pow10(2) == 100;
    var f := (Scaled(y, 2) + 0.5).Floor;
    assert Scaled(y, 2) == y * 100.0;
    assert Round(y, 2) == f as real / 100.0;
    assert f as real <= y * 100.0 + 0.5 < f as real + 1.0;
  }

  lemma ScalePositive(a: real, b: real, t: real)
    requires t > 0.0
    ensures a >= b <==> a * t >= b * t
  {
    assert a * t - b * t == (a - b) * t;
  }

  /** Clearing the division by the total. */
  lemma ScaleByTotal(count: real, t: real)
    requires t > 0.0
    ensures count / t * 100.0 * 100.0 >= 5000.5 <==> count * 10000.0 >= 5000.5 * t
  {
    var q := count / t;
    assert q * t == count;
    assert q * 100.0 * 100.0 == q * 10000.0;
    ScalePositive(q * 10000.0, 5000.5, t);
    assert q * 10000.0 * t == count * 10000.0;
  }

  lemma IntegerThreshold(count: nat, total: nat)
    ensures count as real * 10000.0 >= 5000.5 * total as real <==> 20000 * count >= 10001 * total
  {
    assert (20000 * count) as real == 2.0 * (count as real * 10000.0);
    assert (10001 * total) as real == 2.0 * (5000.5 * total as real);
  }

  lemma PercentageAboveHalf(count: nat, total: nat)
    requires total > 0
    ensures Percentage(count, total) > 50.0 <==> 20000 * count >= 10001 * total
  {
    var y := count as real / total as real * 100.0;
    assert Percentage(count, total) == Round(y, 2);
    RoundedAboveHalf(y);
    ScaleByTotal(count as real, total as real);
    IntegerThreshold(count, total);
  }

  datatype Consensus = DoingEnough | NotDoingEnough | NoClearConsensus

  /** The consensus rule: a yes share over 50% first, then a no share over
      50%, otherwise no consensus. */
  function ConsensusOf(yesPercentage: real, noPercentage: real): Consensus
  {
    if yesPercentage > 50.0 then DoingEnough
    else if noPercentage > 50.0 then NotDoingEnough
    else NoClearConsensus
  }

  /** In terms of the counts: "doing enough" exactly when at least 50.005% of
      the responses say yes, "not doing enough" exactly when at least 50.005%
      say no (the two cannot both hold), and either verdict needs a strict
      majority. Up to 10000 responses, a strict majority is also enough. */
  lemma ConsensusFromCounts(yes: nat, no: nat)
    requires yes + no > 0
    ensures var c := ConsensusOf(Percentage(yes, yes + no), Percentage(no, yes + no));
      && (c == DoingEnough <==> 20000 * yes >= 10001 * (yes + no))
      && (c == NotDoingEnough <==> 20000 * no >= 10001 * (yes + no))
      && (c == DoingEnough ==> yes > no)
      && (c == NotDoingEnough ==> no > yes)
      && (yes + no <= 10000 ==> (c == DoingEnough <==> yes > no) && (c == NotDoingEnough <==> no > yes))
  {
    PercentageAboveHalf(yes, yes + no);
    PercentageAboveHalf(no, yes + no);
  }

  /** The gender pay gap for all sectors in 2023 that estimates are compared
      with. */
  const ActualPayGap: real := 17.27

  datatype Estimation =
    | SignificantlyHigher | SignificantlyLower
    | SomewhatHigher | SomewhatLower
    | LittleHigher | LittleLower
    | WithinRange

  /** The estimation message chosen for d = mean estimate - actual gap. The
      ordered tests amount to seven intervals that cover every d and do not
      overlap. */
  function EstimationOf(d: real): (e: Estimation)
    ensures e == SignificantlyHigher <==> d >= 10.0
    ensures e == SomewhatHigher <==> 5.0 <= d < 10.0
    ensures e == LittleHigher <==> 2.5 < d < 5.0
    ensures e == WithinRange <==> -2.5 <= d <= 2.5
    ensures e == LittleLower <==> -5.0 < d < -2.5
    ensures e == SomewhatLower <==> -10.0 < d <= -5.0
    ensures e == SignificantlyLower <==> d <= -10.0
  {
    if d >= 10.0 then SignificantlyHigher
    else if d <= -10.0 then SignificantlyLower
    else if d >= 5.0 then SomewhatHigher
    else if d <= -5.0 then SomewhatLower
    else if d > 2.5 then LittleHigher
    else if d < -2.5 then LittleLower
    else WithinRange
  }

  /** Position of a band on the scale from lowest to highest. */
  function Rank(e: Estimation): int
  {
    match e
    case SignificantlyLower => -3
    case SomewhatLower => -2
    case LittleLower => -1
    case WithinRange => 0
    case LittleHigher => 1
    case SomewhatHigher => 2
    case SignificantlyHigher => 3
  }

  function Mirror(e: Estimation): Estimation
  {
    match e
    case SignificantlyLower => SignificantlyHigher
    case SomewhatLower => SomewhatHigher
    case LittleLower => LittleHigher
    case WithinRange => WithinRange
    case LittleHigher => LittleLower
    case SomewhatHigher => SomewhatLower
    case SignificantlyHigher => SignificantlyLower
  }

  /** The band for a difference that may be NaN: every comparison with NaN
      is false, so a NaN difference falls through to the last branch. */
  function Band(d: Option<real>): (e: Estimation)
    ensures e == WithinRange <==> d.None? || -2.5 <= d.value <= 2.5
    ensures e == SignificantlyHigher <==> d.Some? && d.value >= 10.0
    ensures e == SomewhatHigher <==> d.Some? && 5.0 <= d.value < 10.0
    ensures e == LittleHigher <==> d.Some? && 2.5 < d.value < 5.0
    ensures e == LittleLower <==> d.Some? && -5.0 < d.value < -2.5
    ensures e == SomewhatLower <==> d.Some? && -10.0 < d.value <= -5.0
    ensures e == SignificantlyLower <==> d.Some? && d.value <= -10.0
  {
    if d.None? then WithinRange else EstimationOf(d.value)
  }

  /** A larger difference never gets a lower band. */
  lemma EstimationMonotone(d1: real, d2: real)
    requires d1 <= d2
    ensures Rank(EstimationOf(d1)) <= Rank(EstimationOf(d2))
  {
  }

  /** Over- and under-estimates by the same amount get opposite bands. */
  lemma EstimationSymmetric(d: real)
    ensures EstimationOf(-d) == Mirror(EstimationOf(d))
  {
  }

  /** The values of ds that occur at least three times in fs, in ds's order. */
  function Frequent(ds: seq<string>, fs: seq<string>): (r: seq<string>)
    ensures forall x :: x in r <==> x in ds && Count(fs, x) >= 3
    ensures |r| <= |ds|
  {
    if ds == [] then []
    else
      var rest := Frequent(ds[..|ds| - 1], fs);
      var x := ds[|ds| - 1];
      assert forall y :: y in ds <==> y in ds[..|ds| - 1] || y == x by {
        assert ds == ds[..|ds| - 1] + [x];
      }
      if Count(fs, x) >= 3 then rest + [x] else rest
  }

  lemma {:induction false} FrequentKeepsOrder(ds: seq<string>, fs: seq<string>)
    requires forall x :: x in ds ==> x in fs
    requires forall i, j :: 0 <= i < j < |ds| ==> FirstIndex(fs, ds[i]) < FirstIndex(fs, ds[j])
    ensures forall x :: x in Frequent(ds, fs) ==> x in fs
    ensures forall i, j :: 0 <= i < j < |Frequent(ds, fs)| ==>
              FirstIndex(fs, Frequent(ds, fs)[i]) < FirstIndex(fs, Frequent(ds, fs)[j])
  {
    if ds != [] {
      var n := |ds| - 1;
      var init, x := ds[..n], ds[n];
      assert forall i :: 0 <= i < n ==> init[i] == ds[i];
      FrequentKeepsOrder(init, fs);
      var rest := Frequent(init, fs);
      assert Frequent(ds, fs) == if Count(fs, x) >= 3 then rest + [x] else rest;
      if Count(fs, x) >= 3 {
        forall k | 0 <= k < |rest| ensures FirstIndex(fs, rest[k]) < FirstIndex(fs, x) {
          assert rest[k] in rest;
          var p :| 0 <= p < n && init[p] == rest[k];
          assert FirstIndex(fs, ds[p]) < FirstIndex(fs, ds[n]);
        }
        AppendKeepsOrder(fs, rest, x);
      }
    }
  }

  lemma AppendKeepsOrder(fs: seq<string>, rest: seq<string>, x: string)
    requires x in fs && forall y :: y in rest ==> y in fs
    requires forall i, j :: 0 <= i < j < |rest| ==> FirstIndex(fs, rest[i]) < FirstIndex(fs, rest[j])
    requires forall k :: 0 <= k < |rest| ==> FirstIndex(fs, rest[k]) < FirstIndex(fs, x)
    ensures forall y :: y in rest + [x] ==> y in fs
    ensures forall i, j :: 0 <= i < j < |rest + [x]| ==>
              FirstIndex(fs, (rest + [x])[i]) < FirstIndex(fs, (rest + [x])[j])
  {
    var r := rest + [x];
    forall i, j | 0 <= i < j < |r| ensures FirstIndex(fs, r[i]) < FirstIndex(fs, r[j]) {
      assert r[i] == rest[i];
    }
  }

  /** [factor for factor, count in Counter(factors).items() if count >= 3][:3] */
  function TopFactors(rs: seq<Response>): (top: seq<string>)
    ensures |top| <= 3
  {
    var fs := Factors(rs);
    var frequent := Frequent(Distinct(fs), fs);
    if |frequent| <= 3 then frequent else frequent[..3]
  }

  /** The frequent factors are exactly those given at least three times,
      in first-seen order. */
  lemma FrequentFactors(fs: seq<string>)
    ensures var q := Frequent(Distinct(fs), fs);
      && (forall x :: x in q <==> Count(fs, x) >= 3)
      && (forall x :: x in q ==> x in fs)
      && (forall i, j :: 0 <= i < j < |q| ==> FirstIndex(fs, q[i]) < FirstIndex(fs, q[j]))
  {
    FrequentKeepsOrder(Distinct(fs), fs);
  }

  /** Keeping the first three of a list ordered by first appearance. */
  lemma FirstThree(fs: seq<string>, q: seq<string>, t: seq<string>)
    requires forall x :: x in q <==> Count(fs, x) >= 3
    requires forall x :: x in q ==> x in fs
    requires forall i, j :: 0 <= i < j < |q| ==> FirstIndex(fs, q[i]) < FirstIndex(fs, q[j])
    requires t == if |q| <= 3 then q else q[..3]
    ensures |t| <= 3
    ensures NoDuplicates(t)
    ensures forall i :: 0 <= i < |t| ==> Count(fs, t[i]) >= 3
    ensures forall i, j :: 0 <= i < j < |t| ==> FirstIndex(fs, t[i]) < FirstIndex(fs, t[j])
    ensures forall x :: Count(fs, x) >= 3 && x !in t ==>
              |t| == 3 && forall i :: 0 <= i < |t| ==> FirstIndex(fs, t[i]) < FirstIndex(fs, x)
  {
    assert forall i :: 0 <= i < |t| ==> t[i] == q[i];
    forall i | 0 <= i < |t| ensures Count(fs, t[i]) >= 3 {
      assert q[i] in q;
    }
    forall i, j | 0 <= i < j < |t| ensures t[i] != t[j] {
      assert q[i] in q && q[j] in q;
    }
    forall x | Count(fs, x) >= 3 && x !in t
      ensures |t| == 3 && forall i :: 0 <= i < |t| ==> FirstIndex(fs, t[i]) < FirstIndex(fs, x)
    {
      var k :| 0 <= k < |q| && q[k] == x;
    }
  }

  /** The top factors: at most three, no repeats, each given at least three
      times, ordered by first appearance; a factor given three or more times
      is left out only when three factors that appeared before it are
      already listed. */
  lemma TopFactorsProperties(rs: seq<Response>)
    ensures var fs := Factors(rs);
            var t := TopFactors(rs);
      && |t| <= 3
      && NoDuplicates(t)
      && (forall i :: 0 <= i < |t| ==> Count(fs, t[i]) >= 3)
      && (forall i, j :: 0 <= i < j < |t| ==> FirstIndex(fs, t[i]) < FirstIndex(fs, t[j]))
      && (forall x :: Count(fs, x) >= 3 && x !in t ==>
            |t| == 3 && forall i :: 0 <= i < |t| ==> FirstIndex(fs, t[i]) < FirstIndex(fs, x))
  {
    var fs := Factors(rs);
    FrequentFactors(fs);
    FirstThree(fs, Frequent(Distinct(fs), fs), TopFactors(rs));
  }

  /** The better of two candidate modes: the more frequent, then the
      smaller. */
  predicate Beats(xs: seq<string>, a: string, b: string)
  {
    Count(xs, a) > Count(xs, b) || (Count(xs, a) == Count(xs, b) && StrLess(a, b))
  }

  function BestOf(cands: seq<string>, xs: seq<string>): (m: string)
    requires |cands| > 0
    ensures m in cands
    ensures forall i :: 0 <= i < |cands| ==> cands[i] == m || Beats(xs, m, cands[i])
  {
    if |cands| == 1 then cands[0]
    else
      var m := BestOf(cands[1..], xs);
      var c := cands[0];
      StrLessTotal(c, m);
      var best := if Beats(xs, c, m) then c else m;
      assert forall i :: 1 <= i < |cands| ==> cands[i] == best || Beats(xs, best, cands[i]) by {
        forall i | 1 <= i < |cands| ensures cands[i] == best || Beats(xs, best, cands[i]) {
          assert cands[i] == cands[1..][i - 1];
          if best == c && cands[i] != m {
            if StrLess(c, m) && StrLess(m, cands[i]) {
              StrLessTransitive(c, m, cands[i]);
            }
          }
        }
      }
      best
  }

  /** df['sector'].mode()[0]: the most frequent value, the smallest one when
      several are equally frequent. */
  function Mode(xs: seq<string>): (m: string)
    requires |xs| > 0
    ensures m in xs
    ensures forall i :: 0 <= i < |xs| ==> Count(xs, xs[i]) <= Count(xs, m)
    ensures forall i :: 0 <= i < |xs| && xs[i] != m && Count(xs, xs[i]) == Count(xs, m) ==> StrLess(m, xs[i])
  {
    BestOf(xs, xs)
  }

  datatype SummaryPage =
    | NoResponses
    | SummaryPage(yes: real, no: real, sector: string, payGap: Option<real>, responses: seq<Response>)

  /** The summary page for the stored responses. */
  function SummaryOf(rs: seq<Response>): SummaryPage
  {
    if |rs| == 0 then NoResponses
    else
      var total := |rs|;
      SummaryPage(Percentage(YesCount(rs), total), Percentage(NoCount(rs), total),
                  Mode(SectorAnswers(rs)), RoundOption(MeanEstimate(rs)), rs)
  }

  /** With no responses nothing is computed; otherwise both percentages lie
      in [0, 100], the sector is one given most often, and the reported mean
      estimate lies between the rounded smallest and largest estimates. */
  lemma SummaryFacts(rs: seq<Response>)
    ensures SummaryOf(rs).NoResponses? <==> |rs| == 0
    ensures SummaryOf(rs).SummaryPage? ==>
      var p := SummaryOf(rs);
      && 0.0 <= p.yes <= 100.0 && 0.0 <= p.no <= 100.0
      && p.sector in SectorAnswers(rs)
      && (forall i :: 0 <= i < |rs| ==> Count(SectorAnswers(rs), rs[i].sector) <= Count(SectorAnswers(rs), p.sector))
      && (p.payGap.None? <==> forall i :: 0 <= i < |rs| ==> rs[i].payGap.None?)
      && (p.payGap.Some? ==> Round(Min(PayGaps(rs)), 2) <= p.payGap.value <= Round(Max(PayGaps(rs)), 2))
  {
    if |rs| > 0 {
      YesNoPartition(rs);
      PercentageBounds(YesCount(rs), |rs|);
      PercentageBounds(NoCount(rs), |rs|);
      assert forall i :: 0 <= i < |rs| ==> rs[i].sector in SectorAnswers(rs) by {
        forall i | 0 <= i < |rs| ensures rs[i].sector in SectorAnswers(rs) {
          assert SectorAnswers(rs)[i] == rs[i].sector;
        }
      }
      RoundedMeanEstimate(rs);
    }
  }

  /** The rounded mean estimate is NaN exactly when every estimate is, and
      otherwise lies between the rounded smallest and largest estimates. */
  lemma RoundedMeanEstimate(rs: seq<Response>)
    ensures RoundOption(MeanEstimate(rs)).None? <==> forall i :: 0 <= i < |rs| ==> rs[i].payGap.None?
    ensures RoundOption(MeanEstimate(rs)).Some? ==>
      Round(Min(PayGaps(rs)), 2) <= RoundOption(MeanEstimate(rs)).value <= Round(Max(PayGaps(rs)), 2)
  {
    var m := MeanEstimate(rs);
    if m.Some? {
      var xs := PayGaps(rs);
      RoundMonotone(Min(xs), m.value, 2);
      RoundMonotone(m.value, Max(xs), 2);
    }
  }

  datatype RecommendationsPage =
    | NoRecommendations
    | Recommendations(
        consensus: Consensus,
        estimation: Estimation,
        payGapMean: Option<real>,
        actualPayGap: real,
        percentageDifference: Option<real>,
        topFactors: seq<string>)

  /** The recommendations page for the stored responses. */
  function RecommendationsOf(rs: seq<Response>): RecommendationsPage
  {
    if |rs| == 0 then NoRecommendations
    else
      var total := |rs|;
      var mean := MeanEstimate(rs);
      var difference := if mean.Some? then Some(mean.value - ActualPayGap) else None;
      Recommendations(
        ConsensusOf(Percentage(YesCount(rs), total), Percentage(NoCount(rs), total)),
        Band(difference),
        RoundOption(mean), ActualPayGap, RoundOption(difference),
        TopFactors(rs))
  }

  /** With responses, the verdict follows the yes and no counts as
      ConsensusFromCounts describes, and the band is chosen on the unrounded
      difference between the mean estimate and 17.27. */
  lemma RecommendationsFacts(rs: seq<Response>)
    ensures RecommendationsOf(rs).NoRecommendations? <==> |rs| == 0
    ensures RecommendationsOf(rs).Recommendations? ==>
      var p := RecommendationsOf(rs);
      var yes, total := YesCount(rs), |rs|;
      && (p.consensus == DoingEnough <==> 20000 * yes >= 10001 * total)
      && (p.consensus == NotDoingEnough <==> 20000 * NoCount(rs) >= 10001 * total)
      && (p.consensus == DoingEnough ==> yes > NoCount(rs))
      && (p.payGapMean.None? <==> forall i :: 0 <= i < |rs| ==> rs[i].payGap.None?)
      && (p.estimation == WithinRange <==>
            PayGaps(rs) == [] || -2.5 <= Mean(PayGaps(rs)) - ActualPayGap <= 2.5)
      && |p.topFactors| <= 3
  {
    if |rs| > 0 {
      YesNoPartition(rs);
      ConsensusFromCounts(YesCount(rs), NoCount(rs));
      TopFactorsProperties(rs);
    }
  }
}
