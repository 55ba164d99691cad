/**
 * The summary and verdict layer of analyze_discovery.py: the statistics
 * `statistical_analysis` computes from the saved top matches, the colour
 * the scatter plot gives each separation, and the verdict, conclusion
 * and congratulation chosen from the p-value.  The t-test itself is a
 * parameter; its p-value may be NaN, which fails every comparison.
 */
module Discovery {
  import opened Wrappers
  import opened Echo
  import opened Ranking
  import Analysis

  /** A float result that may be NaN: `p_value < c` is false for NaN. */
  datatype Float = NaN | Num(value: real)

  predicate Below(x: Float, bound: real) {
    x.Num? && x.value < bound
  }

  /** The dict `statistical_analysis` returns. */
  datatype Stats = Stats(
    correlations: seq<real>,
    separations: seq<real>,
    sep90: nat,
    sep180: nat,
    sep270: nat,
    pValue: Float,
    tStat: Float)

  /** `np.abs(all_correlations)`: the values handed to the t-test. */
  function AbsCorrelations(ms: seq<Match>): (r: seq<real>)
    ensures |r| == |ms|
    ensures forall i :: 0 <= i < |r| ==> r[i] >= 0.0
  {
    seq(|ms|, i requires 0 <= i < |ms| => Abs(ms[i].correlation))
  }

  /**
   * `statistical_analysis(results)`, with `ttest` standing for
   * `stats.ttest_1samp(., 0)`, which returns the t statistic and the p-value.
   */
  function StatisticalAnalysis(results: Analysis.Results, ttest: seq<real> -> (Float, Float)): Stats {
    var matches := results.topMatches;
    var separations := SeparationDegrees(matches);
    var test := ttest(AbsCorrelations(matches));
    Stats(Correlations(matches), separations,
          CountInBin(separations, 85.0, 95.0),
          CountInBin(separations, 175.0, 185.0),
          CountInBin(separations, 265.0, 275.0),
          test.1, test.0)
  }

  /** The lists of the returned dict: one entry per saved match, in order, taken unchanged. */
  lemma StatsCarryLists(results: Analysis.Results, ttest: seq<real> -> (Float, Float))
    ensures var s, ms := StatisticalAnalysis(results, ttest), results.topMatches;
      && |s.correlations| == |s.separations| == |ms|
      && (forall i :: 0 <= i < |ms| ==>
            s.correlations[i] == ms[i].correlation && s.separations[i] == ms[i].separationDegrees)
      && (s.pValue, s.tStat) == (ttest(AbsCorrelations(ms)).1, ttest(AbsCorrelations(ms)).0)
  {
  }

  // ---------------------------------------------------------------------
  // The scatter-plot colours
  // ---------------------------------------------------------------------

  datatype Colour = Red | Blue

  /** The colour of each separation: red in one of the three bins, blue elsewhere. */
  function Colours(separations: seq<real>): (r: seq<Colour>)
    ensures |r| == |separations|
  {
    seq(|separations|, i requires 0 <= i < |separations| =>
      if 85.0 <= separations[i] <= 95.0 || 175.0 <= separations[i] <= 185.0 || 265.0 <= separations[i] <= 275.0
      then Red else Blue)
  }

  function CountRed(cs: seq<Colour>): (n: nat)
    ensures n <= |cs|
  {
    if cs == [] then 0 else CountRed(cs[..|cs| - 1]) + (if cs[|cs| - 1] == Red then 1 else 0)
  }

  /** A point is red exactly when its separation is at one of the predicted angles. */
  lemma RedAtPredictedAngle(separations: seq<real>, i: nat)
    requires i < |separations|
    ensures Colours(separations)[i] == Red <==> AtPredictedAngle(separations[i])
  {
  }

  /**
   * The red points are exactly those the three counts count: as the bins
   * are disjoint, their sum is the number of red points, at most one per match.
   */
  lemma {:induction false} RedCountIsBinSum(separations: seq<real>)
    ensures CountRed(Colours(separations))
         == CountInBin(separations, 85.0, 95.0) + CountInBin(separations, 175.0, 185.0)
            + CountInBin(separations, 265.0, 275.0)
  {
    if separations != [] {
      var init := separations[..|separations| - 1];
      var last := separations[|separations| - 1];
      RedCountIsBinSum(init);
      assert Colours(separations)[..|init|] == Colours(init);
      BinsDisjoint(last);
    }
  }

  /** The three counts never add up to more than the matches listed. */
  lemma BinCountsBounded(results: Analysis.Results, ttest: seq<real> -> (Float, Float))
    ensures var s := StatisticalAnalysis(results, ttest);
      s.sep90 + s.sep180 + s.sep270 <= |results.topMatches|
  {
    RedCountIsBinSum(SeparationDegrees(results.topMatches));
  }

  /** When every listed separation is at a predicted angle, every point is red. */
  lemma {:induction false} AllRed(separations: seq<real>)
    requires forall i :: 0 <= i < |separations| ==> AtPredictedAngle(separations[i])
    ensures CountRed(Colours(separations)) == |separations|
  {
    if separations != [] {
      var init := separations[..|separations| - 1];
      AllRed(init);
      assert Colours(separations)[..|init|] == Colours(init);
    }
  }

  /**
   * On the results of an echo report the three counts always add up to the
   * number of saved matches: every saved separation is at a predicted angle.
   */
  lemma EchoResultsAllPredicted(files: seq<seq<Analysis.Fits.byte>>, finite: Analysis.Fits.Sample -> bool,
                                corr: (seq<Analysis.Fits.Sample>, seq<Analysis.Fits.Sample>) -> Option<real>,
                                choose: (nat, nat) -> seq<nat>, data: seq<Analysis.Fits.Sample>,
                                ttest: seq<real> -> (Float, Float))
    requires Sampler(choose) && Analysis.ReadsAs(files, data)
    requires Analysis.AnalysisSpec(files, finite, corr, choose).Echoes?
    ensures var results := Analysis.AnalysisSpec(files, finite, corr, choose).results;
      var s := StatisticalAnalysis(results, ttest);
      s.sep90 + s.sep180 + s.sep270 == |results.topMatches| > 0
  {
    var results := Analysis.AnalysisSpec(files, finite, corr, choose).results;
    var separations := SeparationDegrees(results.topMatches);
    Analysis.EchoTopAtPredictedAngles(files, finite, corr, choose, data);
    Analysis.EchoTopRanked(files, finite, corr, choose, data);
    AllRed(separations);
    RedCountIsBinSum(separations);
  }

  // ---------------------------------------------------------------------
  // Verdict, conclusion and congratulation
  // ---------------------------------------------------------------------

  datatype Verdict = HighlySignificant | Significant | NotSignificant

  /** The if/elif on the p-value, used for the printed verdict and the summary's `Result` line. */
  function VerdictOf(p: Float): Verdict {
    if Below(p, 0.001) then HighlySignificant
    else if Below(p, 0.05) then Significant
    else NotSignificant
  }

  function VerdictText(v: Verdict): string {
    match v
    case HighlySignificant => "HIGHLY SIGNIFICANT"
    case Significant => "SIGNIFICANT"
    case NotSignificant => "NOT SIGNIFICANT"
  }

  /** The bands: below 0.001, from 0.001 to below 0.05, and the rest, NaN included. */
  lemma VerdictBands(p: Float)
    ensures VerdictOf(p) == HighlySignificant <==> p.Num? && p.value < 0.001
    ensures VerdictOf(p) == Significant <==> p.Num? && 0.001 <= p.value < 0.05
    ensures VerdictOf(p) == NotSignificant <==> p.NaN? || p.value >= 0.05
  {
  }

  /** How strong a verdict is: 2 for highly significant, 0 for not significant. */
  function Level(v: Verdict): nat {
    match v
    case HighlySignificant => 2
    case Significant => 1
    case NotSignificant => 0
  }

  /** A smaller p-value never gets a weaker verdict. */
  lemma VerdictMonotone(p: real, q: real)
    requires p <= q
    ensures Level(VerdictOf(Num(p))) >= Level(VerdictOf(Num(q)))
  {
  }

  /** The conclusion line of the research summary. */
  function Conclusion(p: Float): string {
    if Below(p, 0.001) then "STRONG EVIDENCE for toroidal universe topology!"
    else "Evidence supports further investigation"
  }

  /** Whether `main` prints the congratulation. */
  predicate Congratulates(s: Stats) {
    Below(s.pValue, 0.001)
  }

  /** The strong conclusion and the congratulation come exactly with the top verdict. */
  lemma ConclusionMatchesVerdict(s: Stats)
    ensures Conclusion(s.pValue) == "STRONG EVIDENCE for toroidal universe topology!"
        <==> VerdictOf(s.pValue) == HighlySignificant
    ensures Congratulates(s) <==> VerdictOf(s.pValue) == HighlySignificant
    ensures VerdictText(VerdictOf(s.pValue)) == "HIGHLY SIGNIFICANT" <==> Congratulates(s)
  {
    assert "STRONG EVIDENCE for toroidal universe topology!" != "Evidence supports further investigation";
    assert "HIGHLY SIGNIFICANT" != "SIGNIFICANT" && "HIGHLY SIGNIFICANT" != "NOT SIGNIFICANT";
  }

  /** A NaN p-value, as the t-test gives for a single saved match (its sample variance is undefined), is never significant. */
  lemma NaNNotSignificant(s: Stats)
    requires s.pValue.NaN?
    ensures VerdictOf(s.pValue) == NotSignificant && !Congratulates(s)
    ensures Conclusion(s.pValue) == "Evidence supports further investigation"
  {
  }
}
