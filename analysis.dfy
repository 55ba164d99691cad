/**
 * The driver of the echo search, `main` in analyze_real_cmb.py: read the
 * first FITS file, search it for echoes with the settings for real data,
 * rank what was found by strength, and summarise it: the top ten, the
 * strong matches and how many of them lie near 90 and 180 degrees, and
 * the results record that the program saves.
 */
module Analysis {
  import opened Wrappers
  import Fits
  import opened Echo
  import opened Ranking

  /** The arguments `main` passes to the search. */
  const PATCH_SIZE: nat := 2000
  const N_SAMPLES: nat := 3000
  const MIN_CORRELATION: real := 0.1

  /** How many entries the saved results keep, and how many the table shows. */
  const SAVED: nat := 20
  const SHOWN: nat := 10

  /** The saved results dict, without its two descriptive text fields. */
  datatype Results = Results(
    dataPoints: nat,
    matchesFound: nat,
    strongMatches: nat,
    maxCorrelation: real,
    meanCorrelation: real,
    topMatches: seq<Match>)

  /** The counts of strong matches near 90 and near 180 degrees. */
  datatype Evidence = Evidence(near90: nat, near180: nat)

  /** The four ways `main` can end. */
  datatype Report =
    | NoFitsFile
    | ReadFailed(error: Fits.FitsError)
    | NoEchoes
    | Echoes(top: seq<Match>, evidence: Option<Evidence>, results: Results)

  /** The results dict for the ranked matches of a map of `dataPoints` pixels. */
  function Summarize(dataPoints: nat, ranked: seq<Match>): Results
    requires ranked != []
  {
    Results(dataPoints, |ranked|, |StrongMatches(ranked)|, MaxStrength(ranked),
            Mean(Correlations(ranked)), Top(ranked, SAVED))
  }

  /** The separation counts over the strong matches, printed only when there are some. */
  function EvidenceOf(ranked: seq<Match>): Option<Evidence> {
    var strong := StrongMatches(ranked);
    if strong == [] then None
    else
      var separations := SeparationDegrees(strong);
      Some(Evidence(CountInBin(separations, 85.0, 95.0), CountInBin(separations, 175.0, 185.0)))
  }

  /** `near_90 > 0 or near_180 > 0`: the line announcing echoes at predicted separations. */
  predicate Significant(e: Evidence) {
    e.near90 > 0 || e.near180 > 0
  }

  /**
   * What `main` does, given the FITS files found (in the order `glob`
   * lists them), the finiteness test and the correlation of the search,
   * and the random sampler.
   */
  function AnalysisSpec(files: seq<seq<Fits.byte>>, finite: Fits.Sample -> bool,
                        corr: (seq<Fits.Sample>, seq<Fits.Sample>) -> Option<real>,
                        choose: (nat, nat) -> seq<nat>): Report
    requires Sampler(choose)
  {
    if files == [] then NoFitsFile
    else match Fits.ReadSpec(files[0])
      case Failure(e) => ReadFailed(e)
      case Success(data) =>
        var matches := Search(data, finite, PATCH_SIZE, N_SAMPLES, MIN_CORRELATION, corr, choose);
        if matches == [] then NoEchoes
        else
          var ranked := SortSpec(matches);
          Echoes(Top(ranked, SHOWN), EvidenceOf(ranked), Summarize(|data|, ranked))
  }

  /** `main`: the search's list is copied into an array and ranked in place. */
  method RunAnalysis(files: seq<seq<Fits.byte>>, finite: Fits.Sample -> bool,
                     corr: (seq<Fits.Sample>, seq<Fits.Sample>) -> Option<real>,
                     choose: (nat, nat) -> seq<nat>) returns (report: Report)
    requires Sampler(choose)
    ensures report == AnalysisSpec(files, finite, corr, choose)
  {
    if files == [] {
      return NoFitsFile;
    }
    var cmbData := Fits.ReadFitsSimple(files[0]);
    if cmbData.Failure? {
      return ReadFailed(cmbData.error);
    }
    var data := cmbData.value;
    var matches := AnalyzeCorrelations(data, finite, PATCH_SIZE, N_SAMPLES, MIN_CORRELATION, corr, choose);
    if matches == [] {
      return NoEchoes;
    }
    var a := new Match[|matches|](i requires 0 <= i < |matches| => matches[i]);
    assert a[..] == matches;
    SortByStrength(a);
    var ranked := a[..];
    var strong := StrongMatches(ranked);
    var evidence: Option<Evidence> := None;
    if strong != [] {
      var separations := SeparationDegrees(strong);
      var near90 := CountInBin(separations, 85.0, 95.0);
      var near180 := CountInBin(separations, 175.0, 185.0);
      evidence := Some(Evidence(near90, near180));
    }
    report := Echoes(Top(ranked, SHOWN), evidence, Summarize(|data|, ranked));
  }

  // ---------------------------------------------------------------------
  // What a report of echoes says
  // ---------------------------------------------------------------------

  /** The data that the first file decodes to, when it decodes. */
  predicate ReadsAs(files: seq<seq<Fits.byte>>, data: seq<Fits.Sample>) {
    files != [] && Fits.ReadSpec(files[0]) == Success(data)
  }

  /** `main` stops without echoes exactly when the file reads and the search keeps nothing. */
  lemma NoEchoesWhenSearchEmpty(files: seq<seq<Fits.byte>>, finite: Fits.Sample -> bool,
                                corr: (seq<Fits.Sample>, seq<Fits.Sample>) -> Option<real>,
                                choose: (nat, nat) -> seq<nat>, data: seq<Fits.Sample>)
    requires Sampler(choose) && ReadsAs(files, data)
    ensures AnalysisSpec(files, finite, corr, choose).NoEchoes? <==>
            Search(data, finite, PATCH_SIZE, N_SAMPLES, MIN_CORRELATION, corr, choose) == []
    ensures |Finite(data, finite)| < 2 * PATCH_SIZE ==> AnalysisSpec(files, finite, corr, choose).NoEchoes?
  {
  }

  /** An echo report is the summary of the ranking of the search's matches. */
  lemma EchoesOf(files: seq<seq<Fits.byte>>, finite: Fits.Sample -> bool,
                 corr: (seq<Fits.Sample>, seq<Fits.Sample>) -> Option<real>,
                 choose: (nat, nat) -> seq<nat>, data: seq<Fits.Sample>)
    requires Sampler(choose) && ReadsAs(files, data)
    requires AnalysisSpec(files, finite, corr, choose).Echoes?
    ensures var ranked := SortSpec(Search(data, finite, PATCH_SIZE, N_SAMPLES, MIN_CORRELATION, corr, choose));
      && ranked != []
      && AnalysisSpec(files, finite, corr, choose)
         == Echoes(Top(ranked, SHOWN), EvidenceOf(ranked), Summarize(|data|, ranked))
  {
  }

  /**
   * The counts in an echo report: every match found is counted, the
   * strong count is that of the search's own order, and the pixel count
   * is that of the whole map, non-finite pixels included, so never zero.
   */
  lemma EchoCounts(files: seq<seq<Fits.byte>>, finite: Fits.Sample -> bool,
                   corr: (seq<Fits.Sample>, seq<Fits.Sample>) -> Option<real>,
                   choose: (nat, nat) -> seq<nat>, data: seq<Fits.Sample>)
    requires Sampler(choose) && ReadsAs(files, data)
    requires AnalysisSpec(files, finite, corr, choose).Echoes?
    ensures var matches := Search(data, finite, PATCH_SIZE, N_SAMPLES, MIN_CORRELATION, corr, choose);
      var r := AnalysisSpec(files, finite, corr, choose).results;
      && r.matchesFound == |matches| > 0
      && r.strongMatches == |StrongMatches(matches)| <= r.matchesFound
      && r.dataPoints == |data| >= |Finite(data, finite)| >= 2 * PATCH_SIZE
      && r.matchesFound <= 3 * (|Finite(data, finite)| - PATCH_SIZE)
  {
    var matches := Search(data, finite, PATCH_SIZE, N_SAMPLES, MIN_CORRELATION, corr, choose);
    SortKeepsStrongCount(matches);
    SortPermutes(matches);
    assert |SortSpec(matches)| == |multiset(SortSpec(matches))|;
  }

  /**
   * The first `k` of the ranking of `ms`: the strongest `k` (or all),
   * ranked, each one of `ms`; no match of `ms` left out is stronger.
   */
  lemma RankedTop(ms: seq<Match>, k: nat)
    ensures var saved := Top(SortSpec(ms), k);
      && |saved| == Min(k, |ms|)
      && SortedByStrength(saved)
      && multiset(saved) <= multiset(ms)
      && (forall i, m :: 0 <= i < |saved| && m in multiset(ms) - multiset(saved)
            ==> Strength(saved[i]) >= Strength(m))
  {
    var ranked := SortSpec(ms);
    SortPermutes(ms);
    SortSorted(ms);
    assert |ranked| == |multiset(ranked)|;
    var n := Min(k, |ranked|);
    var saved := ranked[..n];
    assert ranked == saved + ranked[n..];
    assert multiset(ranked) == multiset(saved) + multiset(ranked[n..]);
    forall i, m | 0 <= i < |saved| && m in multiset(ms) - multiset(saved)
      ensures Strength(saved[i]) >= Strength(m)
    {
      assert m in multiset(ranked[n..]);
      TopIsStrongest(ranked, k, saved[i], m);
    }
  }

  /**
   * The matches an echo report lists: the saved ones are the first twenty
   * of the ranking (or all of it), ranked; the ten shown are the first of them.
   */
  lemma EchoTopRanked(files: seq<seq<Fits.byte>>, finite: Fits.Sample -> bool,
                      corr: (seq<Fits.Sample>, seq<Fits.Sample>) -> Option<real>,
                      choose: (nat, nat) -> seq<nat>, data: seq<Fits.Sample>)
    requires Sampler(choose) && ReadsAs(files, data)
    requires AnalysisSpec(files, finite, corr, choose).Echoes?
    ensures var matches := Search(data, finite, PATCH_SIZE, N_SAMPLES, MIN_CORRELATION, corr, choose);
      var report := AnalysisSpec(files, finite, corr, choose);
      var saved := report.results.topMatches;
      && |saved| == Min(SAVED, |matches|)
      && SortedByStrength(saved)
      && report.top == saved[..Min(SHOWN, |saved|)]
  {
    var matches := Search(data, finite, PATCH_SIZE, N_SAMPLES, MIN_CORRELATION, corr, choose);
    var ranked := SortSpec(matches);
    EchoesOf(files, finite, corr, choose, data);
    RankedTop(matches, SAVED);
    assert Top(ranked, SHOWN) == Top(Top(ranked, SAVED), SHOWN);
  }

  /**
   * Each saved match of an echo report was found by the search, and no
   * match found but not saved is stronger than a saved one.
   */
  lemma EchoTopStrongest(files: seq<seq<Fits.byte>>, finite: Fits.Sample -> bool,
                         corr: (seq<Fits.Sample>, seq<Fits.Sample>) -> Option<real>,
                         choose: (nat, nat) -> seq<nat>, data: seq<Fits.Sample>)
    requires Sampler(choose) && ReadsAs(files, data)
    requires AnalysisSpec(files, finite, corr, choose).Echoes?
    ensures var matches := Search(data, finite, PATCH_SIZE, N_SAMPLES, MIN_CORRELATION, corr, choose);
      var saved := AnalysisSpec(files, finite, corr, choose).results.topMatches;
      && multiset(saved) <= multiset(matches)
      && (forall i, m :: 0 <= i < |saved| && m in multiset(matches) - multiset(saved)
            ==> Strength(saved[i]) >= Strength(m))
  {
    var matches := Search(data, finite, PATCH_SIZE, N_SAMPLES, MIN_CORRELATION, corr, choose);
    EchoesOf(files, finite, corr, choose, data);
    RankedTop(matches, SAVED);
  }

  /**
   * Every saved match of an echo report lies in one of the three predicted
   * bins: the search runs only on maps of at least 2 * 2000 finite values,
   * where every offset is within five degrees of 90, 180 or 270.
   */
  lemma EchoTopAtPredictedAngles(files: seq<seq<Fits.byte>>, finite: Fits.Sample -> bool,
                                 corr: (seq<Fits.Sample>, seq<Fits.Sample>) -> Option<real>,
                                 choose: (nat, nat) -> seq<nat>, data: seq<Fits.Sample>)
    requires Sampler(choose) && ReadsAs(files, data)
    requires AnalysisSpec(files, finite, corr, choose).Echoes?
    ensures var saved := AnalysisSpec(files, finite, corr, choose).results.topMatches;
      forall i :: 0 <= i < |saved| ==> AtPredictedAngle(saved[i].separationDegrees)
  {
    var matches := Search(data, finite, PATCH_SIZE, N_SAMPLES, MIN_CORRELATION, corr, choose);
    var saved := AnalysisSpec(files, finite, corr, choose).results.topMatches;
    EchoTopStrongest(files, finite, corr, choose, data);
    forall i | 0 <= i < |saved| ensures AtPredictedAngle(saved[i].separationDegrees) {
      assert saved[i] in multiset(saved);
      SearchAtPredictedAngles(data, finite, PATCH_SIZE, N_SAMPLES, MIN_CORRELATION, corr, choose, saved[i]);
    }
  }

  /** The mean correlation of an echo report is no larger in size than its maximum. */
  lemma EchoMeanWithinMax(files: seq<seq<Fits.byte>>, finite: Fits.Sample -> bool,
                          corr: (seq<Fits.Sample>, seq<Fits.Sample>) -> Option<real>,
                          choose: (nat, nat) -> seq<nat>)
    requires Sampler(choose)
    requires AnalysisSpec(files, finite, corr, choose).Echoes?
    ensures var r := AnalysisSpec(files, finite, corr, choose).results;
      -r.maxCorrelation <= r.meanCorrelation <= r.maxCorrelation && r.maxCorrelation >= MIN_CORRELATION
  {
    var data := Fits.ReadSpec(files[0]).value;
    var matches := Search(data, finite, PATCH_SIZE, N_SAMPLES, MIN_CORRELATION, corr, choose);
    var ranked := SortSpec(matches);
    MeanWithinMax(ranked);
    SortPermutes(matches);
    assert ranked[0] in multiset(matches);
    SearchMatches(data, finite, PATCH_SIZE, N_SAMPLES, MIN_CORRELATION, corr, choose, ranked[0]);
  }

  /**
   * The separation counts are printed exactly when some match is strong,
   * and the significance line appears exactly when a strong match lies
   * within five degrees of 90 or of 180.
   */
  lemma EvidenceMeaning(ranked: seq<Match>)
    ensures EvidenceOf(ranked).Some? <==> exists m :: m in ranked && IsStrong(m)
    ensures EvidenceOf(ranked).Some? ==>
      (Significant(EvidenceOf(ranked).value) <==>
         exists m :: m in ranked && IsStrong(m) && (Near90(m.separationDegrees) || Near180(m.separationDegrees)))
  {
    var strong := StrongMatches(ranked);
    if strong != [] {
      assert strong[0] in strong;
      StrongMembers(ranked, strong[0]);
      SignificantMeaning(ranked);
    } else if exists m :: m in ranked && IsStrong(m) {
      var m :| m in ranked && IsStrong(m);
      StrongMembers(ranked, m);
    }
  }

  /** With some strong match, the significance line appears exactly when one lies near 90 or 180 degrees. */
  lemma SignificantMeaning(ranked: seq<Match>)
    requires StrongMatches(ranked) != []
    ensures Significant(EvidenceOf(ranked).value) <==>
      exists m :: m in ranked && IsStrong(m) && (Near90(m.separationDegrees) || Near180(m.separationDegrees))
  {
    var strong := StrongMatches(ranked);
    var separations := SeparationDegrees(strong);
    CountInBinPositive(separations, 85.0, 95.0);
    CountInBinPositive(separations, 175.0, 185.0);
    if Significant(EvidenceOf(ranked).value) {
      var i :| 0 <= i < |separations| && (InBin(separations[i], 85.0, 95.0) || InBin(separations[i], 175.0, 185.0));
      assert strong[i] in strong;
      StrongMembers(ranked, strong[i]);
    }
    if exists m :: m in ranked && IsStrong(m) && (Near90(m.separationDegrees) || Near180(m.separationDegrees)) {
      var m :| m in ranked && IsStrong(m) && (Near90(m.separationDegrees) || Near180(m.separationDegrees));
      StrongMembers(ranked, m);
      var i :| 0 <= i < |strong| && strong[i] == m;
      assert InBin(separations[i], 85.0, 95.0) || InBin(separations[i], 175.0, 185.0);
    }
  }

  /**
   * The evidence of an echo report does not depend on the ranking: it is
   * present exactly when the search found a strong match, and significant
   * exactly when one of those lies near 90 or 180 degrees.
   */
  lemma EchoEvidence(files: seq<seq<Fits.byte>>, finite: Fits.Sample -> bool,
                     corr: (seq<Fits.Sample>, seq<Fits.Sample>) -> Option<real>,
                     choose: (nat, nat) -> seq<nat>, data: seq<Fits.Sample>)
    requires Sampler(choose) && ReadsAs(files, data)
    requires AnalysisSpec(files, finite, corr, choose).Echoes?
    ensures var matches := Search(data, finite, PATCH_SIZE, N_SAMPLES, MIN_CORRELATION, corr, choose);
      var e := AnalysisSpec(files, finite, corr, choose).evidence;
      && (e.Some? <==> exists m :: m in matches && IsStrong(m))
      && (e.Some? ==> (Significant(e.value) <==>
            exists m :: m in matches && IsStrong(m) && (Near90(m.separationDegrees) || Near180(m.separationDegrees))))
  {
    var matches := Search(data, finite, PATCH_SIZE, N_SAMPLES, MIN_CORRELATION, corr, choose);
    var ranked := SortSpec(matches);
    SortPermutes(matches);
    EvidenceMeaning(ranked);
    forall m ensures m in ranked <==> m in matches {
      assert m in ranked <==> m in multiset(ranked);
      assert m in matches <==> m in multiset(matches);
    }
  }
}
