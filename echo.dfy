/**
 * The echo search of the CMB analysis (`analyze_cmb_correlations`): over
 * the finite values of a temperature map of length N it compares a patch
 * of P values at each sampled start with the patches a quarter, a half
 * and three quarters of the map further on, and records every pair whose
 * correlation reaches the threshold.
 *
 * The map's values are of an abstract type `V`.  `np.isfinite` is the
 * parameter `finite`, `np.corrcoef(patch1, patch2)[0, 1]` is the
 * parameter `corr` (None stands for NaN and for an exception, both of
 * which skip the pair), and `np.random.choice` is the parameter `choose`,
 * of which only what numpy promises is assumed: `choose(m, k)` is `k`
 * distinct values below `m`.
 */
module Echo {
  import opened Wrappers

  /** One echo candidate, with the fields the search writes into its dict. */
  datatype Match = Match(
    location1: nat,
    location2: nat,
    correlation: real,
    separationPixels: nat,
    separationDegrees: real,
    patchSize: nat)

  function Abs(x: real): (r: real)
    ensures r >= 0.0 && (r == x || r == -x)
  {
    if x < 0.0 then -x else x
  }

  function Min(a: int, b: int): int {
    if a <= b then a else b
  }

  // ---------------------------------------------------------------------
  // The pieces of one comparison
  // ---------------------------------------------------------------------

  /** `cmb_data[np.isfinite(cmb_data)]`: the finite values, in their order. */
  function Finite<V>(data: seq<V>, finite: V -> bool): (r: seq<V>)
    ensures |r| <= |data|
    ensures forall i :: 0 <= i < |r| ==> finite(r[i])
  {
    if data == [] then []
    else Finite(data[..|data| - 1], finite) + (if finite(data[|data| - 1]) then [data[|data| - 1]] else [])
  }

  /** The filter keeps exactly the finite values. */
  lemma {:induction false} FiniteMembers<V>(data: seq<V>, finite: V -> bool, x: V)
    ensures x in Finite(data, finite) <==> x in data && finite(x)
  {
    if data != [] {
      var init := data[..|data| - 1];
      FiniteMembers(init, finite, x);
      assert data == init + [data[|data| - 1]];
    }
  }

  /** On a map whose values are all finite, the filter changes nothing. */
  lemma {:induction false} FiniteOfFinite<V>(data: seq<V>, finite: V -> bool)
    requires forall i :: 0 <= i < |data| ==> finite(data[i])
    ensures Finite(data, finite) == data
  {
    if data != [] {
      FiniteOfFinite(data[..|data| - 1], finite);
      assert data == data[..|data| - 1] + [data[|data| - 1]];
    }
  }

  /** `[n // 4, n // 2, 3 * n // 4]`: the offsets tried from every start. */
  function Separations(n: nat): (seps: seq<nat>)
    ensures |seps| == 3
    ensures forall k :: 0 <= k < 3 ==> 4 * seps[k] <= (k + 1) * n < 4 * seps[k] + 4
    ensures n > 0 ==> forall k :: 0 <= k < 3 ==> seps[k] < n
  {
    [n / 4, n / 2, 3 * n / 4]
  }

  /**
   * The second patch's start: `sep` further on, wrapping around the map,
   * and moved back to the last full patch when it would run off the end.
   */
  function PartnerStart(start: nat, sep: nat, n: nat, p: nat): (r: nat)
    requires 0 < n && p <= n
    ensures r + p <= n
    ensures (start + sep) % n + p <= n ==> r == (start + sep) % n
    ensures (start + sep) % n + p > n ==> r == n - p
  {
    var s := (start + sep) % n;
    if s + p > n then n - p else s
  }

  /** `360.0 * separation / len(valid_data)`, the approximate angle of an offset. */
  function Degrees(sep: nat, n: nat): (r: real)
    requires n > 0
    ensures r * (n as real) == 360.0 * (sep as real)
  {
    360.0 * (sep as real) / (n as real)
  }

  /** An offset smaller than the map is an angle in [0, 360). */
  lemma DegreesRange(sep: nat, n: nat)
    requires sep < n
    ensures 0.0 <= Degrees(sep, n) < 360.0
  {
    DivAtLeast(360.0 * (sep as real), n as real, 0.0);
    DivBelow(360.0 * (sep as real), n as real, 360.0);
  }

  lemma DivAtLeast(x: real, y: real, c: real)
    requires y > 0.0 && x >= c * y
    ensures x / y >= c
  {
  }

  lemma DivAtMost(x: real, y: real, c: real)
    requires y > 0.0 && x <= c * y
    ensures x / y <= c
  {
  }

  lemma DivBelow(x: real, y: real, c: real)
    requires y > 0.0 && x < c * y
    ensures x / y < c
  {
  }

  /** The pair is kept: the correlation is a number and reaches the threshold. */
  predicate Keep(c: Option<real>, threshold: real) {
    c.Some? && Abs(c.value) >= threshold
  }

  /**
   * The comparison of the patch at `start` with the patch `sep` further on:
   * the match it records, or None when the pair is skipped.
   */
  function MatchFor<V>(valid: seq<V>, p: nat, threshold: real, corr: (seq<V>, seq<V>) -> Option<real>,
                       start: nat, sep: nat): Option<Match>
    requires start + p < |valid|
  {
    var n := |valid|;
    var start2 := PartnerStart(start, sep, n, p);
    var c := corr(valid[start..start + p], valid[start2..start2 + p]);
    if Keep(c, threshold) then Some(Match(start, start2, c.value, sep, Degrees(sep, n), p)) else None
  }

  /** The comparison in the terms the loop computes it: partner start, then correlation. */
  lemma MatchForOf<V>(valid: seq<V>, p: nat, threshold: real, corr: (seq<V>, seq<V>) -> Option<real>,
                      start: nat, sep: nat, start2: nat, c: Option<real>)
    requires start + p < |valid| && start2 == PartnerStart(start, sep, |valid|, p)
    requires c == corr(valid[start..start + p], valid[start2..start2 + p])
    ensures MatchFor(valid, p, threshold, corr, start, sep)
         == if Keep(c, threshold) then Some(Match(start, start2, c.value, sep, Degrees(sep, |valid|), p)) else None
  {
  }

  // ---------------------------------------------------------------------
  // The whole search
  // ---------------------------------------------------------------------

  /** The matches found from one start, over the offsets `seps` in order. */
  function MatchesAt<V>(valid: seq<V>, p: nat, threshold: real, corr: (seq<V>, seq<V>) -> Option<real>,
                        start: nat, seps: seq<nat>): (ms: seq<Match>)
    requires start + p < |valid|
    ensures |ms| <= |seps|
  {
    if seps == [] then []
    else
      var last := MatchFor(valid, p, threshold, corr, start, seps[|seps| - 1]);
      MatchesAt(valid, p, threshold, corr, start, seps[..|seps| - 1])
      + (if last.Some? then [last.value] else [])
  }

  /** One more offset adds the match it yields, if any, at the end. */
  lemma MatchesAtStep<V>(valid: seq<V>, p: nat, threshold: real, corr: (seq<V>, seq<V>) -> Option<real>,
                         start: nat, seps: seq<nat>, j: nat)
    requires start + p < |valid| && j < |seps|
    ensures var m := MatchFor(valid, p, threshold, corr, start, seps[j]);
      MatchesAt(valid, p, threshold, corr, start, seps[..j + 1])
      == MatchesAt(valid, p, threshold, corr, start, seps[..j]) + (if m.Some? then [m.value] else [])
  {
    assert seps[..j + 1][..j] == seps[..j];
  }

  /** Every start leaves room for a whole patch before the end of the map. */
  predicate StartsFit(starts: seq<nat>, n: nat, p: nat) {
    forall i :: 0 <= i < |starts| ==> starts[i] + p < n
  }

  /** The matches found from the starts in order, each with the three offsets. */
  function SearchFrom<V>(valid: seq<V>, p: nat, threshold: real, corr: (seq<V>, seq<V>) -> Option<real>,
                         starts: seq<nat>): (ms: seq<Match>)
    requires StartsFit(starts, |valid|, p)
    ensures |ms| <= 3 * |starts|
  {
    if starts == [] then []
    else
      var init := starts[..|starts| - 1];
      assert StartsFit(init, |valid|, p) by {
        forall i | 0 <= i < |init| ensures init[i] + p < |valid| {
          assert init[i] == starts[i];
        }
      }
      SearchFrom(valid, p, threshold, corr, init)
      + MatchesAt(valid, p, threshold, corr, starts[|starts| - 1], Separations(|valid|))
  }

  /** `s` is `k` distinct values below `m`, as `np.random.choice(m, k, replace=False)` returns. */
  predicate IsDraw(s: seq<nat>, m: nat, k: nat) {
    && |s| == k
    && (forall i :: 0 <= i < |s| ==> s[i] < m)
    && (forall i, j :: 0 <= i < j < |s| ==> s[i] != s[j])
  }

  /** What the search relies on from the random sampler. */
  ghost predicate Sampler(choose: (nat, nat) -> seq<nat>) {
    forall m: nat, k: nat :: k <= m ==> IsDraw(choose(m, k), m, k)
  }

  /** The starts the search samples on `valid`, when it gets that far. */
  function SampleStarts(n: nat, p: nat, nSamples: nat, choose: (nat, nat) -> seq<nat>): (starts: seq<nat>)
    requires Sampler(choose) && 2 * p <= n
    ensures IsDraw(starts, n - p, Min(nSamples, n - p))
    ensures StartsFit(starts, n, p)
  {
    var maxStart := n - p;
    choose(maxStart, Min(nSamples, maxStart))
  }

  /** `analyze_cmb_correlations(cmb_data, patch_size, n_samples, min_correlation)`. */
  function Search<V>(data: seq<V>, finite: V -> bool, p: nat, nSamples: nat, threshold: real,
                     corr: (seq<V>, seq<V>) -> Option<real>, choose: (nat, nat) -> seq<nat>): (ms: seq<Match>)
    requires Sampler(choose)
    ensures |Finite(data, finite)| < 2 * p ==> ms == []
    ensures |ms| <= 3 * nSamples
    ensures 2 * p <= |Finite(data, finite)| ==> |ms| <= 3 * (|Finite(data, finite)| - p)
  {
    var valid := Finite(data, finite);
    if |valid| < 2 * p then []
    else SearchFrom(valid, p, threshold, corr, SampleStarts(|valid|, p, nSamples, choose))
  }

  /** The body of the outer loop: the three comparisons from `start1`, appending to `matches`. */
  method CompareFromStart<V>(valid: seq<V>, p: nat, threshold: real, corr: (seq<V>, seq<V>) -> Option<real>,
                             start1: nat, matches: seq<Match>) returns (matches': seq<Match>)
    requires start1 + p < |valid|
    ensures matches' == matches + MatchesAt(valid, p, threshold, corr, start1, Separations(|valid|))
  {
    var n := |valid|;
    var patch1 := valid[start1..start1 + p];
    var seps := Separations(n);
    matches' := matches;
    for j := 0 to |seps|
      invariant matches' == matches + MatchesAt(valid, p, threshold, corr, start1, seps[..j])
    {
      var sep := seps[j];
      var start2 := (start1 + sep) % n;
      if start2 + p > n {
        start2 := n - p;
      }
      assert start2 == PartnerStart(start1, sep, n, p);
      var patch2 := valid[start2..start2 + p];
      var c := corr(patch1, patch2);
      ghost var found := MatchesAt(valid, p, threshold, corr, start1, seps[..j]);
      MatchesAtStep(valid, p, threshold, corr, start1, seps, j);
      MatchForOf(valid, p, threshold, corr, start1, sep, start2, c);
      if c.Some? && Abs(c.value) >= threshold {
        var m := Match(start1, start2, c.value, sep, Degrees(sep, n), p);
        assert (matches + found) + [m] == matches + (found + [m]);
        matches' := matches' + [m];
      } else {
        assert found + [] == found;
      }
    }
    assert seps[..|seps|] == seps;
  }

  /** The search as the source runs it: a loop over the sampled starts appending to `matches`. */
  method AnalyzeCorrelations<V>(data: seq<V>, finite: V -> bool, p: nat, nSamples: nat, threshold: real,
                                corr: (seq<V>, seq<V>) -> Option<real>, choose: (nat, nat) -> seq<nat>)
    returns (matches: seq<Match>)
    requires Sampler(choose)
    ensures matches == Search(data, finite, p, nSamples, threshold, corr, choose)
  {
    var valid := Finite(data, finite);
    var n := |valid|;
    if n < 2 * p {
      return [];
    }
    var maxStart := n - p;
    var starts := choose(maxStart, Min(nSamples, maxStart));
    assert starts == SampleStarts(n, p, nSamples, choose);
    matches := [];
    for i := 0 to |starts|
      invariant StartsFit(starts[..i], n, p)
      invariant matches == SearchFrom(valid, p, threshold, corr, starts[..i])
    {
      SearchFromStep(valid, p, threshold, corr, starts, i);
      matches := CompareFromStart(valid, p, threshold, corr, starts[i], matches);
    }
    assert starts[..|starts|] == starts;
  }

  /** One more start appends the matches found from it. */
  lemma SearchFromStep<V>(valid: seq<V>, p: nat, threshold: real, corr: (seq<V>, seq<V>) -> Option<real>,
                          starts: seq<nat>, i: nat)
    requires StartsFit(starts, |valid|, p) && i < |starts|
    ensures starts[i] + p < |valid|
    ensures StartsFit(starts[..i], |valid|, p) && StartsFit(starts[..i + 1], |valid|, p)
    ensures SearchFrom(valid, p, threshold, corr, starts[..i + 1])
         == SearchFrom(valid, p, threshold, corr, starts[..i])
            + MatchesAt(valid, p, threshold, corr, starts[i], Separations(|valid|))
  {
    assert starts[..i + 1][..i] == starts[..i];
  }

  // ---------------------------------------------------------------------
  // What the search finds
  // ---------------------------------------------------------------------

  /**
   * `m` is the record of a kept comparison: the first patch starts at
   * `location1`, the second at the partner of `location1` for the offset
   * `separationPixels`, the correlation of the two patches is
   * `correlation`, it reaches the threshold, and the angle is that of the
   * offset.
   */
  predicate Recorded<V>(m: Match, valid: seq<V>, p: nat, threshold: real, corr: (seq<V>, seq<V>) -> Option<real>) {
    && m.location1 + p < |valid|
    && m.location2 == PartnerStart(m.location1, m.separationPixels, |valid|, p)
    && m.patchSize == p
    && m.separationDegrees == Degrees(m.separationPixels, |valid|)
    && corr(valid[m.location1..m.location1 + p], valid[m.location2..m.location2 + p]) == Some(m.correlation)
    && Abs(m.correlation) >= threshold
  }

  lemma MatchForRecorded<V>(valid: seq<V>, p: nat, threshold: real, corr: (seq<V>, seq<V>) -> Option<real>,
                            start: nat, sep: nat, m: Match)
    requires start + p < |valid|
    ensures MatchFor(valid, p, threshold, corr, start, sep) == Some(m) <==>
      m.location1 == start && m.separationPixels == sep && Recorded(m, valid, p, threshold, corr)
  {
  }

  /** A match comes from one start exactly when it records a kept comparison from it at one of the offsets. */
  lemma {:induction false} MatchesAtMembers<V>(valid: seq<V>, p: nat, threshold: real,
                                               corr: (seq<V>, seq<V>) -> Option<real>,
                                               start: nat, seps: seq<nat>, m: Match)
    requires start + p < |valid|
    ensures m in MatchesAt(valid, p, threshold, corr, start, seps) <==>
      m.location1 == start && m.separationPixels in seps && Recorded(m, valid, p, threshold, corr)
  {
    if seps != [] {
      var init := seps[..|seps| - 1];
      var last := seps[|seps| - 1];
      MatchesAtMembers(valid, p, threshold, corr, start, init, m);
      MatchForRecorded(valid, p, threshold, corr, start, last, m);
      assert seps == init + [last];
    }
  }

  /** A match is found exactly when it records a kept comparison from a sampled start at one of the three offsets. */
  lemma {:induction false} SearchFromMembers<V>(valid: seq<V>, p: nat, threshold: real,
                                                corr: (seq<V>, seq<V>) -> Option<real>,
                                                starts: seq<nat>, m: Match)
    requires StartsFit(starts, |valid|, p)
    ensures m in SearchFrom(valid, p, threshold, corr, starts) <==>
      && m.location1 in starts
      && m.separationPixels in Separations(|valid|)
      && Recorded(m, valid, p, threshold, corr)
  {
    if starts != [] {
      var init := starts[..|starts| - 1];
      var last := starts[|starts| - 1];
      assert StartsFit(init, |valid|, p) by {
        forall i | 0 <= i < |init| ensures init[i] + p < |valid| {
          assert init[i] == starts[i];
        }
      }
      SearchFromMembers(valid, p, threshold, corr, init, m);
      MatchesAtMembers(valid, p, threshold, corr, last, Separations(|valid|), m);
      assert starts == init + [last];
    }
  }

  /**
   * Every match of the search records a kept comparison between two whole
   * patches of the finite values, the first starting below N - P, at one of
   * the three offsets, with an angle in [0, 360).
   */
  lemma SearchMatches<V>(data: seq<V>, finite: V -> bool, p: nat, nSamples: nat, threshold: real,
                         corr: (seq<V>, seq<V>) -> Option<real>, choose: (nat, nat) -> seq<nat>, m: Match)
    requires Sampler(choose)
    requires m in Search(data, finite, p, nSamples, threshold, corr, choose)
    ensures var n := |Finite(data, finite)|;
      && 2 * p <= n
      && m.location1 < n - p
      && m.location2 + p <= n
      && m.separationPixels in Separations(n)
      && 0.0 <= m.separationDegrees < 360.0
      && Recorded(m, Finite(data, finite), p, threshold, corr)
  {
    var valid := Finite(data, finite);
    var n := |valid|;
    var starts := SampleStarts(n, p, nSamples, choose);
    SearchFromMembers(valid, p, threshold, corr, starts, m);
    DegreesRange(m.separationPixels, n);
  }

  /** The matches at or above a threshold, in their order. */
  function AtLeast(ms: seq<Match>, threshold: real): (r: seq<Match>)
    ensures |r| <= |ms|
    ensures forall i :: 0 <= i < |r| ==> Abs(r[i].correlation) >= threshold
  {
    if ms == [] then []
    else
      AtLeast(ms[..|ms| - 1], threshold)
      + (if Abs(ms[|ms| - 1].correlation) >= threshold then [ms[|ms| - 1]] else [])
  }

  lemma {:induction false} AtLeastAppend(a: seq<Match>, b: seq<Match>, threshold: real)
    ensures AtLeast(a + b, threshold) == AtLeast(a, threshold) + AtLeast(b, threshold)
  {
    if b != [] {
      var init := b[..|b| - 1];
      AtLeastAppend(a, init, threshold);
      assert (a + b)[..|a + b| - 1] == a + init;
    } else {
      assert a + b == a;
    }
  }

  /** Under a higher threshold a comparison yields the same match or none. */
  lemma MatchForThreshold<V>(valid: seq<V>, p: nat, t1: real, t2: real, corr: (seq<V>, seq<V>) -> Option<real>,
                             start: nat, sep: nat)
    requires start + p < |valid| && t1 <= t2
    ensures var m1 := MatchFor(valid, p, t1, corr, start, sep);
      MatchFor(valid, p, t2, corr, start, sep)
      == if m1.Some? && Abs(m1.value.correlation) >= t2 then m1 else None
  {
  }

  lemma {:induction false} MatchesAtThreshold<V>(valid: seq<V>, p: nat, t1: real, t2: real,
                                                 corr: (seq<V>, seq<V>) -> Option<real>,
                                                 start: nat, seps: seq<nat>)
    requires start + p < |valid| && t1 <= t2
    ensures MatchesAt(valid, p, t2, corr, start, seps) == AtLeast(MatchesAt(valid, p, t1, corr, start, seps), t2)
  {
    if seps != [] {
      var init := seps[..|seps| - 1];
      var m1 := MatchFor(valid, p, t1, corr, start, seps[|seps| - 1]);
      var tail1 := if m1.Some? then [m1.value] else [];
      MatchesAtThreshold(valid, p, t1, t2, corr, start, init);
      MatchForThreshold(valid, p, t1, t2, corr, start, seps[|seps| - 1]);
      AtLeastAppend(MatchesAt(valid, p, t1, corr, start, init), tail1, t2);
      AtLeastSingle(tail1, t2);
    }
  }

  lemma AtLeastSingle(ms: seq<Match>, threshold: real)
    requires |ms| <= 1
    ensures AtLeast(ms, threshold) == if ms != [] && Abs(ms[0].correlation) >= threshold then ms else []
  {
    if ms != [] {
      assert ms[..0] == [];
    }
  }

  lemma {:induction false} SearchFromThreshold<V>(valid: seq<V>, p: nat, t1: real, t2: real,
                                                  corr: (seq<V>, seq<V>) -> Option<real>, starts: seq<nat>)
    requires StartsFit(starts, |valid|, p) && t1 <= t2
    ensures SearchFrom(valid, p, t2, corr, starts) == AtLeast(SearchFrom(valid, p, t1, corr, starts), t2)
  {
    if starts != [] {
      var init := starts[..|starts| - 1];
      var last := starts[|starts| - 1];
      assert StartsFit(init, |valid|, p) by {
        forall i | 0 <= i < |init| ensures init[i] + p < |valid| {
          assert init[i] == starts[i];
        }
      }
      SearchFromThreshold(valid, p, t1, t2, corr, init);
      MatchesAtThreshold(valid, p, t1, t2, corr, last, Separations(|valid|));
      AtLeastAppend(SearchFrom(valid, p, t1, corr, init),
                    MatchesAt(valid, p, t1, corr, last, Separations(|valid|)), t2);
    }
  }

  /**
   * Raising the threshold keeps exactly the matches that reach the new
   * one, in the same order: the result is a sub-list of the old result.
   */
  lemma SearchThreshold<V>(data: seq<V>, finite: V -> bool, p: nat, nSamples: nat, t1: real, t2: real,
                           corr: (seq<V>, seq<V>) -> Option<real>, choose: (nat, nat) -> seq<nat>)
    requires Sampler(choose) && t1 <= t2
    ensures Search(data, finite, p, nSamples, t2, corr, choose)
      == AtLeast(Search(data, finite, p, nSamples, t1, corr, choose), t2)
  {
    var valid := Finite(data, finite);
    if |valid| >= 2 * p {
      SearchFromThreshold(valid, p, t1, t2, corr, SampleStarts(|valid|, p, nSamples, choose));
    }
  }

  // ---------------------------------------------------------------------
  // The predicted angles
  // ---------------------------------------------------------------------

  /** The closed bins `85 <= s <= 95`, `175 <= s <= 185` and `265 <= s <= 275`. */
  predicate Near90(deg: real) { 85.0 <= deg <= 95.0 }
  predicate Near180(deg: real) { 175.0 <= deg <= 185.0 }
  predicate Near270(deg: real) { 265.0 <= deg <= 275.0 }

  predicate AtPredictedAngle(deg: real) {
    Near90(deg) || Near180(deg) || Near270(deg)
  }

  /** The bins are pairwise disjoint. */
  lemma BinsDisjoint(deg: real)
    ensures !(Near90(deg) && Near180(deg)) && !(Near90(deg) && Near270(deg)) && !(Near180(deg) && Near270(deg))
  {
  }

  /** `k * n // 4` for k = 1, 2, 3 is an angle within five degrees of `90 * k` once the map has 54 values. */
  lemma SeparationAngles(n: nat)
    requires n >= 54
    ensures Near90(Degrees(Separations(n)[0], n))
    ensures Near180(Degrees(Separations(n)[1], n))
    ensures Near270(Degrees(Separations(n)[2], n))
  {
    var seps := Separations(n);
    var y := n as real;
    forall k | 0 <= k < 3
      ensures (90 * (k + 1) - 5) * n <= 360 * seps[k] <= 90 * (k + 1) * n
    {
      assert 4 * seps[k] <= (k + 1) * n < 4 * seps[k] + 4;
    }
    DivAtLeast(360.0 * (seps[0] as real), y, 85.0);
    DivAtMost(360.0 * (seps[0] as real), y, 95.0);
    DivAtLeast(360.0 * (seps[1] as real), y, 175.0);
    DivAtMost(360.0 * (seps[1] as real), y, 185.0);
    DivAtLeast(360.0 * (seps[2] as real), y, 265.0);
    DivAtMost(360.0 * (seps[2] as real), y, 275.0);
  }

  /** On a map of 54 or more finite values, every match lies in one of the three predicted bins. */
  lemma SearchAtPredictedAngles<V>(data: seq<V>, finite: V -> bool, p: nat, nSamples: nat, threshold: real,
                                   corr: (seq<V>, seq<V>) -> Option<real>, choose: (nat, nat) -> seq<nat>, m: Match)
    requires Sampler(choose) && |Finite(data, finite)| >= 54
    requires m in Search(data, finite, p, nSamples, threshold, corr, choose)
    ensures AtPredictedAngle(m.separationDegrees)
  {
    var n := |Finite(data, finite)|;
    SearchMatches(data, finite, p, nSamples, threshold, corr, choose, m);
    SeparationAngles(n);
  }

  /**
   * The bound of 54 is tight: on 53 values the offsets 13 and 26 still land
   * in the 90- and 180-degree bins, but 3 * 53 // 4 = 39 is 264.9 degrees.
   */
  lemma SmallMapMissesBin()
    ensures Separations(53) == [13, 26, 39]
    ensures Near90(Degrees(13, 53)) && Near180(Degrees(26, 53))
    ensures !AtPredictedAngle(Degrees(39, 53))
  {
  }
}
