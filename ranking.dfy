/**
 * The ranking and summary in the CMB analysis's `main`: the matches are
 * sorted in place by the strength of their correlation, strongest first,
 * with ties left in the order the search found them; the top ten are
 * shown, the top twenty saved, and the strong matches (|r| > 0.2) counted
 * and binned by angle.
 */
module Ranking {
  import opened Wrappers
  import opened Echo

  /** The sort key, `abs(m['correlation'])`. */
  function Strength(m: Match): real {
    Abs(m.correlation)
  }

  /** Strongest first. */
  predicate SortedByStrength(ms: seq<Match>) {
    forall i, j :: 0 <= i < j < |ms| ==> Strength(ms[i]) >= Strength(ms[j])
  }

  // ---------------------------------------------------------------------
  // The stable sort, `matches.sort(key=..., reverse=True)`
  // ---------------------------------------------------------------------

  /**
   * `x` placed into `ms` just after the last element at least as strong as
   * `x`: the step of a stable insertion sort, strongest first.
   */
  function Insert(ms: seq<Match>, x: Match): (r: seq<Match>)
    ensures |r| == |ms| + 1
  {
    if ms == [] then [x]
    else if Strength(ms[|ms| - 1]) >= Strength(x) then ms + [x]
    else Insert(ms[..|ms| - 1], x) + [ms[|ms| - 1]]
  }

  /** The matches in the order the stable sort leaves them. */
  function SortSpec(ms: seq<Match>): (r: seq<Match>)
    ensures |r| == |ms|
  {
    if ms == [] then [] else Insert(SortSpec(ms[..|ms| - 1]), ms[|ms| - 1])
  }

  lemma {:induction false} InsertPermutes(ms: seq<Match>, x: Match)
    ensures multiset(Insert(ms, x)) == multiset(ms) + multiset{x}
  {
    if ms != [] && Strength(ms[|ms| - 1]) < Strength(x) {
      var init := ms[..|ms| - 1];
      InsertPermutes(init, x);
      assert ms == init + [ms[|ms| - 1]];
    }
  }

  /** Sorting only reorders the matches. */
  lemma {:induction false} SortPermutes(ms: seq<Match>)
    ensures multiset(SortSpec(ms)) == multiset(ms)
  {
    if ms != [] {
      var init := ms[..|ms| - 1];
      SortPermutes(init);
      InsertPermutes(SortSpec(init), ms[|ms| - 1]);
      assert ms == init + [ms[|ms| - 1]];
    }
  }

  lemma {:induction false} InsertSorted(ms: seq<Match>, x: Match)
    requires SortedByStrength(ms)
    ensures SortedByStrength(Insert(ms, x))
  {
    if ms != [] {
      var last := ms[|ms| - 1];
      var init := ms[..|ms| - 1];
      if Strength(last) >= Strength(x) {
        var r := ms + [x];
        forall i, j | 0 <= i < j < |r| ensures Strength(r[i]) >= Strength(r[j]) {
          if j == |ms| && i < |ms| - 1 {
            assert Strength(ms[i]) >= Strength(last);
          }
        }
      } else {
        var s := Insert(init, x);
        InsertSorted(init, x);
        InsertPermutes(init, x);
        var r := s + [last];
        forall i | 0 <= i < |s| ensures Strength(s[i]) >= Strength(last) {
          assert s[i] in multiset(init) + multiset{x};
          if s[i] != x {
            var k :| 0 <= k < |init| && init[k] == s[i];
          }
        }
        assert SortedByStrength(r);
      }
    }
  }

  /** The sort leaves the matches strongest first. */
  lemma {:induction false} SortSorted(ms: seq<Match>)
    ensures SortedByStrength(SortSpec(ms))
  {
    if ms != [] {
      SortSorted(ms[..|ms| - 1]);
      InsertSorted(SortSpec(ms[..|ms| - 1]), ms[|ms| - 1]);
    }
  }

  /** The matches of strength exactly `k`, in their order. */
  function WithStrength(ms: seq<Match>, k: real): (r: seq<Match>)
    ensures |r| <= |ms|
    ensures forall i :: 0 <= i < |r| ==> Strength(r[i]) == k
  {
    if ms == [] then []
    else WithStrength(ms[..|ms| - 1], k) + (if Strength(ms[|ms| - 1]) == k then [ms[|ms| - 1]] else [])
  }

  lemma {:induction false} InsertStable(ms: seq<Match>, x: Match, k: real)
    ensures WithStrength(Insert(ms, x), k) == WithStrength(ms, k) + (if Strength(x) == k then [x] else [])
  {
    if ms == [] {
      assert Insert(ms, x) == [x];
      assert [x][..0] == [];
    } else {
      var last := ms[|ms| - 1];
      var init := ms[..|ms| - 1];
      if Strength(last) >= Strength(x) {
        assert (ms + [x])[..|ms|] == ms;
      } else {
        InsertStable(init, x, k);
        var s := Insert(init, x);
        assert (s + [last])[..|s|] == s;
      }
    }
  }

  /**
   * The sort is stable: the matches of any one strength come out in the
   * order they went in.  With SortSorted and SortPermutes this fixes the
   * sorted list completely.
   */
  lemma {:induction false} SortStable(ms: seq<Match>, k: real)
    ensures WithStrength(SortSpec(ms), k) == WithStrength(ms, k)
  {
    if ms != [] {
      var init := ms[..|ms| - 1];
      SortStable(init, k);
      InsertStable(SortSpec(init), ms[|ms| - 1], k);
    }
  }

  lemma InsertAfterStronger(ms: seq<Match>, j: nat, x: Match)
    requires j <= |ms|
    requires j == 0 || Strength(ms[j - 1]) >= Strength(x)
    ensures Insert(ms[..j], x) == ms[..j] + [x]
  {
  }

  lemma InsertPastWeaker(ms: seq<Match>, j: nat, x: Match)
    requires 0 < j <= |ms| && Strength(ms[j - 1]) < Strength(x)
    ensures Insert(ms[..j], x) == Insert(ms[..j - 1], x) + [ms[j - 1]]
    ensures Insert(ms[..j], x) + ms[j..] == Insert(ms[..j - 1], x) + ms[j - 1..]
  {
    assert ms[..j][..j - 1] == ms[..j - 1];
    assert ms[j - 1..] == [ms[j - 1]] + ms[j..];
  }

  /** One pass of the insertion sort: `a[i]` moves down into the sorted `a[..i]`. */
  method InsertInto(a: array<Match>, i: nat)
    requires i < a.Length
    modifies a
    ensures a[..] == Insert(old(a[..i]), old(a[i])) + old(a[i + 1..])
  {
    ghost var sorted := a[..i];
    ghost var rest := a[i + 1..];
    var x := a[i];
    var j := i;
    assert a[j + 1..] == sorted[j..] + rest;
    while j > 0 && Strength(a[j - 1]) < Strength(x)
      invariant 0 <= j <= i
      invariant a[..j] == sorted[..j]
      invariant a[j + 1..] == sorted[j..] + rest
      invariant Insert(sorted, x) == Insert(sorted[..j], x) + sorted[j..]
    {
      InsertPastWeaker(sorted, j, x);
      ShiftStep(a[..], sorted, rest, j);
      a[j] := a[j - 1];
      j := j - 1;
    }
    PlaceStep(a[..], sorted, rest, j, x);
    a[j] := x;
    InsertAfterStronger(sorted, j, x);
  }

  /** Writing `x` into the gap at `j` gives the sorted prefix, `x`, and the shifted suffix. */
  lemma PlaceStep(s: seq<Match>, sorted: seq<Match>, rest: seq<Match>, j: nat, x: Match)
    requires j <= |sorted| && j < |s|
    requires s[..j] == sorted[..j] && s[j + 1..] == sorted[j..] + rest
    ensures s[j := x] == (sorted[..j] + [x] + sorted[j..]) + rest
  {
    var t := s[j := x];
    assert t == s[..j] + [x] + s[j + 1..];
  }

  /** Copying the element below the gap into it moves the gap down by one. */
  lemma ShiftStep(s: seq<Match>, sorted: seq<Match>, rest: seq<Match>, j: nat)
    requires 0 < j <= |sorted| && j < |s|
    requires s[..j] == sorted[..j] && s[j + 1..] == sorted[j..] + rest
    ensures var t := s[j := s[j - 1]];
      t[..j - 1] == sorted[..j - 1] && t[j..] == sorted[j - 1..] + rest
  {
    var t := s[j := s[j - 1]];
    assert t[j..] == [s[j - 1]] + s[j + 1..];
    assert s[j - 1] == sorted[j - 1];
    assert sorted[j - 1..] == [sorted[j - 1]] + sorted[j..];
  }

  /** The state after i passes, split where the next pass works. */
  lemma SortedPrefixStep(t: seq<Match>, s0: seq<Match>, i: nat)
    requires i < |s0| && t == SortSpec(s0[..i]) + s0[i..]
    ensures t[..i] == SortSpec(s0[..i]) && t[i] == s0[i] && t[i + 1..] == s0[i + 1..]
    ensures Insert(t[..i], t[i]) + t[i + 1..] == SortSpec(s0[..i + 1]) + s0[i + 1..]
  {
    assert s0[..i + 1][..i] == s0[..i];
  }

  /** `matches.sort(key=lambda x: abs(x['correlation']), reverse=True)`, as an insertion sort in place. */
  method SortByStrength(a: array<Match>)
    modifies a
    ensures a[..] == SortSpec(old(a[..]))
  {
    ghost var s0 := a[..];
    for i := 0 to a.Length
      invariant a[..] == SortSpec(s0[..i]) + s0[i..]
    {
      SortedPrefixStep(a[..], s0, i);
      InsertInto(a, i);
    }
    assert s0[..a.Length] == s0;
  }

  // ---------------------------------------------------------------------
  // Slices, counts and the summary statistics
  // ---------------------------------------------------------------------

  /** `matches[:k]`: the first `k` matches, or all of them when there are fewer. */
  function Top(ms: seq<Match>, k: nat): (r: seq<Match>)
    ensures r <= ms && |r| == Min(k, |ms|)
  {
    ms[..Min(k, |ms|)]
  }

  /** In a ranked list no match left out of the top `k` is stronger than one in it. */
  lemma TopIsStrongest(ms: seq<Match>, k: nat, x: Match, y: Match)
    requires SortedByStrength(ms)
    requires x in Top(ms, k) && y in ms[|Top(ms, k)|..]
    ensures Strength(x) >= Strength(y)
  {
    var t := |Top(ms, k)|;
    var i :| 0 <= i < t && ms[..t][i] == x;
    var j :| 0 <= j < |ms| - t && ms[t..][j] == y;
    assert ms[i] == x && ms[t + j] == y;
  }

  /** The threshold of a strong match: `abs(m['correlation']) > 0.2`, strictly. */
  const STRONG: real := 0.2

  predicate IsStrong(m: Match) {
    Strength(m) > STRONG
  }

  /** `[m for m in matches if abs(m['correlation']) > 0.2]`. */
  function StrongMatches(ms: seq<Match>): (r: seq<Match>)
    ensures |r| <= |ms|
    ensures forall i :: 0 <= i < |r| ==> IsStrong(r[i])
  {
    if ms == [] then []
    else StrongMatches(ms[..|ms| - 1]) + (if IsStrong(ms[|ms| - 1]) then [ms[|ms| - 1]] else [])
  }

  lemma {:induction false} StrongMembers(ms: seq<Match>, m: Match)
    ensures m in StrongMatches(ms) <==> m in ms && IsStrong(m)
  {
    if ms != [] {
      var init := ms[..|ms| - 1];
      StrongMembers(init, m);
      assert ms == init + [ms[|ms| - 1]];
    }
  }

  /** In a ranked list the strong matches are exactly its first ones. */
  lemma {:induction false} StrongArePrefix(ms: seq<Match>)
    requires SortedByStrength(ms)
    ensures StrongMatches(ms) == ms[..|StrongMatches(ms)|]
  {
    if ms != [] {
      var init := ms[..|ms| - 1];
      var last := ms[|ms| - 1];
      assert SortedByStrength(init);
      StrongArePrefix(init);
      if IsStrong(last) {
        forall i | 0 <= i < |init| ensures IsStrong(init[i]) {
          assert Strength(ms[i]) >= Strength(last);
        }
        AllStrong(init);
        assert ms == init + [last];
      }
    }
  }

  lemma {:induction false} AllStrong(ms: seq<Match>)
    requires forall i :: 0 <= i < |ms| ==> IsStrong(ms[i])
    ensures StrongMatches(ms) == ms
  {
    if ms != [] {
      AllStrong(ms[..|ms| - 1]);
      assert ms == ms[..|ms| - 1] + [ms[|ms| - 1]];
    }
  }

  lemma {:induction false} InsertStrongCount(ms: seq<Match>, x: Match)
    ensures |StrongMatches(Insert(ms, x))| == |StrongMatches(ms)| + (if IsStrong(x) then 1 else 0)
  {
    if ms == [] {
      assert [x][..0] == [];
    } else {
      var last := ms[|ms| - 1];
      var init := ms[..|ms| - 1];
      if Strength(last) >= Strength(x) {
        assert (ms + [x])[..|ms|] == ms;
      } else {
        InsertStrongCount(init, x);
        var s := Insert(init, x);
        assert (s + [last])[..|s|] == s;
      }
    }
  }

  /** Ranking does not change how many matches are strong. */
  lemma {:induction false} SortKeepsStrongCount(ms: seq<Match>)
    ensures |StrongMatches(SortSpec(ms))| == |StrongMatches(ms)|
  {
    if ms != [] {
      var init := ms[..|ms| - 1];
      SortKeepsStrongCount(init);
      InsertStrongCount(SortSpec(init), ms[|ms| - 1]);
    }
  }

  /** `[m['correlation'] for m in matches]`: one entry per match, in order. */
  function Correlations(ms: seq<Match>): (r: seq<real>)
    ensures |r| == |ms| && forall i :: 0 <= i < |ms| ==> r[i] == ms[i].correlation
  {
    seq(|ms|, i requires 0 <= i < |ms| => ms[i].correlation)
  }

  /** `[m['separation_degrees'] for m in matches]`: one entry per match, in order. */
  function SeparationDegrees(ms: seq<Match>): (r: seq<real>)
    ensures |r| == |ms| && forall i :: 0 <= i < |ms| ==> r[i] == ms[i].separationDegrees
  {
    seq(|ms|, i requires 0 <= i < |ms| => ms[i].separationDegrees)
  }

  predicate InBin(x: real, lo: real, hi: real) {
    lo <= x <= hi
  }

  /** `sum(1 for s in xs if lo <= s <= hi)`. */
  function CountInBin(xs: seq<real>, lo: real, hi: real): (c: nat)
    ensures c <= |xs|
  {
    if xs == [] then 0
    else CountInBin(xs[..|xs| - 1], lo, hi) + (if InBin(xs[|xs| - 1], lo, hi) then 1 else 0)
  }

  /** A bin's count is positive exactly when some value lies in the bin. */
  lemma {:induction false} CountInBinPositive(xs: seq<real>, lo: real, hi: real)
    ensures CountInBin(xs, lo, hi) > 0 <==> exists i :: 0 <= i < |xs| && InBin(xs[i], lo, hi)
  {
    if xs != [] {
      var init := xs[..|xs| - 1];
      CountInBinPositive(init, lo, hi);
      if CountInBin(init, lo, hi) > 0 {
        var i :| 0 <= i < |init| && InBin(init[i], lo, hi);
        assert xs[i] == init[i];
      }
      if exists i :: 0 <= i < |xs| && InBin(xs[i], lo, hi) {
        var i :| 0 <= i < |xs| && InBin(xs[i], lo, hi);
        if i < |init| {
          assert init[i] == xs[i];
        }
      }
    }
  }

  /** `np.max(np.abs(correlations))`; numpy raises on an empty list, which `main` never passes. */
  function MaxStrength(ms: seq<Match>): (r: real)
    requires ms != []
    ensures forall i :: 0 <= i < |ms| ==> Strength(ms[i]) <= r
    ensures exists i :: 0 <= i < |ms| && Strength(ms[i]) == r
  {
    var last := Strength(ms[|ms| - 1]);
    if |ms| == 1 then last
    else
      var m := MaxStrength(ms[..|ms| - 1]);
      assert forall i :: 0 <= i < |ms| - 1 ==> ms[..|ms| - 1][i] == ms[i];
      if m >= last then m else last
  }

  function Sum(xs: seq<real>): real {
    if xs == [] then 0.0 else Sum(xs[..|xs| - 1]) + xs[|xs| - 1]
  }

  /** `np.mean(xs)`; numpy gives NaN on an empty list, which `main` never passes. */
  function Mean(xs: seq<real>): real
    requires xs != []
  {
    Sum(xs) / (|xs| as real)
  }

  lemma {:induction false} SumBound(xs: seq<real>, bound: real)
    requires forall i :: 0 <= i < |xs| ==> -bound <= xs[i] <= bound
    ensures -(|xs| as real) * bound <= Sum(xs) <= (|xs| as real) * bound
  {
    if xs != [] {
      var init := xs[..|xs| - 1];
      assert forall i :: 0 <= i < |init| ==> init[i] == xs[i];
      SumBound(init, bound);
      var n := |init| as real;
      assert xs == init + [xs[|xs| - 1]];
      assert Sum(xs) == Sum(init) + xs[|xs| - 1];
      assert (|xs| as real) * bound == n * bound + bound;
    }
  }

  /** The mean correlation is no larger in size than the strongest correlation. */
  lemma MeanWithinMax(ms: seq<Match>)
    requires ms != []
    ensures -MaxStrength(ms) <= Mean(Correlations(ms)) <= MaxStrength(ms)
  {
    var xs := Correlations(ms);
    var bound := MaxStrength(ms);
    forall i | 0 <= i < |xs| ensures -bound <= xs[i] <= bound {
      assert Strength(ms[i]) <= bound;
    }
    MeanBound(xs, bound);
  }

  /** A mean lies within any bound on the values' size. */
  lemma MeanBound(xs: seq<real>, bound: real)
    requires xs != []
    requires forall i :: 0 <= i < |xs| ==> -bound <= xs[i] <= bound
    ensures -bound <= Mean(xs) <= bound
  {
    var n := |xs| as real;
    SumBound(xs, bound);
    assert -n * bound == (-bound) * n;
    DivAtMost(Sum(xs), n, bound);
    DivAtLeast(Sum(xs), n, -bound);
  }
}
