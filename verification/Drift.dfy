/** The two-sample Kolmogorov-Smirnov statistic (ml/monitoring/drift.py): the two-pointer
    walk, against empirical distribution functions. Floats are modelled as reals. */
module Drift {

  // ---------------------------------------------------------------------------
  // Empirical distributions
  // ---------------------------------------------------------------------------

  function CountLe(s: seq<real>, x: real): nat {
    if s == [] then 0 else (if s[0] <= x then 1 else 0) + CountLe(s[1..], x)
  }

  function CountLt(s: seq<real>, x: real): nat {
    if s == [] then 0 else (if s[0] < x then 1 else 0) + CountLt(s[1..], x)
  }

  /** The share of the sample at or below `x`, and strictly below it. */
  function F(s: seq<real>, x: real): real
    requires s != []
  {
    Share(CountLe(s, x), |s|)
  }

  function FBelow(s: seq<real>, x: real): real
    requires s != []
  {
    Share(CountLt(s, x), |s|)
  }

  function Share(k: nat, n: nat): real
    requires n > 0
  {
    k as real / n as real
  }

  ghost predicate BoundsDistance(a: seq<real>, b: seq<real>, m: real)
    requires a != [] && b != []
  {
    forall x: real :: -m <= F(a, x) - F(b, x) <= m
  }

  /** At a value of both samples, stepping through all of `a` first overshoots to this. */
  ghost predicate BoundsTies(a: seq<real>, b: seq<real>, m: real)
    requires a != [] && b != []
  {
    forall v: real | v in a && v in b :: F(a, v) - FBelow(b, v) <= m
  }

  /** `d` is the supremum of |Fa(x) - Fb(x)|. */
  ghost predicate IsKS(a: seq<real>, b: seq<real>, d: real)
    requires a != [] && b != []
  {
    BoundsDistance(a, b, d) && forall m: real :: BoundsDistance(a, b, m) ==> d <= m
  }

  /** `d` is the supremum of the distances and of the overshoots at ties. */
  ghost predicate IsTieKS(a: seq<real>, b: seq<real>, d: real)
    requires a != [] && b != []
  {
    && BoundsDistance(a, b, d) && BoundsTies(a, b, d)
    && forall m: real :: BoundsDistance(a, b, m) && BoundsTies(a, b, m) ==> d <= m
  }

  // ---------------------------------------------------------------------------
  // Counting and dividing
  // ---------------------------------------------------------------------------

  lemma ShareMonotone(j: nat, k: nat, n: nat)
    requires n > 0 && j <= k
    ensures Share(j, n) <= Share(k, n)
  {
    var x, y, m := j as real, k as real, n as real;
    assert (y - x) / m >= 0.0;
    assert y / m - x / m == (y - x) / m;
  }

  lemma ShareRange(k: nat, n: nat)
    requires n > 0 && k <= n
    ensures 0.0 <= Share(k, n) <= 1.0 && Share(n, n) == 1.0 && Share(0, n) == 0.0
  {
    ShareMonotone(0, k, n);
    ShareMonotone(k, n, n);
  }

  lemma {:induction false} CountRange(s: seq<real>, x: real)
    ensures CountLt(s, x) <= CountLe(s, x) <= |s|
  {
    if s != [] { CountRange(s[1..], x); }
  }

  lemma {:induction false} CountAtLeast(s: seq<real>, n: nat, x: real)
    requires n <= |s|
    ensures (forall p | 0 <= p < n :: s[p] <= x) ==> CountLe(s, x) >= n
    ensures (forall p | 0 <= p < n :: s[p] < x) ==> CountLt(s, x) >= n
  {
    if n > 0 {
      CountAtLeast(s[1..], n - 1, x);
      assert forall p | 0 <= p < n - 1 :: s[1..][p] == s[p + 1];
    }
  }

  lemma {:induction false} CountAtMost(s: seq<real>, n: nat, x: real)
    requires n <= |s|
    ensures (forall p | n <= p < |s| :: s[p] > x) ==> CountLe(s, x) <= n
    ensures (forall p | n <= p < |s| :: s[p] >= x) ==> CountLt(s, x) <= n
  {
    if s != [] {
      assert forall p | 0 <= p < |s| - 1 :: s[1..][p] == s[p + 1];
      CountAtMost(s[1..], if n == 0 then 0 else n - 1, x);
    }
  }

  lemma {:induction false} NoTieCounts(s: seq<real>, x: real)
    requires x !in s
    ensures CountLt(s, x) == CountLe(s, x)
  {
    if s != [] {
      assert s[0] in s;
      NoTieCounts(s[1..], x);
    }
  }

  // ---------------------------------------------------------------------------
  // sorted()
  // ---------------------------------------------------------------------------

  predicate Ascending(s: seq<real>) { forall i, j | 0 <= i < j < |s| :: s[i] <= s[j] }

  function Insert(x: real, s: seq<real>): seq<real> {
    if s == [] || x <= s[0] then [x] + s else [s[0]] + Insert(x, s[1..])
  }

  function Sorted(s: seq<real>): seq<real> {
    if s == [] then [] else Insert(s[0], Sorted(s[1..]))
  }

  lemma {:induction false} InsertOK(x: real, s: seq<real>)
    requires Ascending(s)
    ensures var r := Insert(x, s);
      Ascending(r) && |r| == |s| + 1 && forall y :: y in r <==> y == x || y in s
  {
    if s != [] && x > s[0] {
      InsertOK(x, s[1..]);
      var r := Insert(x, s[1..]);
      assert s == [s[0]] + s[1..];
      assert forall k | 0 <= k < |s[1..]| :: s[0] <= s[1..][k];
      forall k | 0 <= k < |r| ensures s[0] <= r[k] { assert r[k] in r; }
    }
  }

  lemma {:induction false} InsertCounts(x: real, s: seq<real>, y: real)
    ensures CountLe(Insert(x, s), y) == CountLe(s, y) + (if x <= y then 1 else 0)
    ensures CountLt(Insert(x, s), y) == CountLt(s, y) + (if x < y then 1 else 0)
  {
    var r := Insert(x, s);
    if s == [] || x <= s[0] {
      assert r[1..] == s;
    } else {
      InsertCounts(x, s[1..], y);
      assert r[1..] == Insert(x, s[1..]);
    }
  }

  lemma {:induction false} SortedOK(s: seq<real>)
    ensures Ascending(Sorted(s)) && |Sorted(s)| == |s|
    ensures forall y :: y in Sorted(s) <==> y in s
  {
    if s != [] {
      SortedOK(s[1..]);
      InsertOK(s[0], Sorted(s[1..]));
      assert s == [s[0]] + s[1..];
    }
  }

  lemma {:induction false} SortedCounts(s: seq<real>, y: real)
    ensures CountLe(Sorted(s), y) == CountLe(s, y) && CountLt(Sorted(s), y) == CountLt(s, y)
  {
    if s != [] {
      SortedCounts(s[1..], y);
      InsertCounts(s[0], Sorted(s[1..]), y);
    }
  }

  // ---------------------------------------------------------------------------
  // The walk
  // ---------------------------------------------------------------------------

  /** The first `i` of `a` and `j` of `b` have been taken, smaller values first and `a`
      first among equals. */
  predicate Taken(a: seq<real>, b: seq<real>, i: nat, j: nat) {
    && i <= |a| && j <= |b| && Ascending(a) && Ascending(b)
    && (forall p, q | 0 <= p < i && j <= q < |b| :: a[p] <= b[q])
    && (forall p, q | i <= p < |a| && 0 <= q < j :: b[q] < a[p])
  }

  function Gap(a: seq<real>, b: seq<real>, i: nat, j: nat): real
    requires a != [] && b != []
  {
    Share(i, |a|) - Share(j, |b|)
  }

  /** No position of the walk is further out than a bound on distances and overshoots. */
  lemma GapBounded(a: seq<real>, b: seq<real>, i: nat, j: nat, m: real)
    requires a != [] && b != [] && Taken(a, b, i, j)
    requires BoundsDistance(a, b, m) && BoundsTies(a, b, m)
    ensures -m <= Gap(a, b, i, j) <= m
  {
    assert -m <= F(a, 0.0) - F(b, 0.0) <= m;
    ShareRange(i, |a|);
    ShareRange(j, |b|);
    if i > 0 {
      var v := a[i - 1];
      CountAtLeast(a, i, v);
      CountAtMost(b, j, v);
      ShareMonotone(i, CountLe(a, v), |a|);
      ShareMonotone(CountLt(b, v), j, |b|);
      assert Gap(a, b, i, j) <= F(a, v) - FBelow(b, v);
      if v !in b { NoTieCounts(b, v); }
      assert F(a, v) - FBelow(b, v) <= m;
    }
    if j > 0 {
      var w := b[j - 1];
      CountAtLeast(b, j, w);
      CountAtMost(a, i, w);
      ShareMonotone(j, CountLe(b, w), |b|);
      ShareMonotone(CountLe(a, w), i, |a|);
      assert -Gap(a, b, i, j) <= F(b, w) - F(a, w);
    }
  }

  /** Everything left is beyond `x`. */
  predicate Passed(a: seq<real>, b: seq<real>, i: nat, j: nat, x: real) {
    (forall p | i <= p < |a| :: a[p] > x) && (forall q | j <= q < |b| :: b[q] > x)
  }

  ghost predicate Covers(a: seq<real>, b: seq<real>, i: nat, j: nat, d: real)
    requires a != [] && b != []
  {
    && (forall x: real | Passed(a, b, i, j, x) :: -d <= F(a, x) - F(b, x) <= d)
    && (forall v: real | v in a && v in b && (forall p | i <= p < |a| :: a[p] > v) :: F(a, v) - FBelow(b, v) <= d)
    && -d <= Gap(a, b, i, j) <= d
  }

  lemma TakeA(a: seq<real>, b: seq<real>, i: nat, j: nat, d: real, d': real)
    requires a != [] && b != [] && Taken(a, b, i, j) && Covers(a, b, i, j, d)
    requires i < |a| && j < |b| && a[i] <= b[j]
    requires d' >= d && -d' <= Gap(a, b, i + 1, j) <= d'
    ensures Taken(a, b, i + 1, j) && Covers(a, b, i + 1, j, d')
  {
    var e := a[i];
    forall x: real | Passed(a, b, i + 1, j, x) ensures -d' <= F(a, x) - F(b, x) <= d' {
      if e > x {
        assert Passed(a, b, i, j, x);
      } else {
        CountAtLeast(a, i + 1, x);
        CountAtMost(a, i + 1, x);
        CountAtLeast(b, j, x);
        CountAtMost(b, j, x);
      }
    }
    forall v: real | v in a && v in b && (forall p | i + 1 <= p < |a| :: a[p] > v)
      ensures F(a, v) - FBelow(b, v) <= d'
    {
      if e <= v {
        TieGap(a, b, i, j, v);
      } else {
        assert forall p | i <= p < |a| :: a[p] > v;
      }
    }
  }

  /** Taking the last of `a`'s copies of a shared value puts the walk at its overshoot. */
  lemma TieGap(a: seq<real>, b: seq<real>, i: nat, j: nat, v: real)
    requires a != [] && b != [] && Taken(a, b, i, j) && i < |a| && j < |b| && a[i] <= b[j]
    requires v in a && a[i] <= v && forall p | i + 1 <= p < |a| :: a[p] > v
    ensures F(a, v) - FBelow(b, v) == Gap(a, b, i + 1, j)
  {
    var p :| 0 <= p < |a| && a[p] == v;
    assert p <= i && v == a[i];
    CountAtLeast(a, i + 1, v);
    CountAtMost(a, i + 1, v);
    CountAtLeast(b, j, v);
    CountAtMost(b, j, v);
  }

  lemma TakeB(a: seq<real>, b: seq<real>, i: nat, j: nat, d: real, d': real)
    requires a != [] && b != [] && Taken(a, b, i, j) && Covers(a, b, i, j, d)
    requires i < |a| && j < |b| && b[j] < a[i]
    requires d' >= d && -d' <= Gap(a, b, i, j + 1) <= d'
    ensures Taken(a, b, i, j + 1) && Covers(a, b, i, j + 1, d')
  {
    forall x: real | Passed(a, b, i, j + 1, x) ensures -d' <= F(a, x) - F(b, x) <= d' {
      if b[j] > x {
        assert Passed(a, b, i, j, x);
      } else {
        CountAtLeast(a, i, x);
        CountAtMost(a, i, x);
        CountAtLeast(b, j + 1, x);
        CountAtMost(b, j + 1, x);
      }
    }
  }

  /** Once one sample is used up, what is left of the other adds nothing. */
  lemma WalkEnds(a: seq<real>, b: seq<real>, i: nat, j: nat, d: real)
    requires a != [] && b != [] && Taken(a, b, i, j) && Covers(a, b, i, j, d)
    requires i == |a| || j == |b|
    ensures BoundsDistance(a, b, d) && BoundsTies(a, b, d)
  {
    forall x: real ensures -d <= F(a, x) - F(b, x) <= d {
      if !Passed(a, b, i, j, x) {
        CountRange(a, x);
        CountRange(b, x);
        ShareRange(CountLe(a, x), |a|);
        ShareRange(CountLe(b, x), |b|);
        CountAtLeast(a, i, x);
        CountAtLeast(b, j, x);
        ShareMonotone(i, CountLe(a, x), |a|);
        ShareMonotone(j, CountLe(b, x), |b|);
        ShareRange(i, |a|);
        ShareRange(j, |b|);
      }
    }
    forall v: real | v in a && v in b ensures F(a, v) - FBelow(b, v) <= d {
      if j == |b| && i < |a| {
        var q :| 0 <= q < |b| && b[q] == v;
        assert forall p | i <= p < |a| :: a[p] > v;
      }
    }
  }

  method WalkSorted(a: seq<real>, b: seq<real>) returns (d: real)
    requires a != [] && b != [] && Ascending(a) && Ascending(b)
    ensures IsTieKS(a, b, d)
  {
    var i, j := 0, 0;
    d := 0.0;
    WalkStarts(a, b);
    hide Gap, Covers, Taken;
    while i < |a| && j < |b|
      invariant i <= |a| && j <= |b|
      invariant Taken(a, b, i, j) && Covers(a, b, i, j, d)
      invariant forall m: real | BoundsDistance(a, b, m) && BoundsTies(a, b, m) :: d <= m
    {
      ghost var i0, j0, d0 := i, j, d;
      if a[i] <= b[j] { i := i + 1; } else { j := j + 1; }
      var g := i as real / |a| as real - j as real / |b| as real;
      var g' := if g < 0.0 then -g else g;
      if g' > d { d := g'; }
      assert g == Gap(a, b, i, j) by { GapIs(a, b, i, j); }
      if a[i0] <= b[j0] { TakeA(a, b, i0, j0, d0, d); } else { TakeB(a, b, i0, j0, d0, d); }
      forall m: real | BoundsDistance(a, b, m) && BoundsTies(a, b, m) ensures d <= m {
        GapBounded(a, b, i, j, m);
      }
    }
    WalkEnds(a, b, i, j, d);
  }

  lemma GapIs(a: seq<real>, b: seq<real>, i: nat, j: nat)
    requires a != [] && b != []
    ensures Gap(a, b, i, j) == i as real / |a| as real - j as real / |b| as real
  {
  }

  lemma WalkStarts(a: seq<real>, b: seq<real>)
    requires a != [] && b != [] && Ascending(a) && Ascending(b)
    ensures Taken(a, b, 0, 0) && Covers(a, b, 0, 0, 0.0)
    ensures forall m: real | BoundsDistance(a, b, m) && BoundsTies(a, b, m) :: 0.0 <= m
  {
    ShareRange(0, |a|);
    ShareRange(0, |b|);
    forall x: real | Passed(a, b, 0, 0, x) ensures F(a, x) - F(b, x) == 0.0 {
      CountAtMost(a, 0, x);
      CountAtMost(b, 0, x);
    }
    forall m: real | BoundsDistance(a, b, m) && BoundsTies(a, b, m) ensures 0.0 <= m {
      assert -m <= F(a, 0.0) - F(b, 0.0) <= m;
    }
  }

  /** For all samples: zero if one is empty, else the supremum of the distances and of
      the overshoots at values the samples share. */
  method KsStatistic(sampleA: seq<real>, sampleB: seq<real>) returns (d: real)
    ensures sampleA == [] || sampleB == [] ==> d == 0.0
    ensures sampleA != [] && sampleB != [] ==> IsTieKS(sampleA, sampleB, d)
  {
    var a, b := Sorted(sampleA), Sorted(sampleB);
    SortedOK(sampleA);
    SortedOK(sampleB);
    if a == [] || b == [] { return 0.0; }
    d := WalkSorted(a, b);
    SameDistances(sampleA, sampleB);
  }

  lemma SameDistances(sampleA: seq<real>, sampleB: seq<real>)
    requires sampleA != [] && sampleB != []
    ensures Sorted(sampleA) != [] && Sorted(sampleB) != []
    ensures forall m: real :: BoundsDistance(Sorted(sampleA), Sorted(sampleB), m) <==> BoundsDistance(sampleA, sampleB, m)
    ensures forall m: real :: BoundsTies(Sorted(sampleA), Sorted(sampleB), m) <==> BoundsTies(sampleA, sampleB, m)
  {
    SortedOK(sampleA);
    SortedOK(sampleB);
    var a, b := Sorted(sampleA), Sorted(sampleB);
    forall x: real ensures F(a, x) == F(sampleA, x) && F(b, x) == F(sampleB, x) && FBelow(b, x) == FBelow(sampleB, x) {
      SortedCounts(sampleA, x);
      SortedCounts(sampleB, x);
    }
  }

  // ---------------------------------------------------------------------------
  // Against the Kolmogorov-Smirnov statistic proper
  // ---------------------------------------------------------------------------

  /** The result is at most 1. */
  lemma AtMostOne(a: seq<real>, b: seq<real>, d: real)
    requires a != [] && b != [] && IsTieKS(a, b, d)
    ensures 0.0 <= d <= 1.0
  {
    forall x: real ensures 0.0 <= F(a, x) <= 1.0 && 0.0 <= F(b, x) <= 1.0 && 0.0 <= FBelow(b, x) <= 1.0 {
      CountRange(a, x);
      CountRange(b, x);
      ShareRange(CountLe(a, x), |a|);
      ShareRange(CountLe(b, x), |b|);
      ShareRange(CountLt(b, x), |b|);
    }
    assert BoundsDistance(a, b, 1.0) && BoundsTies(a, b, 1.0);
    assert -d <= F(a, 0.0) - F(b, 0.0) <= d;
  }

  /** The largest distance at the listed points, or 0. */
  function Largest(a: seq<real>, b: seq<real>, points: seq<real>): (m: real)
    requires a != [] && b != []
    ensures m >= 0.0
  {
    if points == [] then 0.0
    else
      var rest, gap := Largest(a, b, points[1..]), F(a, points[0]) - F(b, points[0]);
      var size := if gap < 0.0 then -gap else gap;
      if size > rest then size else rest
  }

  lemma {:induction false} LargestIs(a: seq<real>, b: seq<real>, points: seq<real>, m: real)
    requires a != [] && b != [] && m >= 0.0
    ensures Largest(a, b, points) <= m <==> forall x | x in points :: -m <= F(a, x) - F(b, x) <= m
  {
    if points != [] {
      hide F;
      LargestIs(a, b, points[1..], m);
      assert forall x :: x in points <==> x == points[0] || x in points[1..];
    }
  }

  /** Below `x` nothing happens after the last listed point. */
  lemma {:induction false} Floor(points: seq<real>, x: real) returns (below: bool, p: real)
    ensures below ==> p in points && p <= x && forall y | y in points && y <= x :: y <= p
    ensures !below ==> forall y | y in points :: y > x
  {
    if points == [] {
      below, p := false, x;
    } else {
      below, p := Floor(points[1..], x);
      if points[0] <= x && (!below || points[0] > p) { below, p := true, points[0]; }
      assert forall y :: y in points <==> y == points[0] || y in points[1..];
    }
  }

  lemma {:induction false} SameCount(s: seq<real>, x: real, p: real)
    requires p <= x && forall y | y in s && y <= x :: y <= p
    ensures CountLe(s, p) == CountLe(s, x)
  {
    if s != [] {
      assert s[0] in s && forall y | y in s[1..] :: y in s;
      SameCount(s[1..], x, p);
    }
  }

  lemma {:induction false} NothingBelow(s: seq<real>, x: real)
    requires forall y | y in s :: y > x
    ensures CountLe(s, x) == 0
  {
    if s != [] {
      assert s[0] in s && forall y | y in s[1..] :: y in s;
      NothingBelow(s[1..], x);
    }
  }

  /** The statistic exists for all samples: it is the largest distance at their values. */
  lemma StatisticExists(a: seq<real>, b: seq<real>)
    requires a != [] && b != []
    ensures IsKS(a, b, Largest(a, b, a + b))
  {
    var m := Largest(a, b, a + b);
    LargestIs(a, b, a + b, m);
    forall x: real ensures -m <= F(a, x) - F(b, x) <= m {
      var below, p := Floor(a + b, x);
      assert forall y | y in a || y in b :: y in a + b;
      if below {
        SameCount(a, x, p);
        SameCount(b, x, p);
      } else {
        NothingBelow(a, x);
        NothingBelow(b, x);
      }
    }
    forall n: real | BoundsDistance(a, b, n) ensures m <= n {
      assert -n <= F(a, 0.0) - F(b, 0.0) <= n;
      LargestIs(a, b, a + b, n);
    }
  }

  /** The result is never below the Kolmogorov-Smirnov statistic, and equals it exactly
      when no shared value overshoots it. */
  lemma EqualsKSExactly(a: seq<real>, b: seq<real>, d: real) returns (ks: real)
    requires a != [] && b != [] && IsTieKS(a, b, d)
    ensures IsKS(a, b, ks) && ks <= d
    ensures d == ks <==> BoundsTies(a, b, ks)
  {
    ks := Largest(a, b, a + b);
    StatisticExists(a, b);
  }

  /** In particular without shared values, whatever repeats inside one sample. */
  lemma EqualsKSWithoutTies(a: seq<real>, b: seq<real>, d: real)
    requires a != [] && b != [] && IsTieKS(a, b, d)
    requires forall v | v in a :: v !in b
    ensures IsKS(a, b, d)
  {
    assert forall m: real :: BoundsTies(a, b, m);
  }

  /** Two equal one-value samples: the statistic is 0, the result 1. */
  lemma TieOvershoots()
    ensures IsKS([0.0], [0.0], 0.0) && IsTieKS([0.0], [0.0], 1.0)
  {
    var s := [0.0];
    assert 0.0 in s && CountLe(s, 0.0) == 1 && CountLt(s, 0.0) == 0;
    assert F(s, 0.0) == 1.0 && FBelow(s, 0.0) == 0.0;
    assert forall m: real :: BoundsDistance(s, s, m) ==> -m <= F(s, 0.0) - F(s, 0.0) <= m;
  }
}
