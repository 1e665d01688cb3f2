/** The scheduling theory behind the test sharder: greedy list scheduling of weights in
    non-increasing order, and Graham's 4/3 bound for it.

    An assignment of the jobs `0 .. |w| - 1` to `m` shards is a sequence `a` with
    `a[i] < m`; `Load(w, a, j)` is what shard `j` carries under it. */
module GrahamBound {

  function Load(w: seq<nat>, a: seq<nat>, j: nat): nat
    requires |w| == |a|
  {
    if |w| == 0 then 0
    else
      var n := |w| - 1;
      Load(w[..n], a[..n], j) + if a[n] == j then w[n] else 0
  }

  function Total(w: seq<nat>): nat {
    if |w| == 0 then 0 else Total(w[..|w| - 1]) + w[|w| - 1]
  }

  /** What the first `m` shards carry together. */
  function SumLoads(w: seq<nat>, a: seq<nat>, m: nat): nat
    requires |w| == |a|
  {
    if m == 0 then 0 else SumLoads(w, a, m - 1) + Load(w, a, m - 1)
  }

  ghost predicate Assigns(a: seq<nat>, n: nat, m: nat) {
    |a| == n && forall i :: 0 <= i < n ==> a[i] < m
  }

  ghost predicate NonIncreasing(w: seq<nat>) {
    forall i, k :: 0 <= i <= k < |w| ==> w[k] <= w[i]
  }

  /** No shard carries less than shard `least`. */
  ghost predicate LeastLoaded(w: seq<nat>, a: seq<nat>, m: nat, least: nat)
    requires |w| == |a|
  {
    least < m && forall j: nat :: j < m ==> Load(w, a, least) <= Load(w, a, j)
  }

  /** Every job went to a shard that was least loaded when the job was placed. */
  ghost predicate Greedy(w: seq<nat>, a: seq<nat>, m: nat) {
    |a| == |w| && forall i {:trigger a[i]} :: 0 <= i < |w| ==> LeastLoaded(w[..i], a[..i], m, a[i])
  }

  /** No shard carries more than `bound`. */
  ghost predicate LoadsAtMost(w: seq<nat>, a: seq<nat>, m: nat, bound: nat) {
    Assigns(a, |w|, m) && forall j: nat :: j < m ==> Load(w, a, j) <= bound
  }

  // ----- Dropping the last job

  lemma GreedyPrefix(w: seq<nat>, a: seq<nat>, m: nat)
    requires Greedy(w, a, m) && |w| > 0
    ensures Greedy(w[..|w| - 1], a[..|w| - 1], m)
  {
    var n := |w| - 1;
    forall i | 0 <= i < n
      ensures LeastLoaded(w[..n][..i], a[..n][..i], m, a[..n][i])
    {
      assert w[..n][..i] == w[..i] && a[..n][..i] == a[..i] && a[..n][i] == a[i];
    }
  }

  lemma LoadsAtMostPrefix(w: seq<nat>, a: seq<nat>, m: nat, bound: nat)
    requires LoadsAtMost(w, a, m, bound) && |w| > 0
    ensures LoadsAtMost(w[..|w| - 1], a[..|w| - 1], m, bound)
  {
    var n := |w| - 1;
    forall j: nat | j < m
      ensures Load(w[..n], a[..n], j) <= bound
    {
      assert Load(w, a, j) <= bound;
    }
  }

  // ----- Conservation: the loads of all shards add up to the total weight

  lemma {:induction false} SumLoadsLast(w: seq<nat>, a: seq<nat>, m: nat)
    requires |w| == |a| > 0
    ensures SumLoads(w, a, m)
         == SumLoads(w[..|w| - 1], a[..|w| - 1], m) + if a[|w| - 1] < m then w[|w| - 1] else 0
  {
    if m > 0 {
      SumLoadsLast(w, a, m - 1);
    }
  }

  lemma {:induction false} SumLoadsIsTotal(w: seq<nat>, a: seq<nat>, m: nat)
    requires Assigns(a, |w|, m)
    ensures SumLoads(w, a, m) == Total(w)
  {
    if |w| == 0 {
      SumLoadsEmpty(m);
    } else {
      SumLoadsLast(w, a, m);
      SumLoadsIsTotal(w[..|w| - 1], a[..|w| - 1], m);
    }
  }

  lemma {:induction false} SumLoadsEmpty(m: nat)
    ensures SumLoads([], [], m) == 0
  {
    if m > 0 { SumLoadsEmpty(m - 1); }
  }

  lemma {:induction false} SumLoadsAtMost(w: seq<nat>, a: seq<nat>, m: nat, bound: nat)
    requires |w| == |a|
    requires forall j: nat :: j < m ==> Load(w, a, j) <= bound
    ensures SumLoads(w, a, m) <= m * bound
  {
    if m > 0 {
      SumLoadsAtMost(w, a, m - 1, bound);
      assert m * bound == (m - 1) * bound + bound;
    }
  }

  lemma {:induction false} SumLoadsAtLeast(w: seq<nat>, a: seq<nat>, m: nat, bound: nat)
    requires |w| == |a|
    requires forall j: nat :: j < m ==> bound <= Load(w, a, j)
    ensures m * bound <= SumLoads(w, a, m)
  {
    if m > 0 {
      SumLoadsAtLeast(w, a, m - 1, bound);
      assert m * bound == (m - 1) * bound + bound;
    }
  }

  // ----- List scheduling: the averaging bound

  /** The shard that takes the last job ends at most at the average of the other work plus
      that job. */
  lemma LastPlacement(w: seq<nat>, a: seq<nat>, m: nat)
    requires Greedy(w, a, m) && |w| > 0
    ensures m * Load(w, a, a[|w| - 1]) <= Total(w) + (m - 1) * w[|w| - 1]
  {
    var n := |w| - 1;
    var least := Load(w[..n], a[..n], a[n]);
    GreedyPrefix(w, a, m);
    SumLoadsIsTotal(w[..n], a[..n], m);
    SumLoadsAtLeast(w[..n], a[..n], m, least);
    OnTopOfAverage(m, least, Total(w[..n]), w[n]);
  }

  lemma OnTopOfAverage(m: nat, least: nat, total: nat, last: nat)
    requires 1 <= m && m * least <= total
    ensures m * (least + last) <= (total + last) + (m - 1) * last
  {
  }

  /** Graham's first bound: `m` times any load is at most the total plus `m - 1` times the
      largest weight. */
  lemma {:induction false} ListBound(w: seq<nat>, a: seq<nat>, m: nat, largest: nat, j: nat)
    requires Greedy(w, a, m) && j < m
    requires forall i :: 0 <= i < |w| ==> w[i] <= largest
    ensures m * Load(w, a, j) <= Total(w) + (m - 1) * largest
  {
    if |w| > 0 {
      var n := |w| - 1;
      if a[n] == j {
        LastPlacement(w, a, m);
        ScaleUp(m - 1, w[n], largest);
      } else {
        GreedyPrefix(w, a, m);
        ListBound(w[..n], a[..n], m, largest, j);
      }
    }
  }

  lemma ScaleUp(k: nat, x: nat, y: nat)
    requires x <= y
    ensures k * x <= k * y
  {
  }

  // ----- The last job is heavier than a third of the bound

  /** Two points for a job that cannot share a shard with one of weight `last` under `bound`,
      one point for every other job. */
  function Points(w: seq<nat>, bound: nat, last: nat): (v: seq<nat>)
    ensures |v| == |w|
    ensures forall i :: 0 <= i < |w| ==> v[i] == if w[i] + last > bound then 2 else 1
  {
    seq(|w|, i requires 0 <= i < |w| => if w[i] + last > bound then 2 else 1)
  }

  lemma PointsPrefix(w: seq<nat>, bound: nat, last: nat)
    requires |w| > 0
    ensures Points(w, bound, last)[..|w| - 1] == Points(w[..|w| - 1], bound, last)
  {
  }

  /** Three points on one shard weigh more than `bound`; two leave no room for `last`. */
  lemma {:induction false} PointsWeighDown(w: seq<nat>, a: seq<nat>, j: nat, bound: nat, last: nat)
    requires |w| == |a| && bound < 3 * last
    requires forall i :: 0 <= i < |w| ==> last <= w[i]
    ensures var points, load := Load(Points(w, bound, last), a, j), Load(w, a, j);
            && (points >= 1 ==> load >= last)
            && (points >= 2 ==> load + last > bound)
            && (points >= 3 ==> load > bound)
  {
    if |w| > 0 {
      PointsPrefix(w, bound, last);
      PointsWeighDown(w[..|w| - 1], a[..|w| - 1], j, bound, last);
    }
  }

  /** A shard with no room for `last` holds at least two points. */
  lemma {:induction false} FullMeansTwoPoints(w: seq<nat>, a: seq<nat>, j: nat, bound: nat, last: nat)
    requires |w| == |a| && last <= bound
    ensures var points, load := Load(Points(w, bound, last), a, j), Load(w, a, j);
            && (points == 0 ==> load == 0)
            && (points <= 1 ==> load + last <= bound)
  {
    if |w| > 0 {
      PointsPrefix(w, bound, last);
      FullMeansTwoPoints(w[..|w| - 1], a[..|w| - 1], j, bound, last);
    }
  }

  /** If every job is heavier than a third of `bound`, and some assignment keeps every shard
      within `bound`, then so does the greedy placement of the last job: otherwise the shards
      would hold one point more than there are points. */
  lemma LargeJobsFit(w: seq<nat>, a: seq<nat>, other: seq<nat>, m: nat, bound: nat)
    requires |w| > 0 && Greedy(w, a, m) && NonIncreasing(w)
    requires LoadsAtMost(w, other, m, bound)
    requires bound < 3 * w[|w| - 1]
    ensures Load(w, a, a[|w| - 1]) <= bound
  {
    var n := |w| - 1;
    var last := w[n];
    var v := Points(w, bound, last);
    assert last <= Load(w, other, other[n]) <= bound;
    if Load(w, a, a[n]) > bound {
      forall j: nat | j < m
        ensures Load(v[..n], a[..n], j) >= 2
      {
        FullMeansTwoPoints(w[..n], a[..n], j, bound, last);
        PointsPrefix(w, bound, last);
      }
      SumLoadsAtLeast(v[..n], a[..n], m, 2);
      SumLoadsIsTotal(v[..n], a[..n], m);
      forall j: nat | j < m
        ensures Load(v, other, j) <= 2
      {
        PointsWeighDown(w, other, j, bound, last);
      }
      SumLoadsAtMost(v, other, m, 2);
      SumLoadsIsTotal(v, other, m);
      assert false;
    }
  }

  // ----- Graham's theorem

  /** With `m` shards, `3m` times any load of the longest-first greedy assignment is at most
      `4m - 1` times the heaviest load of any other assignment of the same weights. */
  lemma {:induction false} LongestFirstBound(w: seq<nat>, a: seq<nat>, other: seq<nat>, m: nat, bound: nat, j: nat)
    requires Greedy(w, a, m) && NonIncreasing(w) && j < m
    requires LoadsAtMost(w, other, m, bound)
    ensures 3 * m * Load(w, a, j) <= (4 * m - 1) * bound
  {
    if |w| > 0 {
      var n := |w| - 1;
      if a[n] != j {
        GreedyPrefix(w, a, m);
        LoadsAtMostPrefix(w, other, m, bound);
        LongestFirstBound(w[..n], a[..n], other[..n], m, bound, j);
      } else if bound < 3 * w[n] {
        LargeJobsFit(w, a, other, m, bound);
        WithinBound(m, Load(w, a, j), bound);
      } else {
        LastPlacement(w, a, m);
        SumLoadsIsTotal(w, other, m);
        SumLoadsAtMost(w, other, m, bound);
        SmallLastJob(m, Load(w, a, j), Total(w), w[n], bound);
      }
    }
  }

  lemma WithinBound(m: nat, load: nat, bound: nat)
    requires 1 <= m && load <= bound
    ensures 3 * m * load <= (4 * m - 1) * bound
  {
    ScaleUp(3 * m, load, bound);
    ScaleUp(bound, 3 * m, 4 * m - 1);
  }

  lemma SmallLastJob(m: nat, load: nat, total: nat, last: nat, bound: nat)
    requires 1 <= m && 3 * last <= bound && total <= m * bound
    requires m * load <= total + (m - 1) * last
    ensures 3 * m * load <= (4 * m - 1) * bound
  {
    ScaleUp(m - 1, 3 * last, bound);
    calc {
      3 * m * load;
    ==
      3 * (m * load);
    <=
      3 * (total + (m - 1) * last);
    <=
      3 * (m * bound) + (m - 1) * (3 * last);
    <=
      3 * (m * bound) + (m - 1) * bound;
    ==
      (4 * m - 1) * bound;
    }
  }
}
