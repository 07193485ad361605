/**
 The lock-wait histogram (src/concurrency.rs): fixed microsecond buckets counted in
 place, and quantiles read off the bucket edges. Counts are unbounded and the
 percentile is a real number.
 */
module LockWaits {

  const EDGES: seq<nat> := [10, 50, 100, 250, 500, 1_000, 2_500, 5_000, 10_000, 25_000, 100_000]
  const BUCKETS: nat := 12

  /** `b` is the bucket of a wait: at or above every edge before it, below the next. */
  predicate InBucket(micros: nat, b: nat) {
    && b < BUCKETS
    && (b > 0 ==> EDGES[b - 1] <= micros)
    && (b < 11 ==> micros < EDGES[b])
  }

  lemma EdgesIncrease(i: nat, j: nat)
    requires i < j < 11
    ensures EDGES[i] < EDGES[j]
  {
  }

  /** The linear scan over the edges. */
  method LockWaitBucket(micros: nat) returns (idx: nat)
    ensures InBucket(micros, idx)
  {
    idx := 0;
    while idx < |EDGES| && micros >= EDGES[idx]
      invariant idx <= 11 && (idx > 0 ==> EDGES[idx - 1] <= micros)
    {
      idx := idx + 1;
    }
  }

  function BucketOf(micros: nat): (b: nat)
    ensures InBucket(micros, b)
  {
    if micros < 10 then 0 else if micros < 50 then 1 else if micros < 100 then 2 else if micros < 250 then 3
    else if micros < 500 then 4 else if micros < 1_000 then 5 else if micros < 2_500 then 6
    else if micros < 5_000 then 7 else if micros < 10_000 then 8 else if micros < 25_000 then 9
    else if micros < 100_000 then 10 else 11
  }

  lemma BucketUnique(micros: nat, b: nat, b': nat)
    requires InBucket(micros, b) && InBucket(micros, b')
    ensures b == b'
  {
    if b < b' && b < b' - 1 { EdgesIncrease(b, b' - 1); }
    if b' < b && b' < b - 1 { EdgesIncrease(b', b - 1); }
  }

  lemma BucketMonotone(v: nat, w: nat)
    requires v <= w
    ensures BucketOf(v) <= BucketOf(w)
  {
  }

  // ---- counting ----

  function CountIn(waits: seq<nat>, b: nat): nat {
    if waits == [] then 0 else CountIn(waits[..|waits| - 1], b) + (if BucketOf(waits[|waits| - 1]) == b then 1 else 0)
  }

  /** Waits whose bucket is below `b`. */
  function CountBefore(waits: seq<nat>, b: nat): nat {
    if b == 0 then 0 else CountBefore(waits, b - 1) + CountIn(waits, b - 1)
  }

  /** Waits strictly below, and at most, a value. */
  function CountBelow(waits: seq<nat>, w: nat): nat {
    if waits == [] then 0 else CountBelow(waits[..|waits| - 1], w) + (if waits[|waits| - 1] < w then 1 else 0)
  }

  function CountAtMost(waits: seq<nat>, w: nat): nat { CountBelow(waits, w + 1) }

  /** `w` is the k-th smallest of the recorded waits. */
  ghost predicate KthSmallest(waits: seq<nat>, k: nat, w: nat) {
    w in waits && CountBelow(waits, w) < k <= CountAtMost(waits, w)
  }

  lemma {:induction false} CountBeforePush(waits: seq<nat>, v: nat, b: nat)
    ensures CountBefore(waits + [v], b) == CountBefore(waits, b) + (if BucketOf(v) < b then 1 else 0)
  {
    hide BucketOf;
    if b > 0 {
      CountBeforePush(waits, v, b - 1);
      assert (waits + [v])[..|waits|] == waits;
    }
  }

  lemma {:induction false} CountAll(waits: seq<nat>)
    ensures CountBefore(waits, BUCKETS) == |waits|
  {
    if waits == [] {
      CountNone(BUCKETS);
    } else {
      var front, v := waits[..|waits| - 1], waits[|waits| - 1];
      CountAll(front);
      assert waits == front + [v];
      CountBeforePush(front, v, BUCKETS);
    }
  }

  lemma {:induction false} CountNone(b: nat)
    ensures CountBefore([], b) == 0
  {
    if b > 0 { CountNone(b - 1); }
  }

  /** Bucket counts bound counts by value, from both sides. */
  lemma {:induction false} CountsAgainstBuckets(waits: seq<nat>, w: nat, b: nat)
    ensures BucketOf(w) < b ==> CountAtMost(waits, w) <= CountBefore(waits, b)
    ensures BucketOf(w) >= b ==> CountBefore(waits, b) <= CountBelow(waits, w)
  {
    hide BucketOf;
    if waits == [] {
      CountNone(b);
    } else {
      var front, v := waits[..|waits| - 1], waits[|waits| - 1];
      CountsAgainstBuckets(front, w, b);
      assert waits == front + [v];
      CountBeforePush(front, v, b);
      if v <= w { BucketMonotone(v, w); } else { BucketMonotone(w, v); }
    }
  }

  lemma {:induction false} CountBelowMonotone(waits: seq<nat>, v: nat, w: nat)
    requires v <= w
    ensures CountBelow(waits, v) <= CountBelow(waits, w) <= |waits|
  {
    if waits != [] { CountBelowMonotone(waits[..|waits| - 1], v, w); }
  }

  lemma {:induction false} CountBelowGap(waits: seq<nat>, v: nat, w: nat)
    requires v <= w && forall i :: 0 <= i < |waits| ==> !(v <= waits[i] < w)
    ensures CountBelow(waits, v) == CountBelow(waits, w)
  {
    if waits != [] { CountBelowGap(waits[..|waits| - 1], v, w); }
  }

  lemma {:induction false} CountBelowAll(waits: seq<nat>, w: nat)
    requires forall i :: 0 <= i < |waits| ==> waits[i] < w
    ensures CountBelow(waits, w) == |waits|
  {
    if waits != [] { CountBelowAll(waits[..|waits| - 1], w); }
  }

  lemma {:induction false} CountBelowZero(waits: seq<nat>)
    ensures CountBelow(waits, 0) == 0
  {
    if waits != [] { CountBelowZero(waits[..|waits| - 1]); }
  }

  /** For every rank there is a wait of that rank: the least value that enough waits do not exceed. */
  lemma {:induction false} KthExists(waits: seq<nat>, k: nat, bound: nat) returns (w: nat)
    requires 1 <= k <= CountBelow(waits, bound)
    ensures KthSmallest(waits, k, w)
    decreases bound
  {
    CountBelowZero(waits);
    var v := bound - 1;
    if k <= CountBelow(waits, v) {
      w := KthExists(waits, k, v);
    } else {
      if v !in waits {
        CountBelowGap(waits, v, bound);
      }
      w := v;
    }
  }

  // ---- the histogram ----

  function LowerEdge(b: nat): nat
    requires b < BUCKETS
  {
    if b == 0 then 0 else EDGES[b - 1]
  }

  function Ceil(x: real): int { if x.Floor as real == x then x.Floor else x.Floor + 1 }

  function Clamp(p: real): real { if p < 0.0 then 0.0 else if p > 1.0 then 1.0 else p }

  /** The rank a percentile asks for. */
  function Target(n: nat, p: real): int { Ceil(Scaled(n as real, Clamp(p))) }

  function Scaled(n: real, p: real): real { n * p }

  lemma CeilMonotone(x: real, y: real)
    requires x <= y
    ensures Ceil(x) <= Ceil(y)
  {
  }

  lemma TargetBounds(n: nat, p: real)
    requires n > 0
    ensures 0 <= Target(n, p) <= n && (p > 0.0 ==> 1 <= Target(n, p))
  {
    var x := Scaled(n as real, Clamp(p));
    ScaleMonotone(n as real, 0.0, Clamp(p));
    ScaleMonotone(n as real, Clamp(p), 1.0);
    assert 0.0 <= x <= n as real;
    if p > 0.0 {
      assert x > 0.0;
    }
  }

  lemma ScaleMonotone(n: real, p: real, q: real)
    requires n >= 0.0 && p <= q
    ensures Scaled(n, p) <= Scaled(n, q)
  {
    assert n * (q - p) >= 0.0;
  }

  lemma ScaledCeil(n: real, p: real, q: real)
    requires n >= 0.0 && p <= q
    ensures Ceil(Scaled(n, p)) <= Ceil(Scaled(n, q))
  {
    hide Scaled, Ceil;
    ScaleMonotone(n, p, q);
    CeilMonotone(Scaled(n, p), Scaled(n, q));
  }

  class LockWaitHistogram {
    const buckets: array<nat>
    ghost var waits: seq<nat>

    /** Each bucket holds the number of recorded waits that fall in it. */
    ghost predicate Valid()
      reads this, buckets
    {
      buckets.Length == BUCKETS && forall b :: 0 <= b < BUCKETS ==> buckets[b] == CountIn(waits, b)
    }

    constructor ()
      ensures Valid() && waits == [] && fresh(buckets)
    {
      buckets := new nat[BUCKETS](i => 0);
      waits := [];
    }

    method RecordUs(micros: nat)
      requires Valid()
      modifies this, buckets
      ensures Valid() && waits == old(waits) + [micros]
    {
      var idx := LockWaitBucket(micros);
      BucketUnique(micros, idx, BucketOf(micros));
      buckets[idx] := buckets[idx] + 1;
      waits := waits + [micros];
      assert waits[..|waits| - 1] == old(waits);
    }

    method Total() returns (total: nat)
      requires Valid()
      ensures total == |waits|
    {
      hide BucketOf;
      total := 0;
      for b := 0 to BUCKETS
        invariant total == CountBefore(waits, b)
      {
        total := total + buckets[b];
      }
      CountAll(waits);
    }

    /** The bucket edge at percentile `p`: the lower edge of the bucket that holds the wait
        of rank ceil(p·n). */
    method QuantileEdgeUs(p: real) returns (edge: nat)
      requires Valid()
      ensures waits == [] ==> edge == 0
      ensures waits != [] && p > 0.0 ==>
                exists k: nat, w :: IsRank(|waits|, p, k) && KthSmallest(waits, k, w) && IsLowerEdge(edge, w)
      ensures waits != [] && p <= 0.0 ==> edge == 0
    {
      hide BucketOf, Target, KthSmallest, LowerEdge, IsRank, IsLowerEdge;
      var total := Total();
      if total == 0 {
        return 0;
      }
      var target := Target(total, p);
      TargetBounds(total, p);
      FirstEdge();
      if p <= 0.0 {
        TargetZero(total, p);
      }
      var cum := 0;
      for b := 0 to BUCKETS
        invariant cum == CountBefore(waits, b)
        invariant b > 0 ==> cum < target
      {
        cum := cum + buckets[b];
        if cum >= target {
          if target > 0 {
            RankInBucket(waits, target, b);
            ghost var w :| KthSmallest(waits, target, w) && BucketOf(w) == b;
            TargetIsRank(total, p);
            EdgeOf(w);
          }
          return LowerEdge(b);
        }
      }
      // The buckets sum to the total, so the walk has stopped before the last edge.
      CountAll(waits);
      assert false;
    }
  }

  /** `k` is the rank of percentile `p` among `n`: the least whole number not below p·n,
      and the last rank for a percentile over 1. */
  ghost predicate IsRank(n: nat, p: real, k: int) {
    if p > 1.0 then k == n else (k as real) - 1.0 < n as real * p <= k as real
  }

  /** The rank asked for, and there is only one. */
  lemma TargetIsRank(n: nat, p: real)
    requires p >= 0.0
    ensures forall k :: IsRank(n, p, k) <==> k == Target(n, p)
  {
    var x := Scaled(n as real, Clamp(p));
    assert x == if p > 1.0 then n as real else n as real * p;
    CeilBounds(x);
    forall k | IsRank(n, p, k) ensures k == Target(n, p) {
      assert p <= 1.0 ==> (k as real) - 1.0 < x <= k as real;
    }
  }

  lemma CeilBounds(x: real)
    ensures (Ceil(x) as real) - 1.0 < x <= Ceil(x) as real
  {
  }

  /** `edge` is the greatest of 0 and the bucket edges, in microseconds, that is not above `w`. */
  ghost predicate IsLowerEdge(edge: nat, w: nat) {
    && edge <= w && (edge == 0 || IsEdge(edge))
    && forall e: nat :: IsEdge(e) && e <= w ==> e <= edge
  }

  predicate IsEdge(e: nat) {
    e in {10, 50, 100, 250, 500, 1_000, 2_500, 5_000, 10_000, 25_000, 100_000}
  }

  lemma EdgeOf(w: nat)
    ensures IsLowerEdge(LowerEdge(BucketOf(w)), w)
  {
  }

  lemma FirstEdge()
    ensures LowerEdge(0) == 0
  {
  }

  lemma TargetZero(n: nat, p: real)
    requires p <= 0.0
    ensures Target(n, p) == 0
  {
    assert n as real * 0.0 == 0.0;
  }

  lemma RankInBucket(waits: seq<nat>, k: nat, b: nat)
    requires b < BUCKETS && CountBefore(waits, b) < k <= CountBefore(waits, b + 1)
    ensures exists w :: KthSmallest(waits, k, w) && BucketOf(w) == b
  {
    hide BucketOf;
    var bound := UpperBound(waits);
    CountBelowAll(waits, bound);
    CountWithin(waits, b + 1);
    var w := KthExists(waits, k, bound);
    CountsAgainstBuckets(waits, w, b);
    CountsAgainstBuckets(waits, w, b + 1);
    CountBelowMonotone(waits, w, w + 1);
  }

  lemma {:induction false} CountWithin(waits: seq<nat>, b: nat)
    ensures CountBefore(waits, b) <= |waits|
  {
    hide BucketOf;
    if waits == [] {
      CountNone(b);
    } else {
      var front, v := waits[..|waits| - 1], waits[|waits| - 1];
      CountWithin(front, b);
      assert waits == front + [v];
      CountBeforePush(front, v, b);
    }
  }

  lemma {:induction false} UpperBound(waits: seq<nat>) returns (bound: nat)
    ensures forall i :: 0 <= i < |waits| ==> waits[i] < bound
  {
    if waits == [] {
      bound := 0;
    } else {
      var front, v := waits[..|waits| - 1], waits[|waits| - 1];
      var m := UpperBound(front);
      bound := if m > v then m else v + 1;
      assert forall i :: 0 <= i < |front| ==> front[i] == waits[i];
    }
  }

  lemma TargetMonotone(n: nat, p: real, q: real)
    requires n > 0 && 0.0 < p <= q
    ensures 0 <= Target(n, p) <= Target(n, q)
  {
    TargetBounds(n, p);
    assert Clamp(p) <= Clamp(q);
    hide Clamp, Ceil, Scaled;
    ScaledCeil(n as real, Clamp(p), Clamp(q));
  }

  lemma KthMonotone(waits: seq<nat>, k: nat, l: nat, v: nat, w: nat)
    requires k <= l && KthSmallest(waits, k, v) && KthSmallest(waits, l, w)
    ensures v <= w
  {
    if w < v {
      CountBelowMonotone(waits, w + 1, v);
    }
  }

  lemma EdgeMonotone(b: nat, c: nat)
    requires b <= c < BUCKETS
    ensures LowerEdge(b) <= LowerEdge(c)
  {
    if 0 < b < c {
      EdgesIncrease(b - 1, c - 1);
    }
  }

  /** Quantiles are monotone in the percentile. */
  lemma QuantileMonotone(waits: seq<nat>, p: real, q: real, v: nat, w: nat)
    requires waits != [] && 0.0 < p <= q && 0 <= Target(|waits|, p) && 0 <= Target(|waits|, q)
    requires KthSmallest(waits, Target(|waits|, p), v) && KthSmallest(waits, Target(|waits|, q), w)
    ensures v <= w && LowerEdge(BucketOf(v)) <= LowerEdge(BucketOf(w))
  {
    hide BucketOf, Target, KthSmallest, LowerEdge;
    TargetMonotone(|waits|, p, q);
    KthMonotone(waits, Target(|waits|, p), Target(|waits|, q), v, w);
    BucketMonotone(v, w);
    EdgeMonotone(BucketOf(v), BucketOf(w));
  }
}
