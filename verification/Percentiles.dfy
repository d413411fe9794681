/** Nearest-rank percentiles over a bounded window of samples, in exact arithmetic. */
module Percentiles {
  import opened Bounded

  // -- sorting ------------------------------------------------------------------

  predicate IsSorted(s: seq<nat>) {
    forall i, j | 0 <= i < j < |s| :: s[i] <= s[j]
  }

  function Inserted(s: seq<nat>, x: nat): (r: seq<nat>)
    ensures |r| == |s| + 1 && multiset(r) == multiset(s) + multiset{x}
    ensures forall y :: y in r <==> y == x || y in s
  {
    if s == [] || x <= s[0] then [x] + s
    else
      assert s == [s[0]] + s[1..];
      [s[0]] + Inserted(s[1..], x)
  }

  lemma {:induction false} InsertedStaysSorted(s: seq<nat>, x: nat)
    requires IsSorted(s)
    ensures IsSorted(Inserted(s, x))
  {
    if s == [] || x <= s[0] {
      SortedFrom(x, s);
    } else {
      InsertedStaysSorted(s[1..], x);
      SortedFrom(s[0], Inserted(s[1..], x));
    }
  }

  lemma SortedFrom(x: nat, s: seq<nat>)
    requires IsSorted(s) && forall y | y in s :: x <= y
    ensures IsSorted([x] + s)
  {
    var r := [x] + s;
    forall i, j | 0 <= i < j < |r| ensures r[i] <= r[j] {
      assert r[j] == s[j - 1] && s[j - 1] in s;
      assert i > 0 ==> r[i] == s[i - 1];
    }
  }

  function Sorted(s: seq<nat>): (r: seq<nat>)
    ensures IsSorted(r) && multiset(r) == multiset(s) && |r| == |s|
  {
    if s == [] then []
    else
      assert s == s[..|s| - 1] + [s[|s| - 1]];
      var front := Sorted(s[..|s| - 1]);
      InsertedStaysSorted(front, s[|s| - 1]);
      Inserted(front, s[|s| - 1])
  }

  // -- what a nearest-rank percentile is ------------------------------------------

  /** How many samples are at most `x`. */
  function CountUpTo(s: seq<nat>, x: int): (n: nat)
    ensures n <= |s|
  {
    if s == [] then 0 else CountUpTo(s[..|s| - 1], x) + if s[|s| - 1] <= x then 1 else 0
  }

  /** A sample with at least `rank` samples up to it and fewer than `rank` below it. */
  predicate IsNearestRank(s: seq<nat>, rank: nat, v: nat) {
    v in s && CountUpTo(s, v) >= rank && CountUpTo(s, v as int - 1) < rank
  }

  function Ceil(x: real): int { -((-x).Floor) }

  function Clamp(n: int, lo: int, hi: int): int { if n < lo then lo else if n > hi then hi else n }

  function Times(p: real, n: nat): real { p * n as real }

  function Rounded(x: real, n: nat): (r: nat)
    requires n > 0
    ensures 1 <= r <= n
  {
    Clamp(Ceil(x), 1, n)
  }

  /** The rank asked for: p of the samples, rounded up, and at least the first and at most the last. */
  function Rank(p: real, n: nat): (r: nat)
    requires n > 0
    ensures 1 <= r <= n
  {
    Rounded(Times(p, n), n)
  }

  function Index(pct: real, n: nat): (idx: nat)
    requires n > 0
    ensures idx == Rank(pct, n) - 1
  {
    RankOfClamped(pct, n);
    var p := if pct < 0.0 then 0.0 else if pct > 1.0 then 1.0 else pct;
    if p <= 0.0 then 0
    else if p >= 1.0 then n - 1
    else
      var rank := Ceil(Times(pct, n));
      Clamp(if rank >= 1 then rank - 1 else 0, 0, n - 1)
  }

  function PercentileSorted(s: seq<nat>, pct: real): (v: nat)
    requires IsSorted(s)
    ensures s == [] ==> v == 0
    ensures s != [] ==> IsNearestRank(s, Rank(pct, |s|), v)
  {
    if s == [] then 0 else
      AtIsNearestRank(s, Index(pct, |s|));
      s[Index(pct, |s|)]
  }

  function PercentileOf(samples: seq<nat>, pct: real): (v: nat)
    ensures samples == [] ==> v == 0
    ensures samples != [] ==> IsNearestRank(samples, Rank(pct, |samples|), v)
  {
    var v := PercentileSorted(Sorted(samples), pct);
    if samples != [] then NearestRankIgnoresOrder(Sorted(samples), samples, Rank(pct, |samples|), v); v else v
  }

  // -- proofs -------------------------------------------------------------------

  lemma TimesGrows(p: real, q: real, n: nat)
    requires p <= q
    ensures Times(p, n) <= Times(q, n)
  {
    assert (q - p) * n as real >= 0.0;
  }

  lemma TimesBounds(p: real, n: nat)
    ensures p <= 0.0 ==> Times(p, n) <= 0.0
    ensures p >= 1.0 ==> Times(p, n) >= n as real
  {
    if p <= 0.0 { TimesGrows(p, 0.0, n); }
    if p >= 1.0 { TimesGrows(1.0, p, n); }
  }

  lemma RoundedGrows(x: real, y: real, n: nat)
    requires n > 0
    ensures x <= y ==> Rounded(x, n) <= Rounded(y, n)
    ensures x <= 0.0 ==> Rounded(x, n) == 1
    ensures x >= n as real ==> Rounded(x, n) == n
  {
  }

  lemma RankOfClamped(pct: real, n: nat)
    requires n > 0
    ensures pct <= 0.0 ==> Rank(pct, n) == 1
    ensures pct >= 1.0 ==> Rank(pct, n) == n
  {
    TimesBounds(pct, n);
    RoundedGrows(Times(pct, n), 0.0, n);
  }

  lemma {:induction false} CountUpToPrefix(s: seq<nat>, x: int, k: nat)
    requires k <= |s|
    requires forall i | 0 <= i < k :: s[i] <= x
    requires forall i | k <= i < |s| :: s[i] > x
    ensures CountUpTo(s, x) == k
  {
    if s != [] { CountUpToPrefix(s[..|s| - 1], x, if k == |s| then k - 1 else k); }
  }

  lemma {:induction false} CountUpToGrows(s: seq<nat>, x: int, y: int)
    requires x <= y
    ensures CountUpTo(s, x) <= CountUpTo(s, y)
  {
    if s != [] { CountUpToGrows(s[..|s| - 1], x, y); }
  }

  lemma {:induction false} CountUpToJoins(a: seq<nat>, b: seq<nat>, x: int)
    ensures CountUpTo(a + b, x) == CountUpTo(a, x) + CountUpTo(b, x)
  {
    if b == [] {
      assert a + b == a;
    } else {
      CountUpToJoins(a, b[..|b| - 1], x);
      assert (a + b)[..|a + b| - 1] == a + b[..|b| - 1];
    }
  }

  lemma AtLeastUpTo(s: seq<nat>, idx: nat)
    requires IsSorted(s) && idx < |s|
    ensures CountUpTo(s, s[idx]) >= idx + 1
  {
    var x: int, front, back := s[idx], s[..idx + 1], s[idx + 1..];
    assert s == front + back;
    CountUpToJoins(front, back, x);
    forall i | 0 <= i <= idx ensures front[i] <= x { assert front[i] == s[i]; }
    CountUpToPrefix(front, x, idx + 1);
  }

  lemma AtMostBelow(s: seq<nat>, idx: nat)
    requires IsSorted(s) && idx < |s|
    ensures CountUpTo(s, s[idx] as int - 1) <= idx
  {
    var front, back, below: int := s[..idx], s[idx..], s[idx] as int - 1;
    assert s == front + back;
    CountUpToJoins(front, back, below);
    forall i | 0 <= i < |back| ensures back[i] > below { assert back[i] == s[idx + i]; }
    CountUpToPrefix(back, below, 0);
  }

  /** In sorted samples the one at `idx` has the rank `idx + 1`. */
  lemma AtIsNearestRank(s: seq<nat>, idx: nat)
    requires IsSorted(s) && idx < |s|
    ensures IsNearestRank(s, idx + 1, s[idx])
  {
    AtLeastUpTo(s, idx);
    AtMostBelow(s, idx);
  }

  lemma Cancel(a: multiset<nat>, b: multiset<nat>, c: multiset<nat>)
    requires a + c == b + c
    ensures a == b
  {
    assert a == a + c - c && b == b + c - c;
  }

  lemma {:induction false} CountIgnoresOrder(a: seq<nat>, b: seq<nat>, x: int)
    requires multiset(a) == multiset(b)
    ensures CountUpTo(a, x) == CountUpTo(b, x)
    decreases |a|
  {
    if a == [] {
      assert |multiset(b)| == |b|;
    } else {
      var last := a[|a| - 1];
      assert last in multiset(b);
      var k :| 0 <= k < |b| && b[k] == last;
      var front, rest := a[..|a| - 1], b[..k] + b[k + 1..];
      assert a == front + [last] && b == b[..k] + [last] + b[k + 1..];
      var all: multiset<nat> := multiset(a);
      assert all == multiset(front) + multiset([last]) == multiset(rest) + multiset([last]);
      Cancel(multiset(front), multiset(rest), multiset([last]));
      CountIgnoresOrder(front, rest, x);
      CountWithout(b, k, x);
    }
  }

  lemma CountWithout(s: seq<nat>, k: nat, x: int)
    requires k < |s|
    ensures CountUpTo(s, x) == CountUpTo(s[..k] + s[k + 1..], x) + if s[k] <= x then 1 else 0
  {
    assert s == s[..k + 1] + s[k + 1..] && s[..k + 1][..k] == s[..k];
    CountUpToJoins(s[..k + 1], s[k + 1..], x);
    CountUpToJoins(s[..k], s[k + 1..], x);
  }

  lemma NearestRankIgnoresOrder(a: seq<nat>, b: seq<nat>, rank: nat, v: nat)
    requires multiset(a) == multiset(b) && IsNearestRank(a, rank, v)
    ensures IsNearestRank(b, rank, v)
  {
    assert v in multiset(b);
    CountIgnoresOrder(a, b, v);
    CountIgnoresOrder(a, b, v as int - 1);
  }

  /** A higher rank never has a lower value; in particular a rank has only one. */
  lemma RanksAreOrdered(s: seq<nat>, r: nat, v: nat, t: nat, w: nat)
    requires r <= t && IsNearestRank(s, r, v) && IsNearestRank(s, t, w)
    ensures v <= w
  {
    if w < v { CountUpToGrows(s, w, v - 1); }
  }

  /** The order in which samples arrived does not matter. */
  lemma PercentileIgnoresOrder(a: seq<nat>, b: seq<nat>, p: real)
    requires multiset(a) == multiset(b)
    ensures PercentileOf(a, p) == PercentileOf(b, p)
  {
    assert |multiset(a)| == |a| && |multiset(b)| == |b|;
    if a != [] {
      var v, w, r := PercentileOf(a, p), PercentileOf(b, p), Rank(p, |a|);
      NearestRankIgnoresOrder(a, b, r, v);
      RanksAreOrdered(b, r, v, r, w);
      RanksAreOrdered(b, r, w, r, v);
    }
  }

  lemma RankGrows(p: real, q: real, n: nat)
    requires p <= q && n > 0
    ensures Rank(p, n) <= Rank(q, n)
  {
    TimesGrows(p, q, n);
    RoundedGrows(Times(p, n), Times(q, n), n);
  }

  /** A higher percentile is never lower. */
  lemma PercentileGrows(samples: seq<nat>, p: real, q: real)
    requires p <= q
    ensures PercentileOf(samples, p) <= PercentileOf(samples, q)
  {
    if samples != [] {
      RankGrows(p, q, |samples|);
      RanksAreOrdered(samples, Rank(p, |samples|), PercentileOf(samples, p), Rank(q, |samples|),
          PercentileOf(samples, q));
    }
  }

  // -- in terms of shares ---------------------------------------------------------

  /** The samples that are at most `x`, and those that are less, by position. */
  function UpTo(s: seq<nat>, x: int): set<int> { set i | 0 <= i < |s| && s[i] <= x }

  function Below(s: seq<nat>, x: int): set<int> { set i | 0 <= i < |s| && s[i] < x }

  lemma {:induction false} CountUpToCounts(s: seq<nat>, x: int)
    ensures CountUpTo(s, x) == |UpTo(s, x)|
  {
    if s == [] {
      assert UpTo(s, x) == {};
    } else {
      var n := |s| - 1;
      CountUpToCounts(s[..n], x);
      assert UpTo(s, x) == UpTo(s[..n], x) + if s[n] <= x then {n} else {};
    }
  }

  /** The percentile is a sample; at least the share asked for is up to it, and less than that share is below it,
      unless nothing is. */
  lemma TheShareIsReached(samples: seq<nat>, p: real)
    requires samples != []
    ensures var v, share := PercentileOf(samples, p), Times(p, |samples|);
      && share == p * |samples| as real && v in samples
      && (p <= 1.0 ==> |UpTo(samples, v)| as real >= share)
      && (Below(samples, v) == {} || |Below(samples, v)| as real < share)
  {
    RankReaches(p, |samples|);
    RankedShare(samples, Rank(p, |samples|), PercentileOf(samples, p), Times(p, |samples|));
  }

  lemma RankedShare(s: seq<nat>, rank: nat, v: nat, share: real)
    requires IsNearestRank(s, rank, v) && (rank == 1 || (rank - 1) as real < share)
    ensures rank as real >= share ==> |UpTo(s, v)| as real >= share
    ensures Below(s, v) == {} || |Below(s, v)| as real < share
  {
    CountUpToCounts(s, v);
    CountUpToCounts(s, v - 1);
    assert UpTo(s, v - 1) == Below(s, v);
  }

  lemma RankReaches(p: real, n: nat)
    requires n > 0
    ensures p <= 1.0 ==> Rank(p, n) as real >= Times(p, n)
    ensures Rank(p, n) == 1 || (Rank(p, n) - 1) as real < Times(p, n)
  {
    if p <= 1.0 { TimesGrows(p, 1.0, n); } else { TimesBounds(p, n); }
    CeilReaches(Times(p, n), n);
  }

  lemma CeilReaches(x: real, n: nat)
    requires n > 0
    ensures x <= n as real ==> Rounded(x, n) as real >= x
    ensures Rounded(x, n) == 1 || (Rounded(x, n) - 1) as real < x
  {
  }

  // -- the metrics object -----------------------------------------------------------

  class RuntimeMetrics {
    const cap: nat
    var samples: seq<nat>
    var actionCount: nat
    var totalLatency: nat

    constructor (cap: nat)
      ensures this.cap == (if cap == 0 then 1 else cap) && samples == [] && actionCount == totalLatency == 0
    {
      this.cap := if cap == 0 then 1 else cap;
      samples, actionCount, totalLatency := [], 0, 0;
    }

    method RecordAction(latency: nat)
      modifies this
      ensures samples == Appended(cap, old(samples), latency)
      ensures actionCount == old(actionCount) + 1 && totalLatency == old(totalLatency) + latency
    {
      actionCount := actionCount + 1;
      totalLatency := totalLatency + latency;
      if |samples| >= cap && samples != [] { samples := samples[1..]; }
      samples := samples + [latency];
    }

    /** p50, p90 and p99 of the window: all zero when it is empty, otherwise samples in ascending order. */
    method Snapshot() returns (p50: nat, p90: nat, p99: nat)
      ensures p50 == PercentileOf(samples, 0.5) && p90 == PercentileOf(samples, 0.9)
          && p99 == PercentileOf(samples, 0.99)
      ensures p50 <= p90 <= p99
      ensures samples == [] ==> p99 == 0
    {
      p50, p90, p99 := 0, 0, 0;
      if samples != [] {
        p50, p90, p99 := PercentileOf(samples, 0.5), PercentileOf(samples, 0.9), PercentileOf(samples, 0.99);
      }
      PercentileGrows(samples, 0.5, 0.9);
      PercentileGrows(samples, 0.9, 0.99);
    }
  }
}
