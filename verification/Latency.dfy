/** Interval quantiles of the latency analyzer (tools/video-latency/analyze.py), over the reals. */
module Latency {
  import opened Machine

  predicate IsSorted(s: seq<real>) { forall i, j :: 0 <= i < j < |s| ==> s[i] <= s[j] }

  function Insert(v: real, s: seq<real>): (r: seq<real>)
    requires IsSorted(s)
    ensures |r| == |s| + 1 && multiset(r) == multiset{v} + multiset(s)
    ensures IsSorted(r)
    ensures r[0] == v || (s != [] && r[0] == s[0])
  {
    if s == [] || v <= s[0] then
      [v] + s
    else
      assert s == [s[0]] + s[1..];
      var rest := Insert(v, s[1..]);
      [s[0]] + rest
  }

  /** Python's sorted. */
  function Sorted(s: seq<real>): (r: seq<real>)
    ensures IsSorted(r) && |r| == |s| && multiset(r) == multiset(s)
  {
    if s == [] then []
    else
      assert s == [s[0]] + s[1..];
      Insert(s[0], Sorted(s[1..]))
  }

  function Ceil(x: real): int { -((-x).Floor) }

  /** max(0, ceil(n * q) - 1). */
  function RankIndex(n: nat, q: real): nat {
    var k := Ceil(n as real * q) - 1;
    if k < 0 then 0 else k
  }

  /** nearest_rank; None where Python raises IndexError. */
  function NearestRank(values: seq<real>, q: real): Option<real> {
    var k := RankIndex(|values|, q);
    if k < |values| then Some(Sorted(values)[k]) else None
  }

  // ------------------------------------------------ order statistics by counting

  /** How many of the values are at most x. */
  function CountLe(s: seq<real>, x: real): nat {
    if s == [] then 0 else (if s[0] <= x then 1 else 0) + CountLe(s[1..], x)
  }

  lemma {:induction false} CountLeAppend(a: seq<real>, b: seq<real>, x: real)
    ensures CountLe(a + b, x) == CountLe(a, x) + CountLe(b, x)
  {
    if a == [] {
      assert a + b == b;
    } else {
      assert (a + b)[1..] == a[1..] + b;
      CountLeAppend(a[1..], b, x);
    }
  }

  lemma {:induction false} CountLeAll(s: seq<real>, x: real)
    requires forall i :: 0 <= i < |s| ==> s[i] <= x
    ensures CountLe(s, x) == |s|
  {
    if s != [] {
      CountLeAll(s[1..], x);
    }
  }

  lemma {:induction false} CountLeNone(s: seq<real>, x: real)
    requires forall i :: 0 <= i < |s| ==> s[i] > x
    ensures CountLe(s, x) == 0
  {
    if s != [] {
      CountLeNone(s[1..], x);
    }
  }

  lemma {:induction false} CountLeAtMost(s: seq<real>, x: real)
    ensures CountLe(s, x) <= |s|
  {
    if s != [] { CountLeAtMost(s[1..], x); }
  }

  lemma {:induction false} CountLeInsert(v: real, s: seq<real>, x: real)
    requires IsSorted(s)
    ensures CountLe(Insert(v, s), x) == (if v <= x then 1 else 0) + CountLe(s, x)
  {
    if s == [] || v <= s[0] {
      assert ([v] + s)[1..] == s;
    } else {
      CountLeInsert(v, s[1..], x);
      assert ([s[0]] + Insert(v, s[1..]))[1..] == Insert(v, s[1..]);
    }
  }

  lemma {:induction false} CountLeSorted(s: seq<real>, x: real)
    ensures CountLe(Sorted(s), x) == CountLe(s, x)
  {
    if s != [] {
      CountLeSorted(s[1..], x);
      CountLeInsert(s[0], Sorted(s[1..]), x);
    }
  }

  lemma KthOfSorted(r: seq<real>, k: nat, x: real)
    requires IsSorted(r) && k < |r|
    ensures r[k] <= x <==> CountLe(r, x) > k
  {
    hide CountLe;
    if r[k] <= x {
      var a, b := r[..k + 1], r[k + 1..];
      assert r == a + b;
      CountLeAppend(a, b, x);
      CountLeAll(a, x);
    } else {
      var a, b := r[..k], r[k..];
      assert r == a + b;
      CountLeAppend(a, b, x);
      CountLeNone(b, x);
      CountLeAtMost(a, x);
    }
  }

  /** The k-th smallest value is at most x exactly when more than k values are. */
  lemma KthByCounting(s: seq<real>, k: nat, x: real)
    requires k < |s|
    ensures Sorted(s)[k] <= x <==> CountLe(s, x) > k
  {
    hide CountLe;
    CountLeSorted(s, x);
    KthOfSorted(Sorted(s), k, x);
  }

  lemma CeilBounds(x: real)
    ensures x <= Ceil(x) as real < x + 1.0
  {
  }

  lemma RankIndexInRange(n: nat, q: real)
    requires 0.0 <= q <= 1.0 && n > 0
    ensures RankIndex(n, q) < n
  {
    CeilBounds(n as real * q);
    assert n as real * q <= n as real;
  }

  lemma KthIsValue(s: seq<real>, k: nat)
    requires k < |s|
    ensures Sorted(s)[k] in s
  {
    assert Sorted(s)[k] in multiset(Sorted(s));
  }

  /** The rank is the least count, at least one, that reaches the fraction q of n. */
  lemma RankIndexMeaning(n: nat, q: real, count: nat)
    requires count >= 1 && q >= 0.0
    ensures count > RankIndex(n, q) <==> count as real >= n as real * q
  {
    CeilBounds(n as real * q);
  }

  /** What the nearest rank means: the smallest of the values with at least the fraction q of all
      values at or below it. */
  lemma NearestRankMeaning(values: seq<real>, q: real)
    requires values != [] && 0.0 <= q <= 1.0
    ensures var r := NearestRank(values, q);
            && r.Some? && r.value in values
            && CountLe(values, r.value) as real >= |values| as real * q
            && forall v :: v in values && v < r.value ==> (CountLe(values, v) as real) < |values| as real * q
  {
    hide CountLe, Sorted, RankIndex;
    var n := |values|;
    RankIndexInRange(n, q);
    var k := RankIndex(n, q);
    var r := Sorted(values)[k];
    KthIsValue(values, k);
    KthByCounting(values, k, r);
    RankIndexMeaning(n, q, CountLe(values, r));
    forall v | v in values && v < r ensures (CountLe(values, v) as real) < n as real * q {
      KthByCounting(values, k, v);
      SomeLe(values, v);
      RankIndexMeaning(n, q, CountLe(values, v));
    }
  }

  lemma {:induction false} SomeLe(s: seq<real>, x: real)
    requires x in s
    ensures CountLe(s, x) >= 1
  {
    if s[0] != x { SomeLe(s[1..], x); }
  }

  // ------------------------------------------------ bounds

  ghost predicate Below(a: seq<real>, b: seq<real>) { |a| == |b| && forall i :: 0 <= i < |a| ==> a[i] <= b[i] }

  lemma {:induction false} CountLeMonotone(a: seq<real>, b: seq<real>, x: real)
    requires Below(a, b)
    ensures CountLe(a, x) >= CountLe(b, x)
  {
    if a != [] {
      assert a[0] <= b[0];
      assert forall i :: 0 <= i < |a| - 1 ==> a[1..][i] == a[i + 1] && b[1..][i] == b[i + 1];
      CountLeMonotone(a[1..], b[1..], x);
    }
  }

  /** Lowering every sample, without regard to order, never raises a quantile. */
  lemma NearestRankMonotone(a: seq<real>, b: seq<real>, q: real)
    requires Below(a, b) && NearestRank(b, q).Some?
    ensures NearestRank(a, q).Some? && NearestRank(a, q).value <= NearestRank(b, q).value
  {
    hide CountLe, Sorted, RankIndex;
    var k := RankIndex(|a|, q);
    var x := Sorted(b)[k];
    KthByCounting(b, k, x);
    CountLeMonotone(a, b, x);
    KthByCounting(a, k, x);
  }

  lemma LeastFirst(r: seq<real>, s: seq<real>)
    requires IsSorted(r) && IsSorted(s) && multiset(r) == multiset(s) && r != [] && s != []
    ensures s[0] <= r[0]
  {
    assert r[0] in multiset(s);
    var i :| 0 <= i < |s| && s[i] == r[0];
  }

  lemma {:induction false} SortedIsUnique(r: seq<real>, s: seq<real>)
    requires IsSorted(r) && IsSorted(s) && multiset(r) == multiset(s)
    ensures r == s
  {
    assert |r| == |multiset(r)| && |s| == |multiset(s)|;
    if r != [] {
      LeastFirst(r, s);
      LeastFirst(s, r);
      assert r == [r[0]] + r[1..] && s == [s[0]] + s[1..];
      assert multiset(r[1..]) == multiset(r) - multiset{r[0]};
      assert multiset(s[1..]) == multiset(s) - multiset{s[0]};
      SortedIsUnique(r[1..], s[1..]);
    }
  }

  /** The order in which samples were taken does not matter. */
  lemma NearestRankIgnoresOrder(a: seq<real>, b: seq<real>, q: real)
    requires multiset(a) == multiset(b)
    ensures NearestRank(a, q) == NearestRank(b, q)
  {
    hide RankIndex;
    assert |a| == |multiset(a)| && |b| == |multiset(b)|;
    SortedIsUnique(Sorted(a), Sorted(b));
  }

  // ------------------------------------------------ latency_quantiles

  datatype Observation = Observation(syncError: real, captureBefore: real, captureAfter: real, sourceTimestamp: real)

  datatype Sample = Sample(lower: real, estimate: real, upper: real)

  datatype Quantile = Quantile(estimate: real, lower: real, upper: real, errorBound: real)

  function SampleOf(o: Observation, sourceError: real): Sample {
    var uncertainty := o.syncError + sourceError + 0.5;
    var lower := o.captureBefore - o.sourceTimestamp - uncertainty;
    var upper := o.captureAfter - o.sourceTimestamp + uncertainty;
    Sample(lower, (lower + upper) / 2.0, upper)
  }

  function Max(a: real, b: real): real { if a < b then b else a }

  function Lowers(ss: seq<Sample>): (r: seq<real>)
    ensures |r| == |ss|
  {
    seq(|ss|, i requires 0 <= i < |ss| => ss[i].lower)
  }

  function Estimates(ss: seq<Sample>): (r: seq<real>)
    ensures |r| == |ss|
  {
    seq(|ss|, i requires 0 <= i < |ss| => ss[i].estimate)
  }

  function Uppers(ss: seq<Sample>): (r: seq<real>)
    ensures |r| == |ss|
  {
    seq(|ss|, i requires 0 <= i < |ss| => ss[i].upper)
  }

  function QuantileOf(ss: seq<Sample>, q: real): Option<Quantile> {
    match (NearestRank(Lowers(ss), q), NearestRank(Estimates(ss), q), NearestRank(Uppers(ss), q))
    case (Some(lower), Some(estimate), Some(upper)) =>
      Some(Quantile(estimate, lower, upper, Max(estimate - lower, upper - estimate)))
    case _ => None
  }

  /** If the clocks are off by no more than the stated errors, the true latency of a capture lies
      within its sample's bounds. */
  lemma SampleCoversTruth(o: Observation, sourceError: real, captured: real, shown: real)
    requires o.captureBefore - o.syncError <= captured <= o.captureAfter + o.syncError
    requires o.sourceTimestamp - sourceError - 0.5 <= shown <= o.sourceTimestamp + sourceError + 0.5
    ensures SampleOf(o, sourceError).lower <= captured - shown <= SampleOf(o, sourceError).upper
  {
  }

  ghost predicate Covers(ss: seq<Sample>, truth: seq<real>) {
    |truth| == |ss| && forall i :: 0 <= i < |ss| ==> ss[i].lower <= truth[i] <= ss[i].upper
  }

  /** The true quantile lies between the reported bounds, and within the reported error of the
      reported estimate. */
  lemma QuantileCoversTruth(ss: seq<Sample>, truth: seq<real>, q: real)
    requires Covers(ss, truth) && ss != [] && 0.0 <= q <= 1.0
    ensures var r := QuantileOf(ss, q);
            var t := NearestRank(truth, q);
            && r.Some? && t.Some?
            && r.value.lower <= t.value <= r.value.upper
            && -r.value.errorBound <= t.value - r.value.estimate <= r.value.errorBound
  {
    hide NearestRank;
    NearestRankDefined(truth, q);
    NearestRankDefined(Uppers(ss), q);
    NearestRankDefined(Estimates(ss), q);
    NearestRankMonotone(Lowers(ss), truth, q);
    NearestRankMonotone(truth, Uppers(ss), q);
  }

  lemma NearestRankDefined(values: seq<real>, q: real)
    requires values != [] && 0.0 <= q <= 1.0
    ensures NearestRank(values, q).Some?
  {
    RankIndexInRange(|values|, q);
  }

  datatype Summary = Summary(p50: Quantile, p95: Quantile, p99: Quantile)

  /** latency_quantiles; None where Python raises IndexError on an empty list. */
  method LatencyQuantiles(observations: seq<Observation>, sourceError: real)
    returns (ss: seq<Sample>, result: Option<Summary>)
    ensures |ss| == |observations| && forall i :: 0 <= i < |ss| ==> ss[i] == SampleOf(observations[i], sourceError)
    ensures result == None <==> observations == []
    ensures result.Some? ==>
              && QuantileOf(ss, 0.5) == Some(result.value.p50)
              && QuantileOf(ss, 0.95) == Some(result.value.p95)
              && QuantileOf(ss, 0.99) == Some(result.value.p99)
  {
    hide NearestRank;
    ss := [];
    for i := 0 to |observations|
      invariant |ss| == i && forall j :: 0 <= j < i ==> ss[j] == SampleOf(observations[j], sourceError)
    {
      ss := ss + [SampleOf(observations[i], sourceError)];
    }
    if ss == [] { return ss, None; }
    QuantileDefined(ss, 0.5);
    QuantileDefined(ss, 0.95);
    QuantileDefined(ss, 0.99);
    result := Some(Summary(QuantileOf(ss, 0.5).value, QuantileOf(ss, 0.95).value, QuantileOf(ss, 0.99).value));
  }

  lemma QuantileDefined(ss: seq<Sample>, q: real)
    requires ss != [] && 0.0 <= q <= 1.0
    ensures QuantileOf(ss, q).Some?
  {
    hide NearestRank;
    NearestRankDefined(Lowers(ss), q);
    NearestRankDefined(Estimates(ss), q);
    NearestRankDefined(Uppers(ss), q);
  }

  // ------------------------------------------------ compare_ab_pairs

  datatype Delta = Delta(estimate: real, lower: real, upper: real)

  function DeltaOf(a: Quantile, b: Quantile): Delta {
    Delta(b.estimate - a.estimate, b.lower - a.upper, b.upper - a.lower)
  }

  /** The deltas of one quantile over the eligible pairs, in pair order. */
  method Deltas(pairs: seq<(Quantile, Quantile)>) returns (ds: seq<Delta>)
    ensures |ds| == |pairs| && forall i :: 0 <= i < |ds| ==> ds[i] == DeltaOf(pairs[i].0, pairs[i].1)
  {
    ds := [];
    for i := 0 to |pairs|
      invariant |ds| == i && forall j :: 0 <= j < i ==> ds[j] == DeltaOf(pairs[j].0, pairs[j].1)
    {
      ds := ds + [DeltaOf(pairs[i].0, pairs[i].1)];
    }
  }

  /** The true difference of the two runs' quantiles lies within the reported delta bounds. */
  lemma DeltaCoversTruth(a: seq<Sample>, b: seq<Sample>, truthA: seq<real>, truthB: seq<real>, q: real)
    requires Covers(a, truthA) && Covers(b, truthB) && a != [] && b != [] && 0.0 <= q <= 1.0
    ensures QuantileOf(a, q).Some? && QuantileOf(b, q).Some?
    ensures NearestRank(truthA, q).Some? && NearestRank(truthB, q).Some?
    ensures var d := DeltaOf(QuantileOf(a, q).value, QuantileOf(b, q).value);
            d.lower <= NearestRank(truthB, q).value - NearestRank(truthA, q).value <= d.upper
  {
    hide NearestRank, QuantileOf;
    QuantileCoversTruth(a, truthA, q);
    QuantileCoversTruth(b, truthB, q);
  }
}
