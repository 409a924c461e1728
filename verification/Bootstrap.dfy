/**
 The paired bootstrap interval. The random generator is an arbitrary sequence of draws, so everything here holds
 for every seed.
 */
module Bootstrap {
  import opened Sequences
  import opened Sorting
  import opened Quotients

  // ---------------------------------------------------------------- nearest-rank percentile

  datatype Percentile = NoValues | Percentile(value: real)

  predicate AtMost(a: real, b: real) {
    a <= b
  }

  function Ceil(x: real): int {
    -((-x).Floor)
  }

  /** The share p (in percent) of n values. */
  function Share(p: real, n: nat): real {
    (p / 100.0) * n as real
  }

  /** The zero-based place taken from the sorted values. */
  function RankIndex(p: real, n: nat): nat
    requires n > 0
  {
    var rank := if Ceil(Share(p, n)) > 1 then Ceil(Share(p, n)) else 1;
    (if rank < n then rank else n) - 1
  }

  function PercentileOf(values: seq<real>, p: real): Percentile {
    if values == [] then NoValues
    else
      var ordered := Sort(values, AtMost);
      SortLaws(values, AtMost);
      if |ordered| == 1 then Percentile(ordered[0]) else Percentile(ordered[RankIndex(p, |ordered|)])
  }

  /** How many values are at most v. */
  function Count(s: seq<real>, v: real): nat {
    if s == [] then 0 else Count(s[..|s| - 1], v) + (if s[|s| - 1] <= v then 1 else 0)
  }

  ghost function PlacesUpTo(values: seq<real>, v: real): set<nat> {
    set i: nat | i < |values| && values[i] <= v
  }

  /** The least of the values that at least p percent of the values do not exceed. */
  ghost predicate IsNearestRank(values: seq<real>, p: real, v: real) {
    && v in values
    && 100.0 * |PlacesUpTo(values, v)| as real >= p * |values| as real
    && forall w :: w in values && w < v ==> 100.0 * |PlacesUpTo(values, w)| as real < p * |values| as real
  }

  lemma {:induction false} CountIsSize(values: seq<real>, v: real)
    ensures Count(values, v) == |PlacesUpTo(values, v)|
    decreases |values|
  {
    if values != [] {
      var n := |values| - 1;
      CountIsSize(values[..n], v);
      assert PlacesUpTo(values, v) == PlacesUpTo(values[..n], v) + (if values[n] <= v then {n} else {});
    } else {
      assert PlacesUpTo(values, v) == {};
    }
  }

  lemma ShareInPercent(p: real, n: nat, count: nat)
    ensures 100.0 * count as real >= p * n as real <==> count as real >= Share(p, n)
  {
    assert 100.0 * Share(p, n) == p * n as real;
  }

  lemma {:induction false} CountSplit(a: seq<real>, x: real, b: seq<real>, v: real)
    ensures Count(a + [x] + b, v) == Count(a + b, v) + (if x <= v then 1 else 0)
    decreases |b|
  {
    if b == [] {
      assert a + [x] + b == a + [x] && (a + [x])[..|a|] == a && a + b == a;
    } else {
      var n := |b| - 1;
      assert (a + [x] + b)[..|a| + 1 + n] == a + [x] + b[..n];
      assert (a + b)[..|a| + n] == a + b[..n];
      CountSplit(a, x, b[..n], v);
    }
  }

  lemma {:induction false} CountSorted(s: seq<real>, v: real)
    ensures Count(Sort(s, AtMost), v) == Count(s, v)
    decreases |s|
  {
    hide Insert;
    if s != [] {
      var n := |s| - 1;
      var before := Sort(s[..n], AtMost);
      CountSorted(s[..n], v);
      SortLaws(s[..n], AtMost);
      var p := InsertPosition(before, s[n], AtMost);
      CountSplit(before[..p], s[n], before[p..], v);
      assert before[..p] + before[p..] == before;
    }
  }

  lemma {:induction false} CountBounds(s: seq<real>, v: real, m: nat)
    requires m <= |s|
    ensures (forall i :: 0 <= i < m ==> s[i] <= v) ==> Count(s, v) >= m
    ensures (forall i :: m <= i < |s| ==> s[i] > v) ==> Count(s, v) <= m
    decreases |s|
  {
    if s != [] {
      var n := |s| - 1;
      CountBounds(s[..n], v, if m <= n then m else n);
    }
  }

  lemma RankIndexBounds(p: real, n: nat)
    requires n > 0 && 0.0 <= p <= 100.0
    ensures RankIndex(p, n) < n
    ensures (RankIndex(p, n) + 1) as real >= Share(p, n)
    ensures RankIndex(p, n) > 0 ==> (RankIndex(p, n) as real) < Share(p, n)
  {
    ShareMonotone(p, 100.0, n);
    ShareMonotone(0.0, p, n);
  }

  lemma ShareMonotone(p: real, q: real, n: nat)
    requires p <= q
    ensures Share(p, n) <= Share(q, n)
    ensures Share(100.0, n) == n as real && Share(0.0, n) == 0.0
  {
    assert (q / 100.0 - p / 100.0) * n as real >= 0.0;
  }

  lemma NearestRankByCount(values: seq<real>, p: real)
    requires values != [] && 0.0 <= p <= 100.0
    ensures PercentileOf(values, p).Percentile? && PercentileOf(values, p).value in values
    ensures Count(values, PercentileOf(values, p).value) as real >= Share(p, |values|)
    ensures forall w :: w in values && w < PercentileOf(values, p).value ==> (Count(values, w) as real) < Share(p, |values|)
  {
    hide Sort, Count, RankIndex, Share;
    var n, ordered := |values|, Sort(values, AtMost);
    SortLaws(values, AtMost);
    RankIndexBounds(p, n);
    var k := RankIndex(p, n);
    var v := ordered[k];
    CountSorted(values, v);
    CountBounds(ordered, v, k + 1);
    assert v in values;
    forall w | w in values && w < v ensures (Count(values, w) as real) < Share(p, n) {
      CountSorted(values, w);
      CountBounds(ordered, w, k);
    }
  }

  /** The percentile is the least value that at least p percent of the values do not exceed. */
  lemma PercentileIsNearestRank(values: seq<real>, p: real)
    requires values != [] && 0.0 <= p <= 100.0
    ensures PercentileOf(values, p).Percentile? && IsNearestRank(values, p, PercentileOf(values, p).value)
  {
    hide PercentileOf, Count, Share, PlacesUpTo;
    NearestRankByCount(values, p);
    var v := PercentileOf(values, p).value;
    CountIsSize(values, v);
    ShareInPercent(p, |values|, Count(values, v));
    forall w | w in values && w < v ensures 100.0 * |PlacesUpTo(values, w)| as real < p * |values| as real {
      CountIsSize(values, w);
      ShareInPercent(p, |values|, Count(values, w));
    }
  }

  /** A larger percentage never gives a smaller value, and percentages outside 0 to 100 give the end values. */
  lemma PercentileMonotone(values: seq<real>, p: real, q: real)
    requires values != [] && p <= q
    ensures PercentileOf(values, p).Percentile? && PercentileOf(values, q).Percentile?
    ensures PercentileOf(values, p).value <= PercentileOf(values, q).value
    ensures PercentileOf(values, p).value in values
    ensures p <= 0.0 ==> forall w :: w in values ==> PercentileOf(values, p).value <= w
    ensures p >= 100.0 ==> forall w :: w in values ==> w <= PercentileOf(values, p).value
  {
    hide Sort, Share;
    SortLaws(values, AtMost);
    ShareMonotone(p, q, |values|);
    if p <= 0.0 {
      ShareMonotone(p, 0.0, |values|);
    }
    if p >= 100.0 {
      ShareMonotone(100.0, p, |values|);
    }
  }

  // ---------------------------------------------------------------- means

  function Total(s: seq<real>): real {
    if s == [] then 0.0 else Total(s[..|s| - 1]) + s[|s| - 1]
  }

  function Mean(s: seq<real>): real
    requires s != []
  {
    Total(s) / |s| as real
  }

  ghost predicate Within(s: seq<real>, lo: real, hi: real) {
    forall i :: 0 <= i < |s| ==> lo <= s[i] <= hi
  }

  lemma {:induction false} TotalBounds(s: seq<real>, lo: real, hi: real)
    requires Within(s, lo, hi)
    ensures lo * |s| as real <= Total(s) <= hi * |s| as real
    decreases |s|
  {
    if s != [] {
      var n := |s| - 1;
      TotalBounds(s[..n], lo, hi);
      assert lo * |s| as real == lo * n as real + lo;
      assert hi * |s| as real == hi * n as real + hi;
    }
  }

  lemma MeanBounds(s: seq<real>, lo: real, hi: real)
    requires s != [] && Within(s, lo, hi)
    ensures lo <= Mean(s) <= hi
  {
    hide Total;
    TotalBounds(s, lo, hi);
    QuotientBound(Total(s), lo, |s| as real);
    QuotientBound(Total(s), hi, |s| as real);
  }

  // ---------------------------------------------------------------- the interval

  datatype Interval = DifferentQueries | NoQueries | NoSamples | Interval(mean: real, lower: real, upper: real)

  function Deltas<I(==)>(baseline: map<I, real>, candidate: map<I, real>, ids: seq<I>): seq<real>
    requires forall x :: x in ids ==> x in baseline && x in candidate
  {
    seq(|ids|, i requires 0 <= i < |ids| => candidate[ids[i]] - baseline[ids[i]])
  }

  /** One resample: the deltas of the drawn queries. */
  function Resample(deltas: seq<real>, draw: seq<nat>): seq<real>
    requires forall j :: 0 <= j < |draw| ==> draw[j] < |deltas|
  {
    seq(|draw|, j requires 0 <= j < |draw| => deltas[draw[j]])
  }

  ghost predicate DrawsOk(draws: seq<seq<nat>>, n: nat) {
    forall i :: 0 <= i < |draws| ==> |draws[i]| == n && forall j :: 0 <= j < n ==> draws[i][j] < n
  }

  /** The mean of every resample. */
  ghost function ResampledMeans(deltas: seq<real>, draws: seq<seq<nat>>): (means: seq<real>)
    requires deltas != [] && DrawsOk(draws, |deltas|)
    ensures |means| == |draws|
  {
    seq(|draws|, i requires 0 <= i < |draws| => Mean(Resample(deltas, draws[i])))
  }

  /** The mean delta, and the two percentiles of the resampled means that leave out the same share at both ends. */
  ghost predicate IsInterval<I(!new)>(
      baseline: map<I, real>, candidate: map<I, real>, ids: seq<I>, draws: seq<seq<nat>>, confidence: real, r: Interval)
    requires ids != [] && (forall x :: x in ids ==> x in baseline && x in candidate) && DrawsOk(draws, |ids|)
  {
    var deltas := Deltas(baseline, candidate, ids);
    var means := ResampledMeans(deltas, draws);
    && r.Interval?
    && r.mean == Mean(deltas)
    && Percentile(r.lower) == PercentileOf(means, (1.0 - confidence) / 2.0 * 100.0)
    && Percentile(r.upper) == PercentileOf(means, (1.0 - (1.0 - confidence) / 2.0) * 100.0)
  }

  // ---------------------------------------------------------------- what the numbers mean on the two runs

  /** Totals add up. */
  lemma {:induction false} TotalLaws(a: seq<real>, b: seq<real>, x: real)
    ensures Total([]) == 0.0 && Total([x]) == x && Total(a + b) == Total(a) + Total(b)
    decreases |b|
  {
    assert [x][..0] == [];
    if b == [] {
      assert a + b == a;
    } else {
      var n := |b| - 1;
      assert (a + b)[..|a| + n] == a + b[..n];
      TotalLaws(a, b[..n], x);
    }
  }

  lemma {:induction false} TotalOfDifferences(c: seq<real>, b: seq<real>, d: seq<real>)
    requires |c| == |b| == |d| && forall i :: 0 <= i < |d| ==> d[i] == c[i] - b[i]
    ensures Total(d) == Total(c) - Total(b)
    decreases |d|
  {
    if d != [] {
      TotalOfDifferences(c[..|c| - 1], b[..|b| - 1], d[..|d| - 1]);
    }
  }

  /** The scores of the listed queries. */
  function Scores<I(==)>(run: map<I, real>, ids: seq<I>): seq<real>
    requires forall x :: x in ids ==> x in run
  {
    seq(|ids|, i requires 0 <= i < |ids| => run[ids[i]])
  }

  function Picked<I>(ids: seq<I>, draw: seq<nat>): (picked: seq<I>)
    requires forall j :: 0 <= j < |draw| ==> draw[j] < |ids|
    ensures forall x :: x in picked ==> x in ids
  {
    seq(|draw|, j requires 0 <= j < |draw| => ids[draw[j]])
  }

  /** The mean delta, and the mean of every resample: total of the candidate less total of the baseline, over the number of queries. */
  lemma MeansOfRuns<I(!new)>(baseline: map<I, real>, candidate: map<I, real>, ids: seq<I>, draws: seq<seq<nat>>)
    requires ids != [] && (forall x :: x in ids ==> x in baseline && x in candidate) && DrawsOk(draws, |ids|)
    ensures var n, deltas := |ids| as real, Deltas(baseline, candidate, ids);
            && n * Mean(deltas) == Total(Scores(candidate, ids)) - Total(Scores(baseline, ids))
            && forall i :: 0 <= i < |draws| ==>
                 n * ResampledMeans(deltas, draws)[i] == Total(Scores(candidate, Picked(ids, draws[i]))) - Total(Scores(baseline, Picked(ids, draws[i])))
  {
    hide Total;
    var n, deltas := |ids| as real, Deltas(baseline, candidate, ids);
    TotalOfDifferences(Scores(candidate, ids), Scores(baseline, ids), deltas);
    Divide(Total(deltas), Total(deltas), n);
    forall i | 0 <= i < |draws|
      ensures n * ResampledMeans(deltas, draws)[i] == Total(Scores(candidate, Picked(ids, draws[i]))) - Total(Scores(baseline, Picked(ids, draws[i])))
    {
      var picked, sample := Picked(ids, draws[i]), Resample(deltas, draws[i]);
      TotalOfDifferences(Scores(candidate, picked), Scores(baseline, picked), sample);
      Divide(Total(sample), Total(sample), n);
    }
  }

  /** ids is the sorted list of query ids; draws holds the picks of the random generator, one list per sample. */
  method PairedBootstrap<I(==,!new)>(
      baseline: map<I, real>, candidate: map<I, real>, ids: seq<I>, draws: seq<seq<nat>>, confidence: real)
    returns (r: Interval)
    requires Distinct(ids) && forall x :: x in ids <==> x in baseline
    requires DrawsOk(draws, |ids|)
    ensures r.DifferentQueries? <==> baseline.Keys != candidate.Keys
    ensures r.NoQueries? <==> baseline.Keys == candidate.Keys == {}
    ensures r.NoSamples? <==> baseline.Keys == candidate.Keys != {} && draws == []
    ensures r.Interval? ==> IsInterval(baseline, candidate, ids, draws, confidence, r)
  {
    hide PercentileOf, Mean;
    if baseline.Keys != candidate.Keys {
      return DifferentQueries;
    }
    if baseline.Keys == {} {
      return NoQueries;
    }
    if |draws| < 1 {
      return NoSamples;
    }
    var deltas := Deltas(baseline, candidate, ids);
    var observed := Mean(deltas);
    var bootstrapped: seq<real> := [];
    for i := 0 to |draws|
      invariant bootstrapped == ResampledMeans(deltas, draws)[..i]
    {
      bootstrapped := bootstrapped + [Mean(Resample(deltas, draws[i]))];
    }
    assert bootstrapped == ResampledMeans(deltas, draws);
    var lowerTail := (1.0 - confidence) / 2.0;
    NonEmptyPercentile(bootstrapped, lowerTail * 100.0);
    NonEmptyPercentile(bootstrapped, (1.0 - lowerTail) * 100.0);
    r := Interval(
      observed,
      PercentileOf(bootstrapped, lowerTail * 100.0).value,
      PercentileOf(bootstrapped, (1.0 - lowerTail) * 100.0).value);
  }

  lemma NonEmptyPercentile(values: seq<real>, p: real)
    requires values != []
    ensures PercentileOf(values, p).Percentile?
  {
  }

  /**
   Whatever was drawn: the bounds are in order, both are means of resamples, and neither they nor the observed mean
   leave the range of the deltas.
   */
  lemma IntervalInRange(deltas: seq<real>, draws: seq<seq<nat>>, confidence: real, lo: real, hi: real)
    requires deltas != [] && draws != [] && DrawsOk(draws, |deltas|) && confidence >= 0.0 && Within(deltas, lo, hi)
    ensures var means := ResampledMeans(deltas, draws);
            var lower := PercentileOf(means, (1.0 - confidence) / 2.0 * 100.0);
            var upper := PercentileOf(means, (1.0 - (1.0 - confidence) / 2.0) * 100.0);
            && lower.Percentile? && upper.Percentile?
            && lower.value in means && upper.value in means
            && lo <= lower.value <= upper.value <= hi
            && lo <= Mean(deltas) <= hi
  {
    hide PercentileOf, Mean;
    var means := ResampledMeans(deltas, draws);
    forall i | 0 <= i < |means| ensures lo <= means[i] <= hi {
      MeanBounds(Resample(deltas, draws[i]), lo, hi);
    }
    MeanBounds(deltas, lo, hi);
    PercentileMonotone(means, (1.0 - confidence) / 2.0 * 100.0, (1.0 - (1.0 - confidence) / 2.0) * 100.0);
    PercentileMonotone(means, (1.0 - (1.0 - confidence) / 2.0) * 100.0, (1.0 - (1.0 - confidence) / 2.0) * 100.0);
  }

  /** When every query has the same delta, the interval is that point. */
  lemma EqualDeltasGivePoint(deltas: seq<real>, draws: seq<seq<nat>>, confidence: real, d: real)
    requires deltas != [] && draws != [] && DrawsOk(draws, |deltas|) && confidence >= 0.0
    requires forall i :: 0 <= i < |deltas| ==> deltas[i] == d
    ensures var means := ResampledMeans(deltas, draws);
            && PercentileOf(means, (1.0 - confidence) / 2.0 * 100.0) == Percentile(d)
            && PercentileOf(means, (1.0 - (1.0 - confidence) / 2.0) * 100.0) == Percentile(d)
            && Mean(deltas) == d
  {
    hide PercentileOf, Mean;
    IntervalInRange(deltas, draws, confidence, d, d);
  }

  /**
   The sign: if on every query the candidate is between lo and hi above the baseline, so are the mean and both bounds.
   In particular a candidate that is nowhere below the baseline has a lower bound of at least 0, and one that is above it
   everywhere a positive one.
   */
  lemma IntervalOfRuns<I(!new)>(
      baseline: map<I, real>, candidate: map<I, real>, ids: seq<I>, draws: seq<seq<nat>>, confidence: real, lo: real, hi: real, r: Interval)
    requires ids != [] && draws != [] && DrawsOk(draws, |ids|) && confidence >= 0.0
    requires forall x :: x in ids ==> x in baseline && x in candidate && lo <= candidate[x] - baseline[x] <= hi
    requires IsInterval(baseline, candidate, ids, draws, confidence, r)
    ensures lo <= r.mean <= hi && lo <= r.lower <= r.upper <= hi
  {
    hide PercentileOf, Mean;
    forall i | 0 <= i < |ids| ensures lo <= Deltas(baseline, candidate, ids)[i] <= hi {
      assert ids[i] in ids;
    }
    IntervalInRange(Deltas(baseline, candidate, ids), draws, confidence, lo, hi);
  }

  lemma BetterEverywhere<I(!new)>(
      baseline: map<I, real>, candidate: map<I, real>, ids: seq<I>, draws: seq<seq<nat>>, confidence: real, r: Interval)
    requires ids != [] && draws != [] && DrawsOk(draws, |ids|) && confidence >= 0.0
    requires forall x :: x in ids ==> x in baseline && x in candidate
    requires IsInterval(baseline, candidate, ids, draws, confidence, r)
    ensures (forall x :: x in ids ==> candidate[x] >= baseline[x]) ==> r.lower >= 0.0 && r.mean >= 0.0
    ensures (forall x :: x in ids ==> candidate[x] > baseline[x]) ==> r.lower > 0.0 && r.mean > 0.0
  {
    hide PercentileOf, Mean, IsInterval;
    var deltas := Deltas(baseline, candidate, ids);
    var least, most := Extremes(deltas);
    forall x | x in ids ensures least <= candidate[x] - baseline[x] <= most {
      var i :| 0 <= i < |ids| && ids[i] == x;
      assert deltas[i] == candidate[x] - baseline[x];
    }
    var k :| 0 <= k < |deltas| && deltas[k] == least;
    assert ids[k] in ids;
    IntervalOfRuns(baseline, candidate, ids, draws, confidence, least, most, r);
  }

  lemma {:induction false} Extremes(s: seq<real>) returns (least: real, most: real)
    requires s != []
    ensures least in s && Within(s, least, most)
    decreases |s|
  {
    var n := |s| - 1;
    least, most := s[n], s[n];
    if n > 0 {
      var a, b := Extremes(s[..n]);
      least, most := if a < s[n] then a else s[n], if b > s[n] then b else s[n];
    }
  }
}
