/** The per-query retrieval metrics of one ranking against the set of relevant documents. */
module RankingMetrics {
  import opened Sequences
  import opened Sorting
  import opened Ndcg
  import opened Quotients

  // ---------------------------------------------------------------- specification

  function Hits<I(==)>(s: seq<I>, relevant: set<I>): nat {
    if s == [] then 0 else Hits(s[..|s| - 1], relevant) + (if s[|s| - 1] in relevant then 1 else 0)
  }

  /** The sum of precision values at the places of relevant documents. */
  function PrecisionSum<I(==)>(s: seq<I>, relevant: set<I>): real {
    if s == [] then 0.0
    else
      PrecisionSum(s[..|s| - 1], relevant)
      + (if s[|s| - 1] in relevant then Hits(s, relevant) as real / |s| as real else 0.0)
  }

  function RecallAt<I(==)>(ranked: seq<I>, relevant: set<I>, k: nat): real {
    if relevant == {} then 0.0 else Hits(Take(ranked, k), relevant) as real / |relevant| as real
  }

  function PrecisionAt<I(==)>(ranked: seq<I>, relevant: set<I>, k: nat): real
    requires k > 0
  {
    Hits(Take(ranked, k), relevant) as real / k as real
  }

  function MapAt<I(==)>(ranked: seq<I>, relevant: set<I>, k: nat): real {
    if relevant == {} then 0.0 else PrecisionSum(Take(ranked, k), relevant) / |relevant| as real
  }

  /** r is 1 over the place of the first relevant document, or 0 if there is none. */
  ghost predicate IsReciprocalRank<I(!new)>(s: seq<I>, relevant: set<I>, r: real) {
    if forall i :: 0 <= i < |s| ==> s[i] !in relevant then r == 0.0
    else exists i :: 0 <= i < |s| && s[i] in relevant && (forall j :: 0 <= j < i ==> s[j] !in relevant) && r == 1.0 / (i + 1) as real
  }

  // ---------------------------------------------------------------- the loops

  method MrrAt<I(==,!new)>(ranked: seq<I>, relevant: set<I>, k: nat) returns (r: real)
    ensures IsReciprocalRank(Take(ranked, k), relevant, r)
  {
    var top := Take(ranked, k);
    for i := 0 to |top|
      invariant forall j :: 0 <= j < i ==> top[j] !in relevant
    {
      if top[i] in relevant {
        return 1.0 / (i + 1) as real;
      }
    }
    r := 0.0;
  }

  method MapLoop<I(==)>(ranked: seq<I>, relevant: set<I>, k: nat) returns (r: real)
    ensures r == MapAt(ranked, relevant, k)
  {
    if relevant == {} {
      return 0.0;
    }
    var top := Take(ranked, k);
    var hits, precisionSum := 0, 0.0;
    assert top[..0] == [];
    for i := 0 to |top|
      invariant hits == Hits(top[..i], relevant) && precisionSum == PrecisionSum(top[..i], relevant)
    {
      assert top[..i + 1][..i] == top[..i];
      if top[i] !in relevant {
        continue;
      }
      hits := hits + 1;
      precisionSum := precisionSum + hits as real / (i + 1) as real;
    }
    assert top[..|top|] == top;
    r := precisionSum / |relevant| as real;
  }

  // ---------------------------------------------------------------- the chain of inequalities

  lemma {:induction false} HitsBounded<I(!new)>(s: seq<I>, relevant: set<I>)
    requires Distinct(s)
    ensures Hits(s, relevant) <= |relevant| && Hits(s, relevant) <= |s|
    decreases |s|
  {
    if s != [] {
      var n := |s| - 1;
      var x := s[n];
      if x in relevant {
        HitsBounded(s[..n], relevant - {x});
        HitsWithout(s[..n], relevant, x);
      } else {
        HitsBounded(s[..n], relevant);
      }
    }
  }

  lemma {:induction false} HitsWithout<I(!new)>(s: seq<I>, relevant: set<I>, x: I)
    requires x !in s
    ensures Hits(s, relevant) == Hits(s, relevant - {x})
    decreases |s|
  {
    if s != [] {
      HitsWithout(s[..|s| - 1], relevant, x);
    }
  }

  lemma {:induction false} HitsGrow<I(!new)>(s: seq<I>, relevant: set<I>, i: nat)
    requires i <= |s|
    ensures Hits(s[..i], relevant) <= Hits(s, relevant) <= |s|
    ensures PrecisionSum(s[..i], relevant) <= PrecisionSum(s, relevant)
    decreases |s|
  {
    if i < |s| {
      var n := |s| - 1;
      assert s[..n][..i] == s[..i];
      HitsGrow(s[..n], relevant, i);
      Divide(Hits(s, relevant) as real, Hits(s, relevant) as real, |s| as real);
    } else {
      assert s[..i] == s;
      HitsAtMostLength(s, relevant);
    }
  }

  lemma {:induction false} HitsAtMostLength<I(!new)>(s: seq<I>, relevant: set<I>)
    ensures Hits(s, relevant) <= |s|
    decreases |s|
  {
    if s != [] {
      HitsAtMostLength(s[..|s| - 1], relevant);
    }
  }

  lemma {:induction false} PrecisionSumBounds<I(!new)>(s: seq<I>, relevant: set<I>)
    ensures 0.0 <= PrecisionSum(s, relevant) <= Hits(s, relevant) as real
    decreases |s|
  {
    if s != [] {
      PrecisionSumBounds(s[..|s| - 1], relevant);
      HitsAtMostLength(s, relevant);
      Divide(Hits(s, relevant) as real, Hits(s, relevant) as real, |s| as real);
    }
  }

  /** The first hit alone contributes its reciprocal rank. */
  lemma FirstHitCounts<I(!new)>(s: seq<I>, relevant: set<I>, r: real)
    requires IsReciprocalRank(s, relevant, r)
    ensures r <= PrecisionSum(s, relevant)
  {
    PrecisionSumBounds(s, relevant);
    if i :| 0 <= i < |s| && s[i] in relevant && (forall j :: 0 <= j < i ==> s[j] !in relevant) && r == 1.0 / (i + 1) as real {
      var upTo := s[..i + 1];
      PrecisionSumBounds(upTo[..i], relevant);
      Divide(1.0, Hits(upTo, relevant) as real, (i + 1) as real);
      HitsGrow(s, relevant, i + 1);
    }
  }

  /** MRR@10 / |P| <= MAP@100 <= Recall@100 <= 1. */
  lemma MetricChain<I(!new)>(ranked: seq<I>, relevant: set<I>, mrr: real)
    requires Distinct(ranked) && relevant != {} && IsReciprocalRank(Take(ranked, 10), relevant, mrr)
    ensures mrr / |relevant| as real <= MapAt(ranked, relevant, 100) <= RecallAt(ranked, relevant, 100) <= 1.0
  {
    hide Hits, PrecisionSum, IsReciprocalRank;
    var ten, hundred := Take(ranked, 10), Take(ranked, 100);
    FirstHitCounts(ten, relevant, mrr);
    assert ten == hundred[..|ten|];
    HitsGrow(hundred, relevant, |ten|);
    PrecisionSumBounds(hundred, relevant);
    HitsBounded(hundred, relevant);
    Divide(mrr, PrecisionSum(hundred, relevant), |relevant| as real);
    Divide(PrecisionSum(hundred, relevant), Hits(hundred, relevant) as real, |relevant| as real);
  }

  /** Recall grows with the cutoff. */
  lemma RecallGrows<I(!new)>(ranked: seq<I>, relevant: set<I>, j: nat, k: nat)
    requires j <= k
    ensures 0.0 <= RecallAt(ranked, relevant, j) <= RecallAt(ranked, relevant, k)
  {
    hide Hits, PrecisionSum;
    if relevant != {} {
      var near, far := Take(ranked, j), Take(ranked, k);
      assert near == far[..|near|];
      HitsGrow(far, relevant, |near|);
      Divide(Hits(near, relevant) as real, Hits(far, relevant) as real, |relevant| as real);
    }
  }

  /** k * Precision@k = |P| * Recall@k: both are the hits among the first k. */
  lemma PrecisionAndRecall<I(!new)>(ranked: seq<I>, relevant: set<I>, k: nat)
    requires relevant != {} && k > 0
    ensures k as real * PrecisionAt(ranked, relevant, k) == |relevant| as real * RecallAt(ranked, relevant, k)
  {
    hide Hits;
    var hits := Hits(Take(ranked, k), relevant) as real;
    Divide(hits, hits, k as real);
    Divide(hits, hits, |relevant| as real);
  }

  // ---------------------------------------------------------------- what each place contributes

  /** The places of s up to n that hold a relevant document. */
  ghost function RelevantPlaces<I>(s: seq<I>, relevant: set<I>, n: nat): set<nat> {
    set i: nat | i < n && i < |s| && s[i] in relevant
  }

  lemma {:induction false} HitsCount<I(!new)>(s: seq<I>, relevant: set<I>, k: nat)
    ensures Hits(Take(s, k), relevant) == |RelevantPlaces(s, relevant, k)|
    decreases k
  {
    hide Hits, Take;
    if k == 0 {
      assert RelevantPlaces(s, relevant, 0) == {};
      NoPlace(s, relevant);
    } else {
      HitsCount(s, relevant, k - 1);
      var before := RelevantPlaces(s, relevant, k - 1);
      if k <= |s| {
        OneMorePlace(s, relevant, k - 1);
        assert RelevantPlaces(s, relevant, k) == before + (if s[k - 1] in relevant then {k - 1} else {});
      } else {
        TakePastEnd(s, k);
        TakePastEnd(s, k - 1);
        assert RelevantPlaces(s, relevant, k) == before;
      }
    }
  }

  lemma NoPlace<I>(s: seq<I>, relevant: set<I>)
    ensures Hits(Take(s, 0), relevant) == 0 && PrecisionSum(Take(s, 0), relevant) == 0.0
  {
  }

  /**
   Recall is the share of relevant documents found. Average precision starts at nothing, and each further place adds the
   precision up to there, over the number of relevant documents, if it holds a relevant one, and nothing else.
   */
  lemma EachPlaceCounts<I(!new)>(ranked: seq<I>, relevant: set<I>, k: nat)
    requires relevant != {}
    ensures RecallAt(ranked, relevant, k) == |RelevantPlaces(ranked, relevant, k)| as real / |relevant| as real
    ensures MapAt(ranked, relevant, 0) == 0.0
    ensures MapAt(ranked, relevant, k + 1) - MapAt(ranked, relevant, k)
            == if k < |ranked| && ranked[k] in relevant
               then |RelevantPlaces(ranked, relevant, k + 1)| as real / (k + 1) as real / |relevant| as real else 0.0
  {
    hide Hits, PrecisionSum, RelevantPlaces, Take;
    HitsCount(ranked, relevant, k);
    HitsCount(ranked, relevant, k + 1);
    NoPlace(ranked, relevant);
    var p := |relevant| as real;
    if k < |ranked| {
      OneMorePlace(ranked, relevant, k);
    } else {
      TakePastEnd(ranked, k);
      TakePastEnd(ranked, k + 1);
    }
    var a, b := PrecisionSum(Take(ranked, k + 1), relevant), PrecisionSum(Take(ranked, k), relevant);
    assert a / p - b / p == (a - b) / p;
  }

  /** A larger cutoff raises recall and average precision exactly when it takes in a relevant document. */
  lemma {:induction false} CutoffCounts<I(!new)>(ranked: seq<I>, relevant: set<I>, j: nat, k: nat)
    requires relevant != {} && j <= k
    ensures MapAt(ranked, relevant, j) <= MapAt(ranked, relevant, k)
    ensures MapAt(ranked, relevant, j) < MapAt(ranked, relevant, k) <==> exists i :: j <= i < k && i < |ranked| && ranked[i] in relevant
    ensures RecallAt(ranked, relevant, j) < RecallAt(ranked, relevant, k) <==> exists i :: j <= i < k && i < |ranked| && ranked[i] in relevant
    decreases k
  {
    hide Hits, PrecisionSum, Take, MapAt, RecallAt, RelevantPlaces;
    RecallGrows(ranked, relevant, j, k);
    if j < k {
      CutoffCounts(ranked, relevant, j, k - 1);
      EachPlaceCounts(ranked, relevant, k - 1);
      EachPlaceCounts(ranked, relevant, k);
      RecallGrows(ranked, relevant, j, k - 1);
      MorePlaces(ranked, relevant, k - 1);
      var n := |relevant| as real;
      var c := |RelevantPlaces(ranked, relevant, k)| as real;
      if k - 1 < |ranked| && ranked[k - 1] in relevant {
        Divide(0.0, c, k as real);
        Divide(0.0, c / k as real, n);
      }
      Divide(c, |RelevantPlaces(ranked, relevant, k - 1)| as real, n);
    }
  }

  lemma MorePlaces<I(!new)>(ranked: seq<I>, relevant: set<I>, k: nat)
    ensures |RelevantPlaces(ranked, relevant, k + 1)|
            == |RelevantPlaces(ranked, relevant, k)| + (if k < |ranked| && ranked[k] in relevant then 1 else 0)
  {
    var now, before := RelevantPlaces(ranked, relevant, k + 1), RelevantPlaces(ranked, relevant, k);
    if k < |ranked| && ranked[k] in relevant {
      assert now == before + {k};
    } else {
      assert now == before;
    }
  }

  /** One relevant document at place i, counted from 0, and no other before place n. */
  ghost predicate OnlyAt<I>(s: seq<I>, relevant: set<I>, i: nat, n: nat) {
    i < |s| && s[i] in relevant && forall j :: 0 <= j < |s| && j < n && j != i ==> s[j] !in relevant
  }

  lemma {:induction false} OneHit<I(!new)>(ranked: seq<I>, relevant: set<I>, i: nat, n: nat, k: nat)
    requires relevant != {} && OnlyAt(ranked, relevant, i, n) && k <= n
    ensures RecallAt(ranked, relevant, k) == if i < k then 1.0 / |relevant| as real else 0.0
    ensures MapAt(ranked, relevant, k) == if i < k then 1.0 / (i + 1) as real / |relevant| as real else 0.0
    decreases k
  {
    hide Hits, PrecisionSum, Take, MapAt, RecallAt;
    EachPlaceCounts(ranked, relevant, k);
    if k > 0 {
      OneHit(ranked, relevant, i, n, k - 1);
      EachPlaceCounts(ranked, relevant, k - 1);
    }
    assert RelevantPlaces(ranked, relevant, k) == if i < k then {i} else {};
  }

  // ---------------------------------------------------------------- moving a relevant document up

  /** a + [y, x] + b is a + [x, y] + b with the relevant y swapped ahead of the irrelevant x. */
  lemma {:induction false} SwapHits<I(!new)>(a: seq<I>, x: I, y: I, b: seq<I>, relevant: set<I>, k: nat)
    requires y in relevant && x !in relevant
    ensures Hits(Take(a + [x, y] + b, k), relevant) <= Hits(Take(a + [y, x] + b, k), relevant)
    ensures k != |a| + 1 ==> Hits(Take(a + [x, y] + b, k), relevant) == Hits(Take(a + [y, x] + b, k), relevant)
    ensures PrecisionSum(Take(a + [x, y] + b, k), relevant) <= PrecisionSum(Take(a + [y, x] + b, k), relevant)
    decreases k
  {
    hide Hits, PrecisionSum, Take;
    var s, t := a + [x, y] + b, a + [y, x] + b;
    if k <= |a| {
      SameTop(s, t, k);
    } else if k > |s| {
      TakePastEnd(s, k);
      TakePastEnd(t, k);
      SwapHits(a, x, y, b, relevant, |s|);
    } else {
      OneMorePlace(s, relevant, k - 1);
      OneMorePlace(t, relevant, k - 1);
      SwapHits(a, x, y, b, relevant, k - 1);
      if k == |a| + 1 {
        Divide(0.0, Hits(Take(t, k), relevant) as real, k as real);
      } else if k == |a| + 2 {
        SameTop(s, t, k - 2);
        OneMorePlace(s, relevant, k - 2);
        OneMorePlace(t, relevant, k - 2);
        DivideByMore(Hits(Take(s, k), relevant) as real, (k - 1) as real, k as real);
      }
    }
  }

  lemma SameTop<I>(s: seq<I>, t: seq<I>, k: nat)
    requires |s| == |t| && k <= |s| && forall i :: 0 <= i < k ==> s[i] == t[i]
    ensures Take(s, k) == Take(t, k)
  {
  }

  lemma TakePastEnd<I>(s: seq<I>, k: nat)
    requires k >= |s|
    ensures Take(s, k) == Take(s, |s|)
  {
  }

  lemma OneMorePlace<I(!new)>(s: seq<I>, relevant: set<I>, k: nat)
    requires k < |s|
    ensures var before, now := Take(s, k), Take(s, k + 1);
            && Hits(now, relevant) == Hits(before, relevant) + (if s[k] in relevant then 1 else 0)
            && PrecisionSum(now, relevant)
               == PrecisionSum(before, relevant) + (if s[k] in relevant then Hits(now, relevant) as real / (k + 1) as real else 0.0)
  {
    assert Take(s, k + 1) == Take(s, k) + [s[k]];
    assert Take(s, k + 1)[..k] == Take(s, k);
  }

  /** The reciprocal rank is unique, and does not fall either. */
  lemma SwapReciprocalRank<I(!new)>(a: seq<I>, x: I, y: I, b: seq<I>, relevant: set<I>, k: nat, r: real, r': real)
    requires y in relevant && x !in relevant
    requires IsReciprocalRank(Take(a + [x, y] + b, k), relevant, r)
    requires IsReciprocalRank(Take(a + [y, x] + b, k), relevant, r')
    ensures r <= r'
  {
    var s, t := Take(a + [x, y] + b, k), Take(a + [y, x] + b, k);
    if i :| 0 <= i < |s| && s[i] in relevant && (forall j :: 0 <= j < i ==> s[j] !in relevant) && r == 1.0 / (i + 1) as real {
      if i < |a| {
        assert t[i] == s[i];
        assert forall j :: 0 <= j < i ==> t[j] == s[j];
      } else {
        assert t[|a|] == y;
        forall j | 0 <= j < |a| ensures t[j] !in relevant {
          assert s[j] == a[j] == t[j];
        }
        DivideByMore(1.0, (|a| + 1) as real, (i + 1) as real);
      }
    }
  }

  /** Nor does nDCG, whatever the two relevances are, as long as the larger one moves up. */
  lemma SwapNdcg<I(!new)>(sc: Scoring, qrels: seq<Qrel<I>>, a: seq<I>, x: I, y: I, b: seq<I>, k: nat)
    requires sc.Valid() && Relevance(qrels, x) <= Relevance(qrels, y)
    ensures NdcgAt(sc, a + [x, y] + b, qrels, k) <= NdcgAt(sc, a + [y, x] + b, qrels, k)
  {
    hide Discounted, Sum, Relevance;
    var s, t := a + [x, y] + b, a + [y, x] + b;
    var o, p := Gains(sc, ObservedRelevances(s, qrels, k)), Gains(sc, ObservedRelevances(t, qrels, k));
    assert sc.gain(Relevance(qrels, x)) <= sc.gain(Relevance(qrels, y));
    forall j: nat | j <= k ensures Sum(o, j) <= Sum(p, j) {
      SwapSums(o, p, |a|, j);
    }
    DominatedDiscounts(o, p, sc.discount, k);
    DiscountedPadded(o, sc.discount, k);
    DiscountedPadded(p, sc.discount, k);
    var ideal := DcgOf(sc, IdealRelevances(qrels, k));
    if ideal > 0.0 {
      Divide(DcgOf(sc, ObservedRelevances(s, qrels, k)), DcgOf(sc, ObservedRelevances(t, qrels, k)), ideal);
    }
  }

  /** o and p differ at two neighbouring places only, where p has the larger value first. */
  lemma {:induction false} SwapSums(o: seq<real>, p: seq<real>, m: nat, j: nat)
    requires forall i: nat :: i != m && i != m + 1 ==> PlaceOf(o, i) == PlaceOf(p, i)
    requires PlaceOf(o, m) <= PlaceOf(p, m)
    requires PlaceOf(o, m) + PlaceOf(o, m + 1) <= PlaceOf(p, m) + PlaceOf(p, m + 1)
    ensures j <= m ==> Sum(o, j) == Sum(p, j)
    ensures j == m + 1 ==> Sum(o, j) - Sum(p, j) == PlaceOf(o, m) - PlaceOf(p, m)
    ensures Sum(o, j) <= Sum(p, j)
    decreases j
  {
    hide PlaceOf;
    if j > 0 {
      SwapSums(o, p, m, j - 1);
    }
  }

  // ---------------------------------------------------------------- all metrics of one query

  datatype QueryMetrics = QueryMetrics(
    ndcgAt10: real, recallAt5: real, recallAt10: real, recallAt100: real, mrrAt10: real, precisionAt10: real, mapAt100: real)

  datatype Outcome = DuplicateMappings | NoPositiveQrel | Metrics(metrics: QueryMetrics)

  function PositiveIds<I(==)>(qrels: seq<Qrel<I>>): set<I> {
    set q | q in qrels && q.relevance > 0.0 :: q.doc
  }

  /** len(set(s)) == len(s) */
  lemma {:induction false} DistinctBySize<I(!new)>(s: seq<I>)
    ensures |set x | x in s| <= |s|
    ensures |set x | x in s| == |s| <==> Distinct(s)
    decreases |s|
  {
    if s != [] {
      var n := |s| - 1;
      var rest, last := s[..n], s[n];
      DistinctBySize(rest);
      assert s == rest + [last];
      assert (set x | x in s) == (set x | x in rest) + {last};
      if last in rest {
        assert (set x | x in s) == (set x | x in rest);
        var k :| 0 <= k < n && rest[k] == last;
        assert s[k] == s[n];
      } else {
        DistinctExtends(rest, last);
      }
    }
  }

  lemma DistinctExtends<I(!new)>(rest: seq<I>, last: I)
    requires last !in rest
    ensures Distinct(rest + [last]) <==> Distinct(rest)
  {
    if Distinct(rest + [last]) {
      assert rest == (rest + [last])[..|rest|];
    }
  }

  /** The seven numbers hang together, whatever was retrieved. */
  ghost predicate Consistent(m: QueryMetrics, positives: nat)
    requires positives > 0
  {
    && m.ndcgAt10 <= 1.0
    && 0.0 <= m.recallAt5 <= m.recallAt10 <= m.recallAt100
    && m.mrrAt10 / positives as real <= m.mapAt100 <= m.recallAt100 <= 1.0
    && 10.0 * m.precisionAt10 == positives as real * m.recallAt10
  }

  /** The metrics of a ranking, each at its own cutoff. */
  ghost predicate IsMetrics<I(!new)>(sc: Scoring, ranked: seq<I>, qrels: seq<Qrel<I>>, m: QueryMetrics) {
    var positives := PositiveIds(qrels);
    && m.ndcgAt10 == NdcgAt(sc, ranked, qrels, 10)
    && m.recallAt5 == RecallAt(ranked, positives, 5)
    && m.recallAt10 == RecallAt(ranked, positives, 10)
    && m.recallAt100 == RecallAt(ranked, positives, 100)
    && IsReciprocalRank(Take(ranked, 10), positives, m.mrrAt10)
    && m.precisionAt10 == PrecisionAt(ranked, positives, 10)
    && m.mapAt100 == MapAt(ranked, positives, 100)
  }

  method ComputeQueryMetrics<I(==,!new)>(sc: Scoring, ranked: seq<I>, qrels: seq<Qrel<I>>) returns (r: Outcome)
    requires sc.Valid() && OneEach(qrels)
    ensures r.DuplicateMappings? <==> !Distinct(ranked)
    ensures r.NoPositiveQrel? <==> Distinct(ranked) && forall q :: q in qrels ==> q.relevance <= 0.0
    ensures r.Metrics? ==> IsMetrics(sc, ranked, qrels, r.metrics)
    ensures r.Metrics? ==> PositiveIds(qrels) != {} && Consistent(r.metrics, |PositiveIds(qrels)|)
    ensures r.Metrics? && QrelsOk(qrels) ==> 0.0 <= r.metrics.ndcgAt10
  {
    hide NdcgAt, RecallAt, PrecisionAt, MapAt, IsReciprocalRank, Scoring.Valid, QrelsOk, OneEach;
    DistinctBySize(ranked);
    if |set x | x in ranked| != |ranked| {
      return DuplicateMappings;
    }
    var positives := PositiveIds(qrels);
    if positives == {} {
      forall q | q in qrels ensures q.relevance <= 0.0 {
        assert q.doc !in PositiveIds(qrels);
      }
      return NoPositiveQrel;
    }
    var mrr := MrrAt(ranked, positives, 10);
    var map100 := MapLoop(ranked, positives, 100);
    NdcgBounded(sc, ranked, qrels, 10);
    RecallGrows(ranked, positives, 5, 10);
    RecallGrows(ranked, positives, 10, 100);
    MetricChain(ranked, positives, mrr);
    PrecisionAndRecall(ranked, positives, 10);
    r := Metrics(QueryMetrics(
      NdcgAt(sc, ranked, qrels, 10), RecallAt(ranked, positives, 5), RecallAt(ranked, positives, 10),
      RecallAt(ranked, positives, 100), mrr, PrecisionAt(ranked, positives, 10), map100));
  }

  /** The positive ids are the documents judged relevant. */
  lemma {:induction false} PositiveIsRelevant<I(!new)>(qrels: seq<Qrel<I>>, x: I)
    requires OneEach(qrels)
    ensures x in PositiveIds(qrels) <==> Relevance(qrels, x) > 0.0
    decreases |qrels|
  {
    if qrels != [] {
      var n := |qrels| - 1;
      var rest, q := qrels[..n], qrels[n];
      assert qrels == rest + [q];
      assert Docs(rest) == Docs(qrels)[..n];
      PositiveIsRelevant(rest, x);
      assert x in PositiveIds(qrels) <==> x in PositiveIds(rest) || (q.relevance > 0.0 && q.doc == x);
      forall i | 0 <= i < n ensures rest[i].doc != q.doc {
        assert Docs(qrels)[i] != Docs(qrels)[n];
      }
    }
  }

  /** Swapping a relevant document ahead of an adjacent irrelevant one lowers none of the seven metrics. */
  lemma SwapLowersNothing<I(!new)>(sc: Scoring, qrels: seq<Qrel<I>>, a: seq<I>, x: I, y: I, b: seq<I>, m: QueryMetrics, m': QueryMetrics)
    requires sc.Valid() && OneEach(qrels) && y in PositiveIds(qrels) && x !in PositiveIds(qrels)
    requires IsMetrics(sc, a + [x, y] + b, qrels, m) && IsMetrics(sc, a + [y, x] + b, qrels, m')
    ensures m.ndcgAt10 <= m'.ndcgAt10
    ensures m.recallAt5 <= m'.recallAt5 && m.recallAt10 <= m'.recallAt10 && m.recallAt100 <= m'.recallAt100
    ensures m.mrrAt10 <= m'.mrrAt10 && m.precisionAt10 <= m'.precisionAt10 && m.mapAt100 <= m'.mapAt100
  {
    hide NdcgAt, IsReciprocalRank, Scoring.Valid, OneEach, Hits, PrecisionSum, Take, PositiveIds;
    var positives := PositiveIds(qrels);
    PositiveIsRelevant(qrels, x);
    PositiveIsRelevant(qrels, y);
    SwapNdcg(sc, qrels, a, x, y, b, 10);
    SwapReciprocalRank(a, x, y, b, positives, 10, m.mrrAt10, m'.mrrAt10);
    SwapShares(a, x, y, b, positives, 5);
    SwapShares(a, x, y, b, positives, 10);
    SwapShares(a, x, y, b, positives, 100);
  }

  lemma SwapShares<I(!new)>(a: seq<I>, x: I, y: I, b: seq<I>, relevant: set<I>, k: nat)
    requires y in relevant && x !in relevant && k > 0
    ensures RecallAt(a + [x, y] + b, relevant, k) <= RecallAt(a + [y, x] + b, relevant, k)
    ensures PrecisionAt(a + [x, y] + b, relevant, k) <= PrecisionAt(a + [y, x] + b, relevant, k)
    ensures MapAt(a + [x, y] + b, relevant, k) <= MapAt(a + [y, x] + b, relevant, k)
  {
    hide Hits, PrecisionSum, Take;
    var s, t := Take(a + [x, y] + b, k), Take(a + [y, x] + b, k);
    SwapHits(a, x, y, b, relevant, k);
    Divide(Hits(s, relevant) as real, Hits(t, relevant) as real, k as real);
    if relevant != {} {
      Divide(Hits(s, relevant) as real, Hits(t, relevant) as real, |relevant| as real);
      Divide(PrecisionSum(s, relevant), PrecisionSum(t, relevant), |relevant| as real);
    }
  }

  // ---------------------------------------------------------------- the numbers of one ranking

  /**
   The metrics of a ranking whose only relevant document among the first 100 stands at place i, counted from 0. When it
   is the only relevant document at all, nDCG is the discount of its place over that of the first.
   */
  lemma OneRelevant<I(!new)>(sc: Scoring, qrels: seq<Qrel<I>>, ranked: seq<I>, m: QueryMetrics, i: nat)
    requires sc.Valid() && QrelsOk(qrels) && IsMetrics(sc, ranked, qrels, m)
    requires OnlyAt(ranked, PositiveIds(qrels), i, 100)
    ensures var p := |PositiveIds(qrels)| as real;
            && m.mapAt100 == (if i < 100 then 1.0 / (i + 1) as real / p else 0.0)
            && m.recallAt5 == (if i < 5 then 1.0 / p else 0.0)
            && m.recallAt10 == (if i < 10 then 1.0 / p else 0.0)
            && m.recallAt100 == (if i < 100 then 1.0 / p else 0.0)
            && m.precisionAt10 == (if i < 10 then 0.1 else 0.0)
            && m.mrrAt10 == (if i < 10 then 1.0 / (i + 1) as real else 0.0)
    ensures |PositiveIds(qrels)| == 1 ==> m.ndcgAt10 == if i < 10 then sc.discount(i) / sc.discount(0) else 0.0
  {
    hide NdcgAt, Hits, MapAt, RecallAt, QrelsOk, Scoring.Valid, PositiveIds, PrecisionAt;
    var positives := PositiveIds(qrels);
    OneHit(ranked, positives, i, 100, 5);
    OneHit(ranked, positives, i, 100, 10);
    OneHit(ranked, positives, i, 100, 100);
    OnePrecision(ranked, positives, i, m.recallAt10);
    if |positives| == 1 {
      OneNdcg(sc, qrels, ranked, i, 10);
    }
  }

  lemma OnePrecision<I(!new)>(ranked: seq<I>, relevant: set<I>, i: nat, recall: real)
    requires relevant != {} && recall == RecallAt(ranked, relevant, 10)
    requires recall == if i < 10 then 1.0 / |relevant| as real else 0.0
    ensures PrecisionAt(ranked, relevant, 10) == if i < 10 then 0.1 else 0.0
  {
    hide Hits, RecallAt, PrecisionAt;
    PrecisionAndRecall(ranked, relevant, 10);
    Divide(1.0, 1.0, |relevant| as real);
  }

  /** The first k places of s have this discounted sum if place i holds y and the others nothing. */
  lemma {:induction false} OneDiscounted(s: seq<real>, discount: nat -> real, i: nat, y: real, k: nat)
    requires forall j: nat :: j < k ==> PlaceOf(s, j) == if j == i then y else 0.0
    ensures Discounted(s, discount, k) == if i < k then Times(y, discount(i)) else 0.0
    decreases k
  {
    if k > 0 {
      OneDiscounted(s, discount, i, y, k - 1);
    }
  }

  lemma OneNdcg<I(!new)>(sc: Scoring, qrels: seq<Qrel<I>>, ranked: seq<I>, i: nat, k: nat)
    requires sc.Valid() && QrelsOk(qrels) && k > 0 && OnlyAt(ranked, PositiveIds(qrels), i, k) && |PositiveIds(qrels)| == 1
    ensures NdcgAt(sc, ranked, qrels, k) == if i < k then sc.discount(i) / sc.discount(0) else 0.0
  {
    hide Discounted, PositiveIds, Relevance, Sort, PositiveRelevances;
    var x := ranked[i];
    var y := sc.gain(Relevance(qrels, x));
    PositiveIsRelevant(qrels, x);
    var o, a := Gains(sc, ObservedRelevances(ranked, qrels, k)), Gains(sc, IdealRelevances(qrels, k));
    forall j: nat | j < k ensures PlaceOf(o, j) == if j == i then y else 0.0 {
      if j < |ranked| && j != i {
        PositiveIsRelevant(qrels, ranked[j]);
        RelevanceNonNegative(qrels, ranked[j]);
      }
    }
    OneDiscounted(o, sc.discount, i, y, k);
    DiscountedPadded(o, sc.discount, k);
    OnePositive(qrels, x);
    assert IdealRelevances(qrels, k) == [Relevance(qrels, x)];
    OneDiscounted(a, sc.discount, 0, y, 1);
    Cancel(y, sc.discount(if i < k then i else 0), sc.discount(0));
    if i >= k {
      Divide(0.0, 0.0, Times(y, sc.discount(0)));
    }
  }

  lemma Cancel(y: real, a: real, b: real)
    requires y > 0.0 && b > 0.0
    ensures Times(y, b) > 0.0 && Times(y, a) / Times(y, b) == a / b
  {
    Divide(a, a, b);
    var q := a / b;
    assert y * b > 0.0 && y * a == y * (b * q) == q * (y * b);
    QuotientBound(y * a, q, y * b);
  }

  /** A ranking of exactly the relevant documents has exactly the positive relevances. */
  lemma {:induction false} RelevancesPermuted<I(!new)>(qrels: seq<Qrel<I>>, docs: seq<I>)
    requires OneEach(qrels) && Distinct(docs) && forall x :: x in docs <==> x in PositiveIds(qrels)
    ensures multiset(RelevancesOf(qrels, docs)) == multiset(PositiveRelevances(qrels))
    decreases |qrels|
  {
    hide Relevance, PositiveIds, RelevancesOf, PositiveRelevances, Distinct;
    if qrels == [] {
      NoneOf(qrels, docs);
      NoPositives<I>();
    } else {
      var n := |qrels| - 1;
      var rest, q := qrels[..n], qrels[n];
      OneEachOfRest(qrels);
      PositiveIdsGrow(qrels);
      PositivesGrow(qrels);
      if q.relevance > 0.0 {
        var a, b := CutOut(docs, q.doc);
        RelevancesPermuted(rest, a + b);
        RelevancesWithout(qrels, a + b);
        RelevancesSplit(qrels, a, b);
      } else {
        RelevancesPermuted(rest, docs);
        RelevancesWithout(qrels, docs);
      }
    }
  }

  /** Taking one document out of the list takes out its relevance. */
  lemma RelevancesSplit<I(!new)>(qrels: seq<Qrel<I>>, a: seq<I>, b: seq<I>)
    requires qrels != []
    ensures var q := qrels[|qrels| - 1];
            multiset(RelevancesOf(qrels, a + [q.doc] + b)) == multiset(RelevancesOf(qrels, a + b)) + multiset{q.relevance}
  {
    hide Relevance;
    var q := qrels[|qrels| - 1];
    LastRelevance(qrels);
    var x, y := RelevancesOf(qrels, a), RelevancesOf(qrels, b);
    assert RelevancesOf(qrels, a + [q.doc] + b) == x + [q.relevance] + y;
    assert RelevancesOf(qrels, a + b) == x + y;
  }

  function RelevancesOf<I(==)>(qrels: seq<Qrel<I>>, docs: seq<I>): seq<real> {
    seq(|docs|, i requires 0 <= i < |docs| => Relevance(qrels, docs[i]))
  }

  lemma LastRelevance<I>(qrels: seq<Qrel<I>>)
    requires qrels != []
    ensures Relevance(qrels, qrels[|qrels| - 1].doc) == qrels[|qrels| - 1].relevance
  {
  }

  lemma NoPositives<I(!new)>()
    ensures PositiveIds<I>([]) == {} && PositiveRelevances<I>([]) == []
  {
  }

  lemma PositiveIdsGrow<I(!new)>(qrels: seq<Qrel<I>>)
    requires qrels != [] && OneEach(qrels)
    ensures var n := |qrels| - 1;
            && PositiveIds(qrels) == PositiveIds(qrels[..n]) + (if qrels[n].relevance > 0.0 then {qrels[n].doc} else {})
            && qrels[n].doc !in PositiveIds(qrels[..n])
  {
    var n := |qrels| - 1;
    var rest := qrels[..n];
    forall q | q in rest ensures q.doc != qrels[n].doc {
      var i :| 0 <= i < n && rest[i] == q;
      assert Docs(qrels)[i] != Docs(qrels)[n];
    }
    assert forall q :: q in qrels <==> q in rest || q == qrels[n];
  }

  lemma PositivesGrow<I(!new)>(qrels: seq<Qrel<I>>)
    requires qrels != []
    ensures var n := |qrels| - 1;
            multiset(PositiveRelevances(qrels))
            == multiset(PositiveRelevances(qrels[..n])) + (if qrels[n].relevance > 0.0 then multiset{qrels[n].relevance} else multiset{})
  {
  }

  lemma OneEachOfRest<I(!new)>(qrels: seq<Qrel<I>>)
    requires qrels != [] && OneEach(qrels)
    ensures OneEach(qrels[..|qrels| - 1])
  {
    assert Docs(qrels[..|qrels| - 1]) == Docs(qrels)[..|qrels| - 1];
  }

  lemma NoneOf<I>(qrels: seq<Qrel<I>>, docs: seq<I>)
    ensures docs == [] ==> RelevancesOf(qrels, docs) == []
    ensures docs != [] ==> docs[0] in docs
  {
  }

  lemma CutOut<T(!new)>(s: seq<T>, x: T) returns (a: seq<T>, b: seq<T>)
    requires Distinct(s) && x in s
    ensures s == a + [x] + b && Distinct(a + b) && x !in a + b
    ensures forall y :: y in a + b <==> y in s && y != x
  {
    var p :| 0 <= p < |s| && s[p] == x;
    a, b := s[..p], s[p + 1..];
    assert forall i :: 0 <= i < |a + b| ==> (a + b)[i] == if i < p then s[i] else s[i + 1];
    forall y | y in s && y != x ensures y in a + b {
      var i :| 0 <= i < |s| && s[i] == y;
      assert (a + b)[if i < p then i else i - 1] == y;
    }
  }

  lemma {:induction false} RelevancesWithout<I(!new)>(qrels: seq<Qrel<I>>, docs: seq<I>)
    requires qrels != [] && qrels[|qrels| - 1].doc !in docs
    ensures RelevancesOf(qrels, docs) == RelevancesOf(qrels[..|qrels| - 1], docs)
  {
    forall i | 0 <= i < |docs| ensures Relevance(qrels, docs[i]) == Relevance(qrels[..|qrels| - 1], docs[i]) {
      assert docs[i] in docs;
    }
  }

  lemma OnePositive<I(!new)>(qrels: seq<Qrel<I>>, x: I)
    requires OneEach(qrels) && x in PositiveIds(qrels) && |PositiveIds(qrels)| == 1
    ensures SortedDescending(PositiveRelevances(qrels)) == [Relevance(qrels, x)]
  {
    hide PositiveIds, Relevance, PositiveRelevances, Sort;
    assert PositiveIds(qrels) == {x} by {
      SingletonSet(PositiveIds(qrels), x);
    }
    RelevancesPermuted(qrels, [x]);
    var one := [Relevance(qrels, x)];
    assert RelevancesOf(qrels, [x]) == one;
    SortLaws(PositiveRelevances(qrels), AtLeast);
    SortedUnique(SortedDescending(PositiveRelevances(qrels)), one, AtLeast);
  }

  lemma SingletonSet<T>(s: set<T>, x: T)
    requires x in s && |s| == 1
    ensures s == {x}
  {
    assert |s - {x}| == 0;
  }

  /** The ideal is attained: ranking exactly the relevant documents, most relevant first, gives nDCG 1 at every cutoff. */
  lemma IdealAttained<I(!new)>(sc: Scoring, qrels: seq<Qrel<I>>, ranked: seq<I>, k: nat)
    requires sc.Valid() && OneEach(qrels) && k > 0 && ranked != []
    requires Distinct(ranked) && forall x :: x in ranked <==> x in PositiveIds(qrels)
    requires forall i, j :: 0 <= i < j < |ranked| ==> Relevance(qrels, ranked[i]) >= Relevance(qrels, ranked[j])
    ensures NdcgAt(sc, ranked, qrels, k) == 1.0
  {
    hide Discounted, Relevance, PositiveRelevances, Sort, PositiveIds, OneEach, Distinct;
    var rels, positive := RelevancesOf(qrels, ranked), PositiveRelevances(qrels);
    RelevancesPermuted(qrels, ranked);
    SortLaws(positive, AtLeast);
    SortedUnique(rels, SortedDescending(positive), AtLeast);
    assert ObservedRelevances(ranked, qrels, k) == Take(rels, k);
    assert ranked[0] in ranked;
    PositiveJudged(qrels, ranked[0]);
    IdealPositive(sc, qrels, k);
    var ideal := DcgOf(sc, IdealRelevances(qrels, k));
    Divide(ideal, ideal, ideal);
  }

  lemma PositiveJudged<I(!new)>(qrels: seq<Qrel<I>>, x: I)
    requires x in PositiveIds(qrels)
    ensures exists q :: q in qrels && q.relevance > 0.0
  {
  }
}
