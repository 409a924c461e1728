/**
 nDCG. Gains and discounts are reals: 2^relevance - 1 is any non-decreasing gain that is zero at zero, and
 1 / log2(rank + 1) is any positive discount that falls from rank to rank.
 */
module Ndcg {
  import opened Sequences
  import opened Sorting
  import opened Quotients

  /** Ranks count from 0 here: discount(i) belongs to the (i+1)-st place. */
  datatype Scoring = Scoring(gain: real -> real, discount: nat -> real) {
    ghost predicate Valid() {
      && gain(0.0) == 0.0
      && (forall a, b :: a <= b ==> gain(a) <= gain(b))
      && (forall a :: a > 0.0 ==> gain(a) > 0.0)
      && Falling(discount)
    }
  }

  ghost predicate Falling(discount: nat -> real) {
    && (forall i: nat :: discount(i) > 0.0)
    && (forall i: nat, j: nat :: i < j ==> discount(j) < discount(i))
  }

  /** Every prefix of a sums to at least as much as that of o. */
  ghost predicate Dominated(o: seq<real>, a: seq<real>, n: nat) {
    forall j: nat :: j <= n ==> Sum(o, j) <= Sum(a, j)
  }

  // ---------------------------------------------------------------- sums over padded lists

  function PlaceOf(s: seq<real>, i: nat): real {
    if i < |s| then s[i] else 0.0
  }

  /** The sum of the first n places. */
  function Sum(s: seq<real>, n: nat): real {
    if n == 0 then 0.0 else Sum(s, n - 1) + PlaceOf(s, n - 1)
  }

  /** Multiplication under a name of its own, so that proofs use only the laws below. */
  function Times(a: real, b: real): real {
    a * b
  }

  /** The discounted sum of the first n places. */
  function Discounted(s: seq<real>, discount: nat -> real, n: nat): real {
    if n == 0 then 0.0 else Discounted(s, discount, n - 1) + Times(PlaceOf(s, n - 1), discount(n - 1))
  }

  lemma TimesSign(a: real, b: real)
    requires a >= 0.0 && b >= 0.0
    ensures Times(a, b) >= 0.0
    ensures Times(a, b) == 0.0 && b > 0.0 ==> a == 0.0
  {
  }

  lemma TimesMonotone(c: real, a: real, b: real)
    requires a <= b && c >= 0.0
    ensures Times(c, a) <= Times(c, b)
    ensures Times(c, a) == Times(c, b) && a < b ==> c == 0.0
  {
    TimesSign(c, b - a);
    assert Times(c, b - a) == Times(c, b) - Times(c, a);
  }

  lemma TimesDistributes(lead: real, x: real, y: real, d: real)
    ensures Times(lead + x - y, d) == Times(lead, d) + Times(x, d) - Times(y, d)
    ensures Times(0.0, d) == 0.0
  {
  }

  /** Summation by parts: the lead of a over o in plain sums, at the last discount, bounds the lead in discounted sums. */
  lemma {:induction false} LeadBound(o: seq<real>, a: seq<real>, discount: nat -> real, n: nat)
    requires Falling(discount) && Dominated(o, a, n) && n > 0
    ensures Discounted(a, discount, n) - Discounted(o, discount, n) >= Times(Sum(a, n) - Sum(o, n), discount(n - 1))
    decreases n
  {
    hide Times;
    var m := n - 1;
    var lead, d := Sum(a, m) - Sum(o, m), discount(m);
    assert Sum(o, m) <= Sum(a, m);
    TimesDistributes(lead, PlaceOf(a, m), PlaceOf(o, m), d);
    assert lead + PlaceOf(a, m) - PlaceOf(o, m) == Sum(a, n) - Sum(o, n);
    if m > 0 {
      LeadBound(o, a, discount, m);
      TimesMonotone(lead, d, discount(m - 1));
    }
  }

  /** Prefix-wise larger sums give a larger discounted sum. */
  lemma DominatedDiscounts(o: seq<real>, a: seq<real>, discount: nat -> real, n: nat)
    requires Falling(discount) && Dominated(o, a, n)
    ensures Discounted(o, discount, n) <= Discounted(a, discount, n)
  {
    hide Times, Discounted, Sum;
    if n > 0 {
      LeadBound(o, a, discount, n);
      TimesSign(Sum(a, n) - Sum(o, n), discount(n - 1));
    } else {
      DiscountedNothing(o, a, discount);
    }
  }

  lemma DiscountedNothing(o: seq<real>, a: seq<real>, discount: nat -> real)
    ensures Discounted(o, discount, 0) == Discounted(a, discount, 0)
  {
  }

  /** And only an equal list reaches an equal discounted sum. */
  lemma {:induction false} EqualDiscountsEqualLists(o: seq<real>, a: seq<real>, discount: nat -> real, n: nat)
    requires Falling(discount) && Dominated(o, a, n)
    requires Discounted(a, discount, n) <= Discounted(o, discount, n)
    ensures forall i: nat :: i < n ==> PlaceOf(o, i) == PlaceOf(a, i)
    decreases n
  {
    hide Times;
    if n > 0 {
      var m := n - 1;
      var lead, d := Sum(a, m) - Sum(o, m), discount(m);
      LeadBound(o, a, discount, n);
      assert Sum(o, n) <= Sum(a, n) && Sum(o, m) <= Sum(a, m);
      TimesSign(Sum(a, n) - Sum(o, n), d);
      assert lead + PlaceOf(a, m) - PlaceOf(o, m) == 0.0;
      TimesDistributes(lead, PlaceOf(a, m), PlaceOf(o, m), d);
      if m > 0 {
        LeadBound(o, a, discount, m);
        TimesMonotone(lead, d, discount(m - 1));
      }
      EqualDiscountsEqualLists(o, a, discount, m);
    }
  }

  // ---------------------------------------------------------------- sorting, largest first

  predicate AtLeast(a: real, b: real) {
    a >= b
  }

  function SortedDescending(s: seq<real>): seq<real> {
    Sort(s, AtLeast)
  }

  // ---------------------------------------------------------------- the best sums

  /** ins is s with y put in at place p. */
  lemma {:induction false} InsertedSums(s: seq<real>, ins: seq<real>, p: nat, y: real, j: nat)
    requires p <= |s| && ins == s[..p] + [y] + s[p..]
    ensures j <= p ==> Sum(ins, j) == Sum(s, j)
    ensures j > p ==> Sum(ins, j) == Sum(s, j - 1) + y
    decreases j
  {
    if j > 0 {
      InsertedSums(s, ins, p, y, j - 1);
      if j - 1 > p {
        assert PlaceOf(ins, j - 1) == PlaceOf(s, j - 2);
      }
    }
  }

  /** Adding a value to a descending list raises its best sums by what the value can replace. */
  lemma InsertRaisesSums(s: seq<real>, ins: seq<real>, p: nat, y: real, j: nat)
    requires p <= |s| && ins == s[..p] + [y] + s[p..] && y >= 0.0
    requires forall i :: 0 <= i < p ==> s[i] >= y
    requires forall i :: p <= i < |s| ==> s[i] <= y
    ensures Sum(ins, j) >= Sum(s, j)
    ensures j > 0 ==> Sum(ins, j) >= Sum(s, j - 1) + y
  {
    InsertedSums(s, ins, p, y, j);
  }

  // ---------------------------------------------------------------- relevance judgements

  datatype Qrel<I> = Qrel(doc: I, relevance: real)

  function Docs<I>(qrels: seq<Qrel<I>>): seq<I> {
    seq(|qrels|, k requires 0 <= k < |qrels| => qrels[k].doc)
  }

  /** One judgement per document, as in a dictionary. */
  ghost predicate OneEach<I>(qrels: seq<Qrel<I>>) {
    Distinct(Docs(qrels))
  }

  /** One judgement per document, none negative: what the bundle validator accepts. */
  ghost predicate QrelsOk<I>(qrels: seq<Qrel<I>>) {
    OneEach(qrels) && forall k :: 0 <= k < |qrels| ==> qrels[k].relevance >= 0.0
  }

  /** qrels.get(doc, 0) */
  function Relevance<I(==)>(qrels: seq<Qrel<I>>, doc: I): real {
    if qrels == [] then 0.0
    else if qrels[|qrels| - 1].doc == doc then qrels[|qrels| - 1].relevance
    else Relevance(qrels[..|qrels| - 1], doc)
  }

  function PositiveRelevances<I>(qrels: seq<Qrel<I>>): seq<real> {
    if qrels == [] then []
    else
      var r := qrels[|qrels| - 1].relevance;
      PositiveRelevances(qrels[..|qrels| - 1]) + (if r > 0.0 then [r] else [])
  }

  function Gains(sc: Scoring, relevances: seq<real>): seq<real> {
    seq(|relevances|, i requires 0 <= i < |relevances| => sc.gain(relevances[i]))
  }

  /** The gains of all relevant documents, largest first. */
  function BestGains<I>(sc: Scoring, qrels: seq<Qrel<I>>): seq<real> {
    Gains(sc, SortedDescending(PositiveRelevances(qrels)))
  }

  lemma {:induction false} RelevanceNonNegative<I>(qrels: seq<Qrel<I>>, doc: I)
    requires forall k :: 0 <= k < |qrels| ==> qrels[k].relevance >= 0.0
    ensures Relevance(qrels, doc) >= 0.0
    decreases |qrels|
  {
    if qrels != [] {
      RelevanceNonNegative(qrels[..|qrels| - 1], doc);
    }
  }

  // ---------------------------------------------------------------- no choice of documents beats the best gains

  /** The total gain of the listed documents. */
  function TotalGain<I(==)>(sc: Scoring, qrels: seq<Qrel<I>>, docs: seq<I>): real {
    if docs == [] then 0.0
    else TotalGain(sc, qrels, docs[..|docs| - 1]) + sc.gain(Relevance(qrels, docs[|docs| - 1]))
  }

  lemma {:induction false} TotalGainSplit<I>(sc: Scoring, qrels: seq<Qrel<I>>, a: seq<I>, x: I, b: seq<I>)
    ensures TotalGain(sc, qrels, a + [x] + b) == TotalGain(sc, qrels, a + b) + sc.gain(Relevance(qrels, x))
    decreases |b|
  {
    hide Relevance;
    if b == [] {
      assert a + [x] + b == a + [x] && (a + [x])[..|a|] == a && a + b == a;
    } else {
      var n := |b| - 1;
      assert (a + [x] + b)[..|a| + 1 + n] == a + [x] + b[..n];
      assert (a + b)[..|a| + n] == a + b[..n];
      TotalGainSplit(sc, qrels, a, x, b[..n]);
    }
  }

  lemma {:induction false} TotalGainWithout<I>(sc: Scoring, qrels: seq<Qrel<I>>, docs: seq<I>)
    requires qrels != [] && qrels[|qrels| - 1].doc !in docs
    ensures TotalGain(sc, qrels, docs) == TotalGain(sc, qrels[..|qrels| - 1], docs)
    decreases |docs|
  {
    if docs != [] {
      TotalGainWithout(sc, qrels, docs[..|docs| - 1]);
    }
  }

  lemma {:induction false} PositiveSortedPositive<I>(qrels: seq<Qrel<I>>)
    ensures forall i :: 0 <= i < |SortedDescending(PositiveRelevances(qrels))| ==> SortedDescending(PositiveRelevances(qrels))[i] > 0.0
    decreases |qrels|
  {
    if qrels != [] {
      var n := |qrels| - 1;
      PositiveSortedPositive(qrels[..n]);
      if qrels[n].relevance > 0.0 {
        var before := PositiveRelevances(qrels[..n]);
        SortLaws(before, AtLeast);
        assert PositiveRelevances(qrels)[..|before|] == before;
        var p := InsertPosition(SortedDescending(before), qrels[n].relevance, AtLeast);
      } else {
        assert PositiveRelevances(qrels) == PositiveRelevances(qrels[..n]);
      }
    }
  }

  /** One more judgement: how the best gains change. */
  lemma BestGainsGrow<I>(sc: Scoring, qrels: seq<Qrel<I>>, j: nat)
    requires sc.Valid() && qrels != []
    ensures var before := BestGains(sc, qrels[..|qrels| - 1]);
            var y := sc.gain(qrels[|qrels| - 1].relevance);
            && Sum(BestGains(sc, qrels), j) >= Sum(before, j)
            && (j > 0 ==> Sum(BestGains(sc, qrels), j) >= Sum(before, j - 1) + y)
  {
    hide Sum, Sort;
    var n := |qrels| - 1;
    var rel, positive := qrels[n].relevance, PositiveRelevances(qrels[..n]);
    PositiveSortedPositive(qrels[..n]);
    if rel > 0.0 {
      SortLaws(positive, AtLeast);
      SortOneMore(positive, rel);
      GainsOfInsert(sc, SortedDescending(positive), rel, j);
    } else {
      assert PositiveRelevances(qrels) == positive + [] == positive;
      assert sc.gain(rel) <= sc.gain(0.0);
      if j > 0 {
        SumsGrow(BestGains(sc, qrels), j - 1, j);
      }
    }
  }

  lemma SortOneMore(s: seq<real>, x: real)
    ensures SortedDescending(s + [x]) == Insert(SortedDescending(s), x, AtLeast)
  {
    assert (s + [x])[..|s|] == s;
  }

  lemma GainsOfInsert(sc: Scoring, s: seq<real>, x: real, j: nat)
    requires sc.Valid() && IsSorted(s, AtLeast) && x > 0.0
    ensures var ins := Gains(sc, Insert(s, x, AtLeast));
            && Sum(ins, j) >= Sum(Gains(sc, s), j)
            && (j > 0 ==> Sum(ins, j) >= Sum(Gains(sc, s), j - 1) + sc.gain(x))
  {
    hide Sum;
    var p := InsertPosition(s, x, AtLeast);
    var before := Gains(sc, s);
    assert Gains(sc, Insert(s, x, AtLeast)) == before[..p] + [sc.gain(x)] + before[p..];
    assert sc.gain(0.0) <= sc.gain(x);
    InsertRaisesSums(before, Gains(sc, Insert(s, x, AtLeast)), p, sc.gain(x), j);
  }

  /** Any distinct documents together gain at most as much as the same number of best ones. */
  lemma {:induction false} BestGainsAreBest<I(!new)>(sc: Scoring, qrels: seq<Qrel<I>>, docs: seq<I>)
    requires sc.Valid() && OneEach(qrels) && Distinct(docs)
    ensures TotalGain(sc, qrels, docs) <= Sum(BestGains(sc, qrels), |docs|)
    decreases |qrels|
  {
    hide Sum, BestGains, Scoring.Valid;
    if qrels == [] {
      NoJudgements(sc, docs);
    } else {
      var n := |qrels| - 1;
      var rest, doc := qrels[..n], qrels[n].doc;
      assert Docs(rest) == Docs(qrels)[..n];
      BestGainsGrow(sc, qrels, |docs|);
      if doc !in docs {
        TotalGainWithout(sc, qrels, docs);
        BestGainsAreBest(sc, rest, docs);
      } else {
        var k :| 0 <= k < |docs| && docs[k] == doc;
        var a, b := docs[..k], docs[k + 1..];
        assert docs == a + [doc] + b;
        TotalGainSplit(sc, qrels, a, doc, b);
        TotalGainWithout(sc, qrels, a + b);
        BestGainsAreBest(sc, rest, a + b);
      }
    }
  }

  lemma {:induction false} NoJudgements<I(!new)>(sc: Scoring, docs: seq<I>)
    requires sc.Valid()
    ensures TotalGain(sc, [], docs) == 0.0 && Sum(BestGains<I>(sc, []), |docs|) == 0.0
    decreases |docs|
  {
    if docs != [] {
      NoJudgements(sc, docs[..|docs| - 1]);
    }
  }

  // ---------------------------------------------------------------- nDCG at k

  function DcgOf(sc: Scoring, relevances: seq<real>): real {
    Discounted(Gains(sc, relevances), sc.discount, |relevances|)
  }

  function ObservedRelevances<I(==)>(ranked: seq<I>, qrels: seq<Qrel<I>>, k: nat): seq<real> {
    seq(|Take(ranked, k)|, i requires 0 <= i < |Take(ranked, k)| => Relevance(qrels, Take(ranked, k)[i]))
  }

  function IdealRelevances<I>(qrels: seq<Qrel<I>>, k: nat): seq<real> {
    Take(SortedDescending(PositiveRelevances(qrels)), k)
  }

  function NdcgAt<I(==)>(sc: Scoring, ranked: seq<I>, qrels: seq<Qrel<I>>, k: nat): real {
    var ideal := DcgOf(sc, IdealRelevances(qrels, k));
    if ideal <= 0.0 then 0.0 else DcgOf(sc, ObservedRelevances(ranked, qrels, k)) / ideal
  }

  /** The sum starts at nothing, and each further relevance adds its gain times the discount of its place. */
  lemma DcgAddsUp(sc: Scoring, relevances: seq<real>, x: real)
    ensures DcgOf(sc, []) == 0.0
    ensures DcgOf(sc, relevances + [x]) == DcgOf(sc, relevances) + sc.gain(x) * sc.discount(|relevances|)
  {
    var s, longer := Gains(sc, relevances), Gains(sc, relevances + [x]);
    assert longer == s + [sc.gain(x)];
    forall i: nat | i < |s| ensures PlaceOf(s, i) == PlaceOf(longer, i) {
    }
    DiscountedAgree(s, longer, sc.discount, |s|);
  }

  /** Beyond its end a list adds nothing. */
  lemma {:induction false} DiscountedPadded(s: seq<real>, discount: nat -> real, n: nat)
    requires n >= |s|
    ensures Discounted(s, discount, n) == Discounted(s, discount, |s|)
    decreases n
  {
    if n > |s| {
      DiscountedPadded(s, discount, n - 1);
    }
  }

  lemma {:induction false} DiscountedNonNegative(s: seq<real>, discount: nat -> real, n: nat)
    requires Falling(discount) && forall i :: 0 <= i < |s| ==> s[i] >= 0.0
    ensures Discounted(s, discount, n) >= 0.0
    decreases n
  {
    hide Times;
    if n > 0 {
      DiscountedNonNegative(s, discount, n - 1);
      TimesSign(PlaceOf(s, n - 1), discount(n - 1));
    }
  }

  lemma {:induction false} SumsAgree(s: seq<real>, t: seq<real>, n: nat)
    requires forall i: nat :: i < n ==> PlaceOf(s, i) == PlaceOf(t, i)
    ensures Sum(s, n) == Sum(t, n)
    decreases n
  {
    if n > 0 {
      SumsAgree(s, t, n - 1);
    }
  }

  lemma {:induction false} TotalGainIsSum<I(!new)>(sc: Scoring, qrels: seq<Qrel<I>>, ranked: seq<I>, k: nat, j: nat)
    requires j <= |Take(ranked, k)|
    ensures TotalGain(sc, qrels, Take(ranked, k)[..j]) == Sum(Gains(sc, ObservedRelevances(ranked, qrels, k)), j)
    decreases j
  {
    if j > 0 {
      var top := Take(ranked, k);
      assert top[..j][..j - 1] == top[..j - 1];
      TotalGainIsSum(sc, qrels, ranked, k, j - 1);
    }
  }

  lemma {:induction false} SumPastEnd(s: seq<real>, n: nat)
    requires n >= |s|
    ensures Sum(s, n) == Sum(s, |s|)
    decreases n
  {
    if n > |s| {
      SumPastEnd(s, n - 1);
    }
  }

  lemma {:induction false} SumsGrow(s: seq<real>, i: nat, j: nat)
    requires i <= j && forall k :: 0 <= k < |s| ==> s[k] >= 0.0
    ensures Sum(s, i) <= Sum(s, j)
    decreases j
  {
    if i < j {
      SumsGrow(s, i, j - 1);
    }
  }

  /** Every prefix of the ranking gains at most as much as the same prefix of the ideal. */
  lemma IdealDominates<I(!new)>(sc: Scoring, ranked: seq<I>, qrels: seq<Qrel<I>>, k: nat)
    requires sc.Valid() && OneEach(qrels) && Distinct(ranked)
    ensures Dominated(Gains(sc, ObservedRelevances(ranked, qrels, k)), Gains(sc, IdealRelevances(qrels, k)), k)
  {
    hide Sum, TotalGain, Relevance;
    var o, a := Gains(sc, ObservedRelevances(ranked, qrels, k)), Gains(sc, IdealRelevances(qrels, k));
    var best, top := BestGains(sc, qrels), Take(ranked, k);
    PositiveSortedPositive(qrels);
    forall j: nat | j <= k ensures Sum(o, j) <= Sum(a, j) {
      var m := Min(j, |top|);
      if j > |top| {
        SumPastEnd(o, j);
      }
      TotalGainIsSum(sc, qrels, ranked, k, m);
      BestGainsAreBest(sc, qrels, top[..m]);
      SumsGrow(best, m, j);
      SumsAgree(a, best, j);
    }
  }

  lemma ObservedNonNegative<I(!new)>(sc: Scoring, ranked: seq<I>, qrels: seq<Qrel<I>>, k: nat)
    requires sc.Valid() && QrelsOk(qrels)
    ensures DcgOf(sc, ObservedRelevances(ranked, qrels, k)) >= 0.0
  {
    hide Discounted, Relevance;
    var observed := ObservedRelevances(ranked, qrels, k);
    forall i | 0 <= i < |observed| ensures observed[i] >= 0.0 {
      RelevanceNonNegative(qrels, Take(ranked, k)[i]);
    }
    DiscountedNonNegative(Gains(sc, observed), sc.discount, |observed|);
  }

  lemma DcgBelowIdeal<I(!new)>(sc: Scoring, ranked: seq<I>, qrels: seq<Qrel<I>>, k: nat)
    requires sc.Valid() && OneEach(qrels) && Distinct(ranked)
    ensures DcgOf(sc, ObservedRelevances(ranked, qrels, k)) <= DcgOf(sc, IdealRelevances(qrels, k))
  {
    hide Discounted, Dominated, Sum;
    var o, a := Gains(sc, ObservedRelevances(ranked, qrels, k)), Gains(sc, IdealRelevances(qrels, k));
    IdealDominates(sc, ranked, qrels, k);
    DominatedDiscounts(o, a, sc.discount, k);
    DiscountedPadded(o, sc.discount, k);
    DiscountedPadded(a, sc.discount, k);
  }

  /** nDCG is at most 1 for every duplicate-free ranking, and at least 0 if no judgement is negative. */
  lemma NdcgBounded<I(!new)>(sc: Scoring, ranked: seq<I>, qrels: seq<Qrel<I>>, k: nat)
    requires sc.Valid() && OneEach(qrels) && Distinct(ranked)
    ensures NdcgAt(sc, ranked, qrels, k) <= 1.0
    ensures QrelsOk(qrels) ==> 0.0 <= NdcgAt(sc, ranked, qrels, k)
  {
    hide DcgOf, Scoring.Valid, QrelsOk, OneEach;
    if QrelsOk(qrels) {
      ObservedNonNegative(sc, ranked, qrels, k);
    }
    DcgBelowIdeal(sc, ranked, qrels, k);
    var ideal := DcgOf(sc, IdealRelevances(qrels, k));
    if ideal > 0.0 {
      Divide(DcgOf(sc, ObservedRelevances(ranked, qrels, k)), ideal, ideal);
    }
  }

  /** The ideal is positive exactly when there is a place to fill and a relevant document to fill it with. */
  lemma IdealPositive<I(!new)>(sc: Scoring, qrels: seq<Qrel<I>>, k: nat)
    requires sc.Valid()
    ensures DcgOf(sc, IdealRelevances(qrels, k)) > 0.0 <==> k > 0 && exists q :: q in qrels && q.relevance > 0.0
  {
    hide Discounted, PositiveRelevances, Sort;
    var positive := PositiveRelevances(qrels);
    var ideal := Gains(sc, IdealRelevances(qrels, k));
    SomePositive(qrels);
    SortLaws(positive, AtLeast);
    PositiveSortedPositive(qrels);
    forall i | 0 <= i < |ideal| ensures ideal[i] > 0.0 {
    }
    DiscountedPositive(ideal, sc.discount, |ideal|);
  }

  lemma {:induction false} SomePositive<I(!new)>(qrels: seq<Qrel<I>>)
    ensures PositiveRelevances(qrels) != [] <==> exists q :: q in qrels && q.relevance > 0.0
    decreases |qrels|
  {
    if qrels != [] {
      SomePositive(qrels[..|qrels| - 1]);
      assert qrels == qrels[..|qrels| - 1] + [qrels[|qrels| - 1]];
    }
  }

  lemma {:induction false} DiscountedPositive(s: seq<real>, discount: nat -> real, n: nat)
    requires Falling(discount) && n <= |s| && forall i :: 0 <= i < |s| ==> s[i] > 0.0
    ensures Discounted(s, discount, n) >= 0.0 && (Discounted(s, discount, n) > 0.0 <==> n > 0)
    decreases n
  {
    hide Times;
    if n > 0 {
      DiscountedPositive(s, discount, n - 1);
      TimesSign(s[n - 1], discount(n - 1));
    }
  }

  /** With any relevant document, nDCG is 1 exactly for the rankings whose gains are the ideal ones, place by place. */
  lemma NdcgOneMeansIdeal<I(!new)>(sc: Scoring, ranked: seq<I>, qrels: seq<Qrel<I>>, k: nat)
    requires sc.Valid() && OneEach(qrels) && Distinct(ranked)
    requires k > 0 && exists q :: q in qrels && q.relevance > 0.0
    ensures NdcgAt(sc, ranked, qrels, k) == 1.0 <==> IdealPlaces(sc, ranked, qrels, k)
  {
    hide Discounted, Sum, Scoring.Valid, OneEach, Relevance;
    var o, a := Gains(sc, ObservedRelevances(ranked, qrels, k)), Gains(sc, IdealRelevances(qrels, k));
    IdealPositive(sc, qrels, k);
    DcgBelowIdeal(sc, ranked, qrels, k);
    var ideal := DcgOf(sc, IdealRelevances(qrels, k));
    Divide(DcgOf(sc, ObservedRelevances(ranked, qrels, k)), ideal, ideal);
    DiscountedPadded(o, sc.discount, k);
    DiscountedPadded(a, sc.discount, k);
    ScoringFalls(sc);
    if Discounted(o, sc.discount, k) == Discounted(a, sc.discount, k) {
      IdealDominates(sc, ranked, qrels, k);
      EqualDiscountsEqualLists(o, a, sc.discount, k);
    }
    if IdealPlaces(sc, ranked, qrels, k) {
      DiscountedAgree(o, a, sc.discount, k);
    }
  }

  /** Each of the first k places of the ranking gains what the same place of the ideal does. */
  ghost predicate IdealPlaces<I>(sc: Scoring, ranked: seq<I>, qrels: seq<Qrel<I>>, k: nat) {
    forall i: nat :: i < k ==>
      PlaceOf(Gains(sc, ObservedRelevances(ranked, qrels, k)), i) == PlaceOf(Gains(sc, IdealRelevances(qrels, k)), i)
  }

  lemma ScoringFalls(sc: Scoring)
    requires sc.Valid()
    ensures Falling(sc.discount)
  {
  }

  lemma {:induction false} DiscountedAgree(s: seq<real>, t: seq<real>, discount: nat -> real, n: nat)
    requires forall i: nat :: i < n ==> PlaceOf(s, i) == PlaceOf(t, i)
    ensures Discounted(s, discount, n) == Discounted(t, discount, n)
    decreases n
  {
    if n > 0 {
      DiscountedAgree(s, t, discount, n - 1);
    }
  }
}
