/** Reciprocal-rank fusion of several result lists. */
module RankFusion {
  import opened Sequences
  import opened Sorting
  import opened Quotients

  const RRF_K := 60

  datatype Result<I, P> = Result(page: I, payload: P)

  datatype Fused<I, P> = Fused(page: I, payload: P, score: real)

  function PageIds<I, P>(results: seq<Result<I, P>>): seq<I> {
    seq(|results|, r requires 0 <= r < |results| => results[r].page)
  }

  function Lists<I, P>(resultLists: seq<seq<Result<I, P>>>): seq<seq<I>> {
    seq(|resultLists|, c requires 0 <= c < |resultLists| => PageIds(resultLists[c]))
  }

  // ---------------------------------------------------------------- specification

  function Weight(place: nat): real {
    1.0 / (RRF_K + place + 1) as real
  }

  /** What one list gives to x: the weights of all its places. */
  function ListScore<I(==)>(l: seq<I>, x: I): real {
    if l == [] then 0.0
    else ListScore(l[..|l| - 1], x) + (if l[|l| - 1] == x then Weight(|l| - 1) else 0.0)
  }

  function Score<I(==)>(lists: seq<seq<I>>, x: I): real {
    if lists == [] then 0.0 else Score(lists[..|lists| - 1], x) + ListScore(lists[|lists| - 1], x)
  }

  /** All pages, in order of first appearance. */
  function Seen<I(==)>(lists: seq<seq<I>>): seq<I> {
    if lists == [] then [] else AddNew(Seen(lists[..|lists| - 1]), lists[|lists| - 1])
  }

  /** The first place of x in l; |l| if x is absent. */
  function Place<I(==)>(l: seq<I>, x: I): nat {
    if l == [] then 0
    else
      var k := Place(l[..|l| - 1], x);
      if k < |l| - 1 then k else if l[|l| - 1] == x then |l| - 1 else |l|
  }

  /** Channel and place of the first appearance. */
  function FirstSeen<I(==)>(lists: seq<seq<I>>, x: I): (nat, nat) {
    if lists == [] then (0, 0)
    else
      var n := |lists| - 1;
      if x in Seen(lists[..n]) then FirstSeen(lists[..n], x) else (n, Place(lists[n], x))
  }

  predicate Earlier(a: (nat, nat), b: (nat, nat)) {
    a.0 < b.0 || (a.0 == b.0 && a.1 < b.1)
  }

  /** A higher score comes first; among equal scores, the page that appeared earlier. The page ids never decide. */
  ghost predicate Ahead<I>(lists: seq<seq<I>>, x: I, y: I) {
    Score(lists, x) > Score(lists, y) || (Score(lists, x) == Score(lists, y) && Earlier(FirstSeen(lists, x), FirstSeen(lists, y)))
  }

  /** pages are the best pages of all lists, best first, each once, at most limit of them. */
  ghost predicate IsFusion<I(!new)>(lists: seq<seq<I>>, limit: nat, pages: seq<I>) {
    && Distinct(pages)
    && |pages| == Min(limit, |Seen(lists)|)
    && (forall i :: 0 <= i < |pages| ==> pages[i] in Seen(lists))
    && (forall i, j :: 0 <= i < j < |pages| ==> Ahead(lists, pages[i], pages[j]))
    && (forall x, i :: x in Seen(lists) && x !in pages && 0 <= i < |pages| ==> Ahead(lists, pages[i], x))
  }

  // ---------------------------------------------------------------- what the specification functions mean

  lemma {:induction false} PlaceLaws<I>(l: seq<I>, x: I)
    ensures Place(l, x) <= |l|
    ensures x in l <==> Place(l, x) < |l|
    ensures Place(l, x) < |l| ==> l[Place(l, x)] == x
    ensures x !in l[..Place(l, x)]
    decreases |l|
  {
    if l != [] {
      var n := |l| - 1;
      PlaceLaws(l[..n], x);
      assert l == l[..n] + [l[n]];
      assert l[..n][..Place(l[..n], x)] == l[..Place(l[..n], x)];
    }
  }

  lemma {:induction false} SeenLaws<I(!new)>(lists: seq<seq<I>>)
    ensures Distinct(Seen(lists))
    ensures forall x :: x in Seen(lists) <==> exists c :: 0 <= c < |lists| && x in lists[c]
    decreases |lists|
  {
    if lists != [] {
      var n := |lists| - 1;
      SeenLaws(lists[..n]);
      AddNewLaws(Seen(lists[..n]), lists[n]);
      forall x ensures x in Seen(lists) <==> exists c :: 0 <= c < |lists| && x in lists[c] {
        if x in Seen(lists[..n]) {
          var c :| 0 <= c < n && x in lists[..n][c];
          assert x in lists[c];
        }
        if c :| 0 <= c < |lists| && x in lists[c] {
          if c < n { assert x in lists[..n][c]; }
        }
      }
    }
  }

  /** FirstSeen is an occurrence, and there is none before it. */
  lemma {:induction false} FirstSeenLaws<I(!new)>(lists: seq<seq<I>>, x: I)
    requires x in Seen(lists)
    ensures var p := FirstSeen(lists, x);
            && p.0 < |lists| && p.1 < |lists[p.0]| && lists[p.0][p.1] == x
            && (forall c :: 0 <= c < p.0 ==> x !in lists[c]) && x !in lists[p.0][..p.1]
    decreases |lists|
  {
    var n := |lists| - 1;
    if x in Seen(lists[..n]) {
      FirstSeenLaws(lists[..n], x);
      assert forall c :: 0 <= c < n ==> lists[..n][c] == lists[c];
    } else {
      SeenLaws(lists);
      SeenLaws(lists[..n]);
      PlaceLaws(lists[n], x);
      forall c | 0 <= c < n ensures x !in lists[c] {
        assert lists[..n][c] == lists[c];
      }
      assert x in lists[n];
    }
  }

  /** Different pages are first seen at different places, so the order has no ties. */
  lemma NoTies<I(!new)>(lists: seq<seq<I>>, x: I, y: I)
    requires x in Seen(lists) && y in Seen(lists) && x != y
    ensures Ahead(lists, x, y) != Ahead(lists, y, x)
  {
    hide Score, FirstSeen, Seen;
    FirstSeenLaws(lists, x);
    FirstSeenLaws(lists, y);
  }

  /** Only one list of pages meets the specification. */
  lemma {:induction false} FusionUnique<I(!new)>(lists: seq<seq<I>>, limit: nat, p: seq<I>, q: seq<I>, n: nat)
    requires IsFusion(lists, limit, p) && IsFusion(lists, limit, q) && n <= |p|
    ensures |p| == |q| && p[..n] == q[..n]
    decreases n
  {
    hide Seen, Ahead, Score, FirstSeen;
    if n > 0 {
      var i := n - 1;
      FusionUnique(lists, limit, p, q, i);
      assert p[i] !in p[..i] && q[i] !in q[..i];
      if p[i] != q[i] {
        NoTies(lists, p[i], q[i]);
      }
      assert p[..n] == p[..i] + [p[i]] && q[..n] == q[..i] + [q[i]];
    }
  }

  // ---------------------------------------------------------------- steps of the loop

  lemma ScoreStep<I(!new)>(before: seq<seq<I>>, l: seq<I>, x: I, y: I)
    ensures Score(before + [l + [x]], y) == Score(before + [l], y) + (if x == y then Weight(|l|) else 0.0)
  {
    assert (before + [l + [x]])[..|before|] == before && (before + [l])[..|before|] == before;
    assert (l + [x])[..|l|] == l;
  }

  lemma SeenStep<I(!new)>(before: seq<seq<I>>, l: seq<I>, x: I)
    ensures var seen := Seen(before + [l]); Seen(before + [l + [x]]) == if x in seen then seen else seen + [x]
  {
    assert (before + [l + [x]])[..|before|] == before && (before + [l])[..|before|] == before;
    assert (l + [x])[..|l|] == l;
  }

  lemma FirstSeenKept<I(!new)>(before: seq<seq<I>>, l: seq<I>, x: I, y: I)
    requires y in Seen(before + [l])
    ensures FirstSeen(before + [l + [x]], y) == FirstSeen(before + [l], y)
  {
    assert (before + [l + [x]])[..|before|] == before && (before + [l])[..|before|] == before;
    assert (l + [x])[..|l|] == l;
    PlaceLaws(l, y);
    SeenStepMembers(before, l);
  }

  lemma FirstSeenNow<I(!new)>(before: seq<seq<I>>, l: seq<I>, x: I)
    requires x !in Seen(before + [l])
    ensures FirstSeen(before + [l + [x]], x) == (|before|, |l|)
  {
    hide Seen;
    assert (before + [l + [x]])[..|before|] == before;
    assert (l + [x])[..|l|] == l;
    PlaceLaws(l, x);
    SeenStepMembers(before, l);
  }

  lemma SeenStepMembers<I(!new)>(before: seq<seq<I>>, l: seq<I>)
    ensures forall y :: y in Seen(before + [l]) <==> y in Seen(before) || y in l
  {
    assert (before + [l])[..|before|] == before;
    SeenLaws(before);
    AddNewLaws(Seen(before), l);
  }

  /** A channel that has not started adds nothing. */
  lemma EmptyChannel<I(!new)>(before: seq<seq<I>>)
    ensures Seen(before + [[]]) == Seen(before)
    ensures forall x :: Score(before + [[]], x) == Score(before, x)
    ensures forall x :: x in Seen(before) ==> FirstSeen(before + [[]], x) == FirstSeen(before, x)
  {
    assert (before + [[]])[..|before|] == before;
  }

  // ---------------------------------------------------------------- the loop

  /** The sort key as an order: score descending, first channel, first place, page id. */
  predicate KeyAtMost<I(==)>(scores: map<I, real>, firstSeen: map<I, (nat, nat)>, idAtMost: (I, I) -> bool, a: I, b: I) {
    var scoreA, scoreB := if a in scores then scores[a] else 0.0, if b in scores then scores[b] else 0.0;
    var firstA, firstB := if a in firstSeen then firstSeen[a] else (0, 0), if b in firstSeen then firstSeen[b] else (0, 0);
    scoreA > scoreB || (scoreA == scoreB && (Earlier(firstA, firstB) || (firstA == firstB && idAtMost(a, b))))
  }

  /** The three dictionaries, and the order their keys were inserted in, after the given part of the lists. */
  ghost predicate Tables<I(!new), P>(
      resultLists: seq<seq<Result<I, P>>>, part: seq<seq<I>>,
      order: seq<I>, scores: map<I, real>, firstSeen: map<I, (nat, nat)>, payloads: map<I, P>)
  {
    && order == Seen(part)
    && (forall x :: x in order <==> x in scores)
    && (forall x :: x in order <==> x in firstSeen)
    && (forall x :: x in order <==> x in payloads)
    && forall x :: x in order ==>
         && scores[x] == Score(part, x)
         && firstSeen[x] == FirstSeen(part, x)
         && IsPayload(resultLists, firstSeen[x], payloads[x])
  }

  ghost predicate IsPayload<I, P>(resultLists: seq<seq<Result<I, P>>>, at: (nat, nat), payload: P) {
    at.0 < |resultLists| && at.1 < |resultLists[at.0]| && resultLists[at.0][at.1].payload == payload
  }

  lemma TablesStep<I(!new), P>(
      resultLists: seq<seq<Result<I, P>>>, before: seq<seq<I>>, l: seq<I>, result: Result<I, P>,
      order: seq<I>, scores: map<I, real>, firstSeen: map<I, (nat, nat)>, payloads: map<I, P>)
    requires Tables(resultLists, before + [l], order, scores, firstSeen, payloads)
    requires IsPayload(resultLists, (|before|, |l|), result.payload)
    ensures var x := result.page;
            var known := x in order;
            Tables(
              resultLists, before + [l + [x]], if known then order else order + [x],
              scores[x := (if known then scores[x] else 0.0) + Weight(|l|)],
              if known then firstSeen else firstSeen[x := (|before|, |l|)],
              if known then payloads else payloads[x := result.payload])
  {
    hide Seen, Score, FirstSeen, Weight, IsPayload;
    var x := result.page;
    SeenStep(before, l, x);
    if x !in order {
      FirstSeenNow(before, l, x);
      UnseenScoresNothing(before + [l], x);
    }
    forall y ensures Score(before + [l + [x]], y) == Score(before + [l], y) + (if x == y then Weight(|l|) else 0.0) {
      ScoreStep(before, l, x, y);
    }
    forall y | y in order ensures FirstSeen(before + [l + [x]], y) == FirstSeen(before + [l], y) {
      FirstSeenKept(before, l, x, y);
    }
  }

  lemma {:induction false} AbsentScoresNothing<I>(l: seq<I>, x: I)
    requires x !in l
    ensures ListScore(l, x) == 0.0
    decreases |l|
  {
    if l != [] {
      AbsentScoresNothing(l[..|l| - 1], x);
    }
  }

  lemma {:induction false} UnseenScoresNothing<I(!new)>(lists: seq<seq<I>>, x: I)
    requires x !in Seen(lists)
    ensures Score(lists, x) == 0.0
    decreases |lists|
  {
    if lists != [] {
      var n := |lists| - 1;
      SeenLaws(lists[..n]);
      AddNewLaws(Seen(lists[..n]), lists[n]);
      UnseenScoresNothing(lists[..n], x);
      AbsentScoresNothing(lists[n], x);
    }
  }

  lemma KeyIsPreorder<I(!new)>(scores: map<I, real>, firstSeen: map<I, (nat, nat)>, idAtMost: (I, I) -> bool)
    requires TotalPreorder(idAtMost)
    ensures TotalPreorder((a: I, b: I) => KeyAtMost(scores, firstSeen, idAtMost, a, b))
  {
  }

  function FusedPages<I, P>(fused: seq<Fused<I, P>>): seq<I> {
    seq(|fused|, i requires 0 <= i < |fused| => fused[i].page)
  }

  /** The nested loops over channels and results. */
  method Collect<I(==,!new), P>(resultLists: seq<seq<Result<I, P>>>)
    returns (order: seq<I>, scores: map<I, real>, firstSeen: map<I, (nat, nat)>, payloads: map<I, P>)
    ensures Tables(resultLists, Lists(resultLists), order, scores, firstSeen, payloads)
  {
    hide Seen, Score, FirstSeen, Weight;
    ghost var lists := Lists(resultLists);
    order, scores, firstSeen, payloads := [], map[], map[], map[];
    NothingSeen<I>();
    for c := 0 to |resultLists|
      invariant Tables(resultLists, lists[..c], order, scores, firstSeen, payloads)
    {
      var results := resultLists[c];
      TablesStart(resultLists, lists[..c], order, scores, firstSeen, payloads);
      assert lists[c][..0] == [];
      for r := 0 to |results|
        invariant Tables(resultLists, lists[..c] + [lists[c][..r]], order, scores, firstSeen, payloads)
      {
        var page := results[r].page;
        TablesStep(resultLists, lists[..c], lists[c][..r], results[r], order, scores, firstSeen, payloads);
        assert lists[c][..r] + [page] == lists[c][..r + 1];
        scores := scores[page := (if page in scores then scores[page] else 0.0) + Weight(r)];
        if page !in firstSeen {
          firstSeen := firstSeen[page := (c, r)];
        }
        if page !in payloads {
          order, payloads := order + [page], payloads[page := results[r].payload];
        }
      }
      assert lists[c][..|results|] == lists[c];
      assert lists[..c] + [lists[c]] == lists[..c + 1];
    }
    assert lists[..|resultLists|] == lists;
  }

  method RrfFuse<I(==,!new), P>(resultLists: seq<seq<Result<I, P>>>, limit: nat, idAtMost: (I, I) -> bool)
    returns (fused: seq<Fused<I, P>>)
    requires TotalPreorder(idAtMost)
    ensures IsFusion(Lists(resultLists), limit, FusedPages(fused))
    ensures forall i :: 0 <= i < |fused| ==>
              && fused[i].score == Score(Lists(resultLists), fused[i].page)
              && IsPayload(resultLists, FirstSeen(Lists(resultLists), fused[i].page), fused[i].payload)
  {
    hide Seen, Score, FirstSeen, Sort, TotalPreorder, KeyAtMost, IsFusion, IsPayload;
    var order, scores, firstSeen, payloads := Collect(resultLists);
    var ordered := Sort(order, (a: I, b: I) => KeyAtMost(scores, firstSeen, idAtMost, a, b));
    SortedIsFusion(resultLists, order, scores, firstSeen, payloads, idAtMost, ordered, limit);
    fused := [];
    var pages := Take(ordered, limit);
    for i := 0 to |pages|
      invariant |fused| == i
      invariant forall k :: 0 <= k < i ==> fused[k] == Fused(pages[k], payloads[pages[k]], scores[pages[k]])
    {
      fused := fused + [Fused(pages[i], payloads[pages[i]], scores[pages[i]])];
    }
    assert FusedPages(fused) == pages;
  }

  lemma NothingSeen<I>()
    ensures Seen<I>([]) == []
  {
  }

  lemma TablesStart<I(!new), P>(
      resultLists: seq<seq<Result<I, P>>>, part: seq<seq<I>>,
      order: seq<I>, scores: map<I, real>, firstSeen: map<I, (nat, nat)>, payloads: map<I, P>)
    requires Tables(resultLists, part, order, scores, firstSeen, payloads)
    ensures Tables(resultLists, part + [[]], order, scores, firstSeen, payloads)
  {
    hide Seen, Score, FirstSeen, IsPayload;
    EmptyChannel(part);
  }

  /** The first pages of the sorted table are the fusion. */
  lemma SortedIsFusion<I(!new), P>(
      resultLists: seq<seq<Result<I, P>>>, order: seq<I>, scores: map<I, real>, firstSeen: map<I, (nat, nat)>, payloads: map<I, P>,
      idAtMost: (I, I) -> bool, ordered: seq<I>, limit: nat)
    requires TotalPreorder(idAtMost) && Tables(resultLists, Lists(resultLists), order, scores, firstSeen, payloads)
    requires ordered == Sort(order, (a: I, b: I) => KeyAtMost(scores, firstSeen, idAtMost, a, b))
    ensures IsFusion(Lists(resultLists), limit, Take(ordered, limit))
    ensures forall x :: x in ordered <==> x in order
  {
    hide Seen, Score, FirstSeen, Sort, TotalPreorder, KeyAtMost;
    var lists := Lists(resultLists);
    var le := (a: I, b: I) => KeyAtMost(scores, firstSeen, idAtMost, a, b);
    KeyIsPreorder(scores, firstSeen, idAtMost);
    SortLaws(order, le);
    SeenLaws(lists);
    SortedDistinct(order, ordered);
    forall i, j | 0 <= i < j < |ordered| ensures Ahead(lists, ordered[i], ordered[j]) {
      assert le(ordered[i], ordered[j]);
      assert ordered[i] in order && ordered[j] in order;
      FirstSeenLaws(lists, ordered[i]);
      FirstSeenLaws(lists, ordered[j]);
      KeyIsAhead(lists, scores, firstSeen, idAtMost, ordered[i], ordered[j]);
    }
  }

  lemma SortedDistinct<I(!new)>(order: seq<I>, ordered: seq<I>)
    requires Distinct(order) && multiset(ordered) == multiset(order)
    ensures Distinct(ordered) && |ordered| == |order|
  {
    DistinctCounts(order);
    DistinctCounts(ordered);
    SameElements(order, ordered);
  }

  lemma KeyIsAhead<I(!new)>(lists: seq<seq<I>>, scores: map<I, real>, firstSeen: map<I, (nat, nat)>, idAtMost: (I, I) -> bool, x: I, y: I)
    requires x in scores && y in scores && x in firstSeen && y in firstSeen && FirstSeen(lists, x) != FirstSeen(lists, y)
    requires scores[x] == Score(lists, x) && scores[y] == Score(lists, y)
    requires firstSeen[x] == FirstSeen(lists, x) && firstSeen[y] == FirstSeen(lists, y)
    requires KeyAtMost(scores, firstSeen, idAtMost, x, y)
    ensures Ahead(lists, x, y)
  {
    hide Score, FirstSeen;
  }

  // ---------------------------------------------------------------- dominance

  /** x is listed at most once. */
  ghost predicate AtMostOnce<I>(l: seq<I>, x: I) {
    forall i, j :: 0 <= i < j < |l| && l[i] == x ==> l[j] != x
  }

  /** A listed page has at least the weight of its first place, and no more if it is not repeated. */
  lemma {:induction false} PlaceScore<I(!new)>(l: seq<I>, x: I)
    ensures ListScore(l, x) >= if x in l then Weight(Place(l, x)) else 0.0
    ensures AtMostOnce(l, x) ==> ListScore(l, x) == if x in l then Weight(Place(l, x)) else 0.0
    decreases |l|
  {
    hide Weight;
    if l != [] {
      var n := |l| - 1;
      PlaceScore(l[..n], x);
      PlaceLaws(l[..n], x);
      PlaceLaws(l, x);
      WeightFalls(n, n);
      if AtMostOnce(l, x) && l[n] == x {
        assert x !in l[..n];
      }
    }
  }

  lemma WeightFalls(i: nat, j: nat)
    ensures Weight(i) > 0.0
    ensures i < j ==> Weight(i) > Weight(j)
  {
    if i < j {
      DivideByMore(1.0, (RRF_K + i + 1) as real, (RRF_K + j + 1) as real);
    }
  }

  lemma ListDominance<I(!new)>(l: seq<I>, x: I, y: I)
    requires AtMostOnce(l, y) && Place(l, x) <= Place(l, y)
    ensures ListScore(l, x) >= ListScore(l, y)
    ensures Place(l, x) < Place(l, y) ==> ListScore(l, x) > ListScore(l, y)
  {
    hide ListScore, Weight, AtMostOnce;
    PlaceScore(l, x);
    PlaceScore(l, y);
    PlaceLaws(l, x);
    PlaceLaws(l, y);
    WeightFalls(Place(l, x), Place(l, y));
  }

  /**
   Being nowhere behind and somewhere in front gives the higher score, if no channel repeats the page that is behind.
   Repeats of other pages, even of the one in front, do no harm. Absence is the last place.
   */
  lemma {:induction false} Dominance<I(!new)>(lists: seq<seq<I>>, x: I, y: I)
    requires forall c :: 0 <= c < |lists| ==> AtMostOnce(lists[c], y) && Place(lists[c], x) <= Place(lists[c], y)
    ensures Score(lists, x) >= Score(lists, y)
    ensures (exists c :: 0 <= c < |lists| && Place(lists[c], x) < Place(lists[c], y)) ==> Score(lists, x) > Score(lists, y)
    decreases |lists|
  {
    hide Place, ListScore, AtMostOnce;
    if lists != [] {
      var n := |lists| - 1;
      Dominance(lists[..n], x, y);
      ListDominance(lists[n], x, y);
      if c :| 0 <= c < |lists| && Place(lists[c], x) < Place(lists[c], y) {
        if c < n {
          assert lists[..n][c] == lists[c];
        }
      }
    }
  }

  /** So a dominated page is never listed without, or ahead of, the page that dominates it. */
  lemma DominanceInFusion<I(!new)>(lists: seq<seq<I>>, limit: nat, pages: seq<I>, x: I, j: nat)
    requires IsFusion(lists, limit, pages) && j < |pages|
    requires forall c :: 0 <= c < |lists| ==> AtMostOnce(lists[c], pages[j]) && Place(lists[c], x) <= Place(lists[c], pages[j])
    requires exists c :: 0 <= c < |lists| && Place(lists[c], x) < Place(lists[c], pages[j])
    ensures exists i :: 0 <= i < j && pages[i] == x
  {
    hide Score, FirstSeen, Seen, Place;
    Dominance(lists, x, pages[j]);
    var c :| 0 <= c < |lists| && Place(lists[c], x) < Place(lists[c], pages[j]);
    PlaceLaws(lists[c], x);
    PlaceLaws(lists[c], pages[j]);
    SeenLaws(lists);
    assert x in Seen(lists);
    assert !Ahead(lists, pages[j], x);
    assert x in pages;
    var i :| 0 <= i < |pages| && pages[i] == x;
  }

  // ---------------------------------------------------------------- scores as numbers

  /** Scores add up from nothing: each result adds 1 over 61 plus its place in its channel to the score of its page, and nothing to others. */
  lemma ScoreAddsUp<I(!new)>(before: seq<seq<I>>, l: seq<I>, x: I, y: I)
    ensures Score([], y) == 0.0 && Score(before + [[]], y) == Score(before, y)
    ensures Score(before + [l + [x]], y) == Score(before + [l], y) + (if x == y then 1.0 / (61 + |l|) as real else 0.0)
  {
    hide Score;
    EmptyChannel(before);
    ScoreStep(before, l, x, y);
    ScoreOfNothing(y);
  }

  lemma ScoreOfNothing<I>(y: I)
    ensures Score([], y) == 0.0
  {
  }

  /** A page listed once, at place p of one channel, scores 1 over 61 + p. */
  lemma {:induction false} SingleAppearance<I(!new)>(lists: seq<seq<I>>, x: I, c: nat, p: nat)
    requires c < |lists| && p < |lists[c]| && lists[c][p] == x && AtMostOnce(lists[c], x)
    requires forall d :: 0 <= d < |lists| && d != c ==> x !in lists[d]
    ensures Score(lists, x) == 1.0 / (61 + p) as real
    decreases |lists|
  {
    hide ListScore;
    var n := |lists| - 1;
    if c < n {
      SingleAppearance(lists[..n], x, c, p);
      AbsentScoresNothing(lists[n], x);
    } else {
      forall d | 0 <= d < n ensures x !in lists[..n][d] {
        assert lists[..n][d] == lists[d];
      }
      NowhereScoresNothing(lists[..n], x);
      PlaceScore(lists[n], x);
      PlaceLaws(lists[n], x);
    }
  }

  lemma {:induction false} NowhereScoresNothing<I(!new)>(lists: seq<seq<I>>, x: I)
    requires forall d :: 0 <= d < |lists| ==> x !in lists[d]
    ensures Score(lists, x) == 0.0
    decreases |lists|
  {
    if lists != [] {
      var n := |lists| - 1;
      NowhereScoresNothing(lists[..n], x);
      AbsentScoresNothing(lists[n], x);
    }
  }

  // ---------------------------------------------------------------- the order of first appearance

  lemma MetAtSmallerPlace<I(!new)>(l: seq<I>, x: I, y: I)
    requires MetBefore(l, x, y)
    ensures Place(l, x) < Place(l, y)
  {
    hide Place;
    var k :| 0 <= k < |l| && l[k] == x && y !in l[..k] && x != y;
    PlaceLaws(l, x);
    PlaceLaws(l, y);
  }

  /** The pages seen are listed in order of first appearance. */
  lemma {:induction false} SeenInOrder<I(!new)>(lists: seq<seq<I>>, i: nat, j: nat)
    requires i < j < |Seen(lists)|
    ensures Earlier(FirstSeen(lists, Seen(lists)[i]), FirstSeen(lists, Seen(lists)[j]))
    decreases |lists|
  {
    hide Place;
    if lists != [] {
      var n := |lists| - 1;
      var before, x, y := Seen(lists[..n]), Seen(lists)[i], Seen(lists)[j];
      SeenLaws(lists[..n]);
      SeenLaws(lists);
      AddNewLaws(before, lists[n]);
      if j < |before| {
        SeenInOrder(lists[..n], i, j);
      } else if i < |before| {
        FirstSeenLaws(lists[..n], x);
      } else {
        AddNewInOrder(before, lists[n], i, j);
        MetAtSmallerPlace(lists[n], x, y);
      }
    }
  }

  /** No page among the first `limit` pages seen scores less than a page seen later. */
  ghost predicate ScoresFall<I(!new)>(lists: seq<seq<I>>, limit: nat) {
    forall i, j :: 0 <= i < j < |Seen(lists)| && i < limit ==> Score(lists, Seen(lists)[i]) >= Score(lists, Seen(lists)[j])
  }

  /**
   A fusion lists the pages in order of first appearance exactly when no page within the limit scores less than a
   page that appears after it.
   */
  lemma KeepsFirstSeenOrder<I(!new)>(lists: seq<seq<I>>, limit: nat, pages: seq<I>)
    requires IsFusion(lists, limit, pages)
    ensures pages == Take(Seen(lists), limit) <==> ScoresFall(lists, limit)
  {
    hide Seen, Score, FirstSeen;
    SeenLaws(lists);
    var seen := Seen(lists);
    if pages == Take(seen, limit) {
      forall i, j | 0 <= i < j < |seen| && i < limit ensures Score(lists, seen[i]) >= Score(lists, seen[j]) {
        assert pages[i] == seen[i];
        if j < |pages| {
          assert pages[j] == seen[j];
        } else {
          assert seen[j] in seen && seen[j] !in seen[..|pages|];
        }
        assert Ahead(lists, seen[i], seen[j]);
      }
    }
    if ScoresFall(lists, limit) {
      forall i, j | 0 <= i < j < |seen| && i < limit ensures Ahead(lists, seen[i], seen[j]) {
        SeenInOrder(lists, i, j);
      }
      FusionUnique(lists, limit, pages, Take(seen, limit), |pages|);
    }
  }

  // ---------------------------------------------------------------- one channel

  /** A single duplicate-free channel comes back as its own prefix. */
  lemma SingleChannel<I(!new)>(l: seq<I>, limit: nat, pages: seq<I>)
    requires Distinct(l) && IsFusion([l], limit, pages)
    ensures pages == Take(l, limit)
  {
    hide Ahead, Seen;
    SeenOfOne(l);
    forall i, j | 0 <= i < j < |l| ensures Ahead([l], l[i], l[j]) {
      EarlierIsAhead(l, i, j);
    }
    FusionUnique([l], limit, pages, Take(l, limit), |pages|);
  }

  lemma SeenOfOne<I(!new)>(l: seq<I>)
    requires Distinct(l)
    ensures Seen([l]) == l
  {
    assert [l][..0] == [];
    AddNewDistinct(l);
  }

  lemma EarlierIsAhead<I(!new)>(l: seq<I>, i: nat, j: nat)
    requires Distinct(l) && i < j < |l|
    ensures Ahead([l], l[i], l[j])
  {
    hide Place, ListScore, Score, FirstSeen;
    PlaceInDistinct(l, i);
    PlaceInDistinct(l, j);
    ListDominance(l, l[i], l[j]);
    ScoreOfOne(l, l[i]);
    ScoreOfOne(l, l[j]);
  }

  lemma ScoreOfOne<I(!new)>(l: seq<I>, x: I)
    ensures Score([l], x) == ListScore(l, x)
  {
    assert [l][..0] == [];
    assert Score([l][..0], x) == 0.0;
  }

  lemma {:induction false} AddNewDistinct<I(!new)>(l: seq<I>)
    requires Distinct(l)
    ensures AddNew([], l) == l
    decreases |l|
  {
    if l != [] {
      AddNewDistinct(l[..|l| - 1]);
    }
  }

  lemma PlaceInDistinct<I(!new)>(l: seq<I>, i: nat)
    requires Distinct(l) && i < |l|
    ensures Place(l, l[i]) == i
  {
    PlaceLaws(l, l[i]);
  }

  /**
   A repeated page collects a weight for every appearance. So a channel with repeats need not keep its order: the
   page listed twice is returned ahead of the page listed before it.
   */
  lemma RepeatsOvertake<I(!new)>(x: I, y: I, limit: nat, pages: seq<I>)
    requires x != y && limit >= 2 && IsFusion([[x, y, y]], limit, pages)
    ensures pages == [y, x]
  {
    hide Score, FirstSeen, Seen, ListScore;
    RepeatsFacts(x, y);
    assert !Ahead([[x, y, y]], x, y);
    assert pages[0] in [x, y] && pages[1] in [x, y];
    assert pages == [pages[0], pages[1]];
  }

  lemma RepeatsFacts<I(!new)>(x: I, y: I)
    requires x != y
    ensures Seen([[x, y, y]]) == [x, y]
    ensures Score([[x, y, y]], y) > Score([[x, y, y]], x)
  {
    assert [[x, y, y]][..0] == [];
    assert [x, y, y][..2] == [x, y] && [x, y][..1] == [x] && [x][..0] == [];
    assert AddNew([], [x]) == [x];
    assert AddNew([], [x, y]) == [x, y];
    ScoreOfOne([x, y, y], x);
    ScoreOfOne([x, y, y], y);
    assert ListScore([x], x) == Weight(0) && ListScore([x], y) == 0.0;
    assert ListScore([x, y], x) == Weight(0) && ListScore([x, y], y) == Weight(1);
    assert Weight(0) == 1.0 / 61.0 && Weight(1) == 1.0 / 62.0 && Weight(2) == 1.0 / 63.0;
  }
}
