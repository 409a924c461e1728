/**
 The bounded breadth-first search behind `neighbors` and `backlinks`.

 The reference order closes {start} under one hop, again and again, and lists nodes as they are found.
 The queue-driven loop is proved to scan the shortest stretch of the reference arc stream that
 yields `limit` nodes; distances, the ball and the truncation laws are proved about the reference.
 */
module GraphNeighbors {
  import opened Sequences
  import opened GraphView

  // ---------------------------------------------------------------- declarative distance

  ghost predicate Step<N(!new)>(adj: Adjacency<N>, u: N, v: N) {
    exists a :: a in adj(u) && a.node == v
  }

  /** v can be reached from s in at most k hops. */
  ghost predicate Within<N(!new)>(adj: Adjacency<N>, s: N, v: N, k: nat)
    decreases k
  {
    if k == 0 then v == s
    else Within(adj, s, v, k - 1) || exists u :: Within(adj, s, u, k - 1) && Step(adj, u, v)
  }

  ghost predicate AtDistance<N(!new)>(adj: Adjacency<N>, s: N, v: N, k: nat) {
    Within(adj, s, v, k) && (k > 0 ==> !Within(adj, s, v, k - 1))
  }

  lemma {:induction false} WithinMonotone<N(!new)>(adj: Adjacency<N>, s: N, v: N, k: nat, m: nat)
    requires k <= m && Within(adj, s, v, k)
    ensures Within(adj, s, v, m)
    decreases m
  {
    if k < m {
      WithinMonotone(adj, s, v, k, m - 1);
    }
  }

  // ---------------------------------------------------------------- reference order

  /** Appends the arcs' end nodes that are not listed yet, each once, in order. */
  function Discover<N(==,!new)>(seen: seq<N>, arcs: seq<Arc<N>>): seq<N> {
    if arcs == [] then seen
    else
      var before := Discover(seen, arcs[..|arcs| - 1]);
      var v := arcs[|arcs| - 1].node;
      if v in before then before else before + [v]
  }

  /** The distinct edge indexes of the arcs, in order of first use. */
  function EdgesUsed<N(==,!new)>(arcs: seq<Arc<N>>): seq<nat> {
    if arcs == [] then []
    else
      var before := EdgesUsed(arcs[..|arcs| - 1]);
      var e := arcs[|arcs| - 1].edge;
      if e in before then before else before + [e]
  }

  /** All arcs out of the listed nodes, node by node. */
  function Stream<N(==,!new)>(adj: Adjacency<N>, nodes: seq<N>): seq<Arc<N>> {
    if nodes == [] then []
    else Stream(adj, nodes[..|nodes| - 1]) + adj(nodes[|nodes| - 1])
  }

  /** {start} closed k times under one hop, listed in order of discovery. */
  function Order<N(==,!new)>(adj: Adjacency<N>, s: N, k: nat): seq<N> {
    if k == 0 then [s]
    else
      var near := Order(adj, s, k - 1);
      Discover(near, Stream(adj, near))
  }

  /** The arcs an unbounded search of this depth looks at. */
  function Scanned<N(==,!new)>(adj: Adjacency<N>, s: N, maxDepth: nat): seq<Arc<N>> {
    if maxDepth == 0 then [] else Stream(adj, Order(adj, s, maxDepth - 1))
  }

  // ---------------------------------------------------------------- laws of Discover and Stream

  lemma {:induction false} DiscoverAppend<N(!new)>(seen: seq<N>, a: seq<Arc<N>>, b: seq<Arc<N>>)
    ensures Discover(seen, a + b) == Discover(Discover(seen, a), b)
    decreases |b|
  {
    if b == [] {
      assert a + b == a;
    } else {
      assert (a + b)[..|a + b| - 1] == a + b[..|b| - 1];
      DiscoverAppend(seen, a, b[..|b| - 1]);
    }
  }

  lemma {:induction false} DiscoverKeeps<N(!new)>(seen: seq<N>, arcs: seq<Arc<N>>)
    requires Distinct(seen)
    ensures seen <= Discover(seen, arcs)
    ensures Distinct(Discover(seen, arcs))
    ensures |Discover(seen, arcs)| <= |seen| + |arcs|
    decreases |arcs|
  {
    if arcs != [] {
      DiscoverKeeps(seen, arcs[..|arcs| - 1]);
    }
  }

  lemma {:induction false} DiscoverMembers<N(!new)>(seen: seq<N>, arcs: seq<Arc<N>>, v: N)
    ensures v in Discover(seen, arcs) <==> v in seen || exists a :: a in arcs && a.node == v
    decreases |arcs|
  {
    if arcs != [] {
      var n := |arcs| - 1;
      DiscoverMembers(seen, arcs[..n], v);
      assert forall a :: a in arcs <==> a in arcs[..n] || a == arcs[n];
    }
  }

  lemma {:induction false} DiscoverNothingNew<N(!new)>(seen: seq<N>, arcs: seq<Arc<N>>)
    requires forall a :: a in arcs ==> a.node in seen
    ensures Discover(seen, arcs) == seen
    decreases |arcs|
  {
    if arcs != [] {
      DiscoverNothingNew(seen, arcs[..|arcs| - 1]);
    }
  }

  lemma {:induction false} DiscoverPrefix<N(!new)>(seen: seq<N>, a: seq<Arc<N>>, b: seq<Arc<N>>)
    requires Distinct(seen) && a <= b
    ensures Discover(seen, a) <= Discover(seen, b)
  {
    assert b == a + b[|a|..];
    DiscoverAppend(seen, a, b[|a|..]);
    DiscoverKeeps(seen, a);
    DiscoverKeeps(Discover(seen, a), b[|a|..]);
  }

  lemma {:induction false} StreamAppend<N(!new)>(adj: Adjacency<N>, a: seq<N>, b: seq<N>)
    ensures Stream(adj, a + b) == Stream(adj, a) + Stream(adj, b)
    decreases |b|
  {
    if b == [] {
      assert a + b == a;
    } else {
      assert (a + b)[..|a + b| - 1] == a + b[..|b| - 1];
      StreamAppend(adj, a, b[..|b| - 1]);
    }
  }

  lemma {:induction false} StreamPrefix<N(!new)>(adj: Adjacency<N>, a: seq<N>, b: seq<N>)
    requires a <= b
    ensures Stream(adj, a) <= Stream(adj, b)
  {
    assert b == a + b[|a|..];
    StreamAppend(adj, a, b[|a|..]);
  }

  /** The stream holds exactly the arcs that lead out of a listed node. */
  lemma {:induction false} StreamMembers<N(!new)>(adj: Adjacency<N>, nodes: seq<N>, a: Arc<N>)
    ensures a in Stream(adj, nodes) <==> exists u :: u in nodes && a in adj(u)
    decreases |nodes|
  {
    if nodes != [] {
      var n := |nodes| - 1;
      StreamMembers(adj, nodes[..n], a);
      assert forall u :: u in nodes <==> u in nodes[..n] || u == nodes[n];
    }
  }

  // ---------------------------------------------------------------- laws of Order

  lemma {:induction false} OrderGrows<N(!new)>(adj: Adjacency<N>, s: N, k: nat)
    ensures Distinct(Order(adj, s, k))
    ensures k > 0 ==> Order(adj, s, k - 1) <= Order(adj, s, k)
  {
    if k > 0 {
      OrderGrows(adj, s, k - 1);
      DiscoverKeeps(Order(adj, s, k - 1), Stream(adj, Order(adj, s, k - 1)));
    }
  }

  lemma {:induction false} OrderPrefix<N(!new)>(adj: Adjacency<N>, s: N, k: nat, m: nat)
    requires k <= m
    ensures Order(adj, s, k) <= Order(adj, s, m)
    decreases m
  {
    hide Order, Distinct;
    if k < m {
      OrderPrefix(adj, s, k, m - 1);
      OrderGrows(adj, s, m);
    }
  }

  /** The order of depth k lists exactly the ball of radius k. */
  lemma {:induction false} OrderIsBall<N(!new)>(adj: Adjacency<N>, s: N, k: nat, v: N)
    ensures v in Order(adj, s, k) <==> Within(adj, s, v, k)
    decreases k
  {
    if k > 0 {
      var j := k - 1;
      forall u ensures u in Order(adj, s, j) <==> Within(adj, s, u, j) {
        OrderIsBall(adj, s, j, u);
      }
      BallOneHopFurther(adj, s, j, v);
    }
  }

  lemma {:induction false} BallOneHopFurther<N(!new)>(adj: Adjacency<N>, s: N, j: nat, v: N)
    requires forall u :: u in Order(adj, s, j) <==> Within(adj, s, u, j)
    ensures v in Order(adj, s, j + 1) <==> Within(adj, s, v, j + 1)
  {
    hide Order, Step;
    OneHopFurther(adj, s, j + 1, v);
  }

  lemma {:induction false} OneHopFurther<N(!new)>(adj: Adjacency<N>, s: N, k: nat, v: N)
    requires k > 0
    ensures var near := Order(adj, s, k - 1);
            v in Order(adj, s, k) <==> v in near || exists u :: u in near && Step(adj, u, v)
  {
    hide Order, Discover, Stream, Scanned;
    var near := Order(adj, s, k - 1);
    var arcs := Stream(adj, near);
    OrderStep(adj, s, k);
    DiscoverMembers(near, arcs, v);
    if a :| a in arcs && a.node == v {
      StreamMembers(adj, near, a);
    }
    if u :| u in near && Step(adj, u, v) {
      var a :| a in adj(u) && a.node == v;
      StreamMembers(adj, near, a);
    }
  }

  /** Nodes come in non-decreasing distance. */
  lemma {:induction false} OrderByDistance<N(!new)>(adj: Adjacency<N>, s: N, k: nat, i: nat, j: nat, a: nat, b: nat)
    requires i <= j < |Order(adj, s, k)|
    requires AtDistance(adj, s, Order(adj, s, k)[i], a)
    requires AtDistance(adj, s, Order(adj, s, k)[j], b)
    ensures a <= b <= k
  {
    hide Order, Within, Distinct;
    var all := Order(adj, s, k);
    OrderIsBall(adj, s, k, all[j]);
    if k < b {
      WithinMonotone(adj, s, all[j], k, b - 1);
    }
    OrderIsBall(adj, s, b, all[j]);
    OrderPrefix(adj, s, b, k);
    OrderGrows(adj, s, k);
    OrderIsBall(adj, s, b, all[i]);
    if b < a {
      WithinMonotone(adj, s, all[i], b, a - 1);
    }
  }

  /** Scanning the arc stream of the next smaller ball from [start] reproduces the order. */
  lemma {:induction false} ScanGivesOrder<N(!new)>(adj: Adjacency<N>, s: N, k: nat)
    ensures Discover([s], Scanned(adj, s, k)) == Order(adj, s, k)
    decreases k
  {
    if k > 1 {
      ScanGivesOrder(adj, s, k - 1);
      RescanAddsLastLayer(adj, s, k);
    }
  }

  lemma {:induction false} RescanAddsLastLayer<N(!new)>(adj: Adjacency<N>, s: N, k: nat)
    requires k > 1
    requires Discover([s], Scanned(adj, s, k - 1)) == Order(adj, s, k - 1)
    ensures Discover([s], Scanned(adj, s, k)) == Order(adj, s, k)
  {
    hide Order, Discover, Stream, Scanned, Distinct;
    var a, b := Order(adj, s, k - 2), Order(adj, s, k - 1);
    OrderStep(adj, s, k);
    OrderStep(adj, s, k - 1);
    OrderGrows(adj, s, k - 1);
    var rest := b[|a|..];
    var A, B := Stream(adj, a), Stream(adj, rest);
    assert b == a + rest;
    StreamAppend(adj, a, rest);
    DiscoverAppend([s], A, B);
    DiscoverAppend(b, A, B);
    forall x | x in A ensures x.node in b {
      DiscoverMembers(a, A, x.node);
    }
    DiscoverNothingNew(b, A);
  }

  lemma OrderStep<N(!new)>(adj: Adjacency<N>, s: N, k: nat)
    requires k > 0
    ensures Scanned(adj, s, k) == Stream(adj, Order(adj, s, k - 1))
    ensures Order(adj, s, k) == Discover(Order(adj, s, k - 1), Scanned(adj, s, k))
  {
  }

  // ---------------------------------------------------------------- the queue

  /** The i-th node of the order lies at depth k: it is in the k-th order but not in the one before. */
  ghost predicate DepthOfIndex<N(!new)>(adj: Adjacency<N>, s: N, i: nat, k: nat) {
    i < |Order(adj, s, k)| && (k > 0 ==> |Order(adj, s, k - 1)| <= i)
  }

  ghost predicate QueueOk<N(!new)>(adj: Adjacency<N>, s: N, nodes: seq<N>, h: nat, queue: seq<(N, nat)>) {
    && h + |queue| == |nodes|
    && forall j :: 0 <= j < |queue| ==> queue[j].0 == nodes[h + j] && DepthOfIndex(adj, s, h + j, queue[j].1)
  }

  /** The scan stops as soon as `limit` nodes are known, and otherwise runs to the end. */
  ghost predicate ShortestScan<N(!new)>(s: N, arcs: seq<Arc<N>>, limit: nat, p: nat) {
    && p <= |arcs|
    && (p < |arcs| ==> |Discover([s], arcs[..p])| >= limit)
    && (p > 0 ==> |Discover([s], arcs[..p - 1])| < limit)
  }

  lemma {:induction false} DepthBelowBound<N(!new)>(adj: Adjacency<N>, s: N, maxDepth: nat, h: nat, k: nat)
    requires DepthOfIndex(adj, s, h, k)
    ensures k < maxDepth ==> h < |Order(adj, s, maxDepth - 1)|
    ensures k >= maxDepth > 0 ==> h >= |Order(adj, s, maxDepth - 1)|
  {
    if k < maxDepth {
      OrderPrefix(adj, s, k, maxDepth - 1);
    } else if maxDepth > 0 {
      OrderPrefix(adj, s, maxDepth - 1, k - 1);
    }
  }

  /** The arcs of the h-th node sit in the scanned stream right after those of its predecessors. */
  lemma {:induction false} ArcsInStream<N(!new)>(adj: Adjacency<N>, s: N, maxDepth: nat, h: nat)
    requires maxDepth > 0 && h < |Order(adj, s, maxDepth - 1)|
    ensures var O := Order(adj, s, maxDepth - 1);
            var p := |Stream(adj, O[..h])|;
            var out := adj(O[h]);
            && p + |out| <= |Scanned(adj, s, maxDepth)|
            && Scanned(adj, s, maxDepth)[p..p + |out|] == out
            && |Stream(adj, O[..h + 1])| == p + |out|
  {
    var O := Order(adj, s, maxDepth - 1);
    assert O[..h + 1][..h] == O[..h];
    StreamPrefix(adj, O[..h + 1], O);
    assert Stream(adj, O[..h + 1]) == Stream(adj, O[..h]) + adj(O[h]);
  }

  /** While only the arcs of the radius-k ball are scanned, nothing beyond the next ball is found. */
  lemma {:induction false} FoundInsideNextBall<N(!new)>(adj: Adjacency<N>, s: N, maxDepth: nat, h: nat, k: nat, p: nat)
    requires k < maxDepth && h < |Order(adj, s, k)|
    requires p <= |Stream(adj, Order(adj, s, maxDepth - 1)[..Min(h + 1, |Order(adj, s, maxDepth - 1)|)])| <= |Scanned(adj, s, maxDepth)|
    ensures Discover([s], Scanned(adj, s, maxDepth)[..p]) <= Order(adj, s, k + 1)
  {
    hide Order, Discover, Stream, Scanned, Distinct;
    var O, full, ball := Order(adj, s, maxDepth - 1), Scanned(adj, s, maxDepth), Order(adj, s, k);
    OrderStep(adj, s, maxDepth);
    OrderPrefix(adj, s, k, maxDepth - 1);
    StreamPrefix(adj, O[..h + 1], ball);
    StreamPrefix(adj, ball, O);
    SingletonDistinct(s);
    DiscoverPrefix([s], full[..p], Stream(adj, ball));
    OrderStep(adj, s, k + 1);
    ScanGivesOrder(adj, s, k + 1);
  }

  /** Once all nodes nearer than k are expanded, the ball of radius k has been found. */
  lemma {:induction false} BallFound<N(!new)>(adj: Adjacency<N>, s: N, maxDepth: nat, h: nat, k: nat, p: nat)
    requires k < maxDepth && DepthOfIndex(adj, s, h, k)
    requires h <= |Order(adj, s, maxDepth - 1)|
    requires |Stream(adj, Order(adj, s, maxDepth - 1)[..h])| <= p <= |Scanned(adj, s, maxDepth)|
    ensures Order(adj, s, k) <= Discover([s], Scanned(adj, s, maxDepth)[..p])
  {
    if k == 0 {
      DiscoverKeeps([s], Scanned(adj, s, maxDepth)[..p]);
    } else {
      LargerBallFound(adj, s, maxDepth, h, k, p);
    }
  }

  lemma {:induction false} LargerBallFound<N(!new)>(adj: Adjacency<N>, s: N, maxDepth: nat, h: nat, k: nat, p: nat)
    requires 0 < k < maxDepth && |Order(adj, s, k - 1)| <= h <= |Order(adj, s, maxDepth - 1)|
    requires |Stream(adj, Order(adj, s, maxDepth - 1)[..h])| <= p <= |Scanned(adj, s, maxDepth)|
    ensures Order(adj, s, k) <= Discover([s], Scanned(adj, s, maxDepth)[..p])
  {
    hide Order, Discover, Stream, Scanned, Distinct;
    var O, full, inner := Order(adj, s, maxDepth - 1), Scanned(adj, s, maxDepth), Order(adj, s, k - 1);
    OrderStep(adj, s, maxDepth);
    OrderPrefix(adj, s, k - 1, maxDepth - 1);
    StreamPrefix(adj, inner, O[..h]);
    StreamPrefix(adj, O[..h], O);
    SingletonDistinct(s);
    DiscoverPrefix([s], Stream(adj, inner), full[..p]);
    OrderStep(adj, s, k);
    ScanGivesOrder(adj, s, k);
  }

  lemma DiscoverEmpty<N(!new)>(s: N)
    ensures Discover([s], []) == [s]
  {
  }

  lemma {:induction false} ScanOneMore<N(!new)>(s: N, arcs: seq<Arc<N>>, p: nat)
    requires p < |arcs|
    ensures var nodes, v := Discover([s], arcs[..p]), arcs[p].node;
            Discover([s], arcs[..p + 1]) == if v in nodes then nodes else nodes + [v]
    ensures var edges, e := EdgesUsed(arcs[..p]), arcs[p].edge;
            EdgesUsed(arcs[..p + 1]) == if e in edges then edges else edges + [e]
  {
    assert arcs[..p + 1][..p] == arcs[..p];
  }

  lemma QueueLength<N(!new)>(adj: Adjacency<N>, s: N, nodes: seq<N>, h: nat, queue: seq<(N, nat)>)
    requires QueueOk(adj, s, nodes, h, queue)
    ensures h + |queue| == |nodes|
  {
  }

  lemma {:induction false} QueuePop<N(!new)>(adj: Adjacency<N>, s: N, nodes: seq<N>, h: nat, queue: seq<(N, nat)>)
    requires QueueOk(adj, s, nodes, h, queue) && queue != []
    ensures h < |nodes| && queue[0].0 == nodes[h] && DepthOfIndex(adj, s, h, queue[0].1)
    ensures QueueOk(adj, s, nodes, h + 1, queue[1..])
  {
    hide Order, DepthOfIndex;
    forall j | 0 <= j < |queue| - 1
      ensures queue[1..][j].0 == nodes[h + 1 + j] && DepthOfIndex(adj, s, h + 1 + j, queue[1..][j].1)
    {
      assert queue[1..][j] == queue[j + 1];
    }
  }

  lemma {:induction false} QueuePush<N(!new)>(adj: Adjacency<N>, s: N, nodes: seq<N>, h: nat, queue: seq<(N, nat)>, v: N, k: nat)
    requires QueueOk(adj, s, nodes, h, queue)
    requires |Order(adj, s, k)| <= |nodes| < |Order(adj, s, k + 1)|
    ensures QueueOk(adj, s, nodes + [v], h, queue + [(v, k + 1)])
  {
    hide Order;
    var n: seq<N>, q: seq<(N, nat)> := nodes + [v], queue + [(v, k + 1)];
    forall j | 0 <= j < |q| ensures q[j].0 == n[h + j] && DepthOfIndex(adj, s, h + j, q[j].1) {
      if j < |queue| {
        assert q[j] == queue[j];
      }
    }
  }

  /** The loop variables after the first p arcs: what was found, in order and as sets, and that the limit came last. */
  ghost predicate ScanState<N(!new)>(
    s: N, arcs: seq<Arc<N>>, limit: nat, p: nat, nodes: seq<N>, visited: set<N>, edges: seq<nat>, edgeSet: set<nat>)
  {
    && p <= |arcs|
    && nodes == Discover([s], arcs[..p])
    && visited == (set v | v in nodes)
    && edges == EdgesUsed(arcs[..p])
    && edgeSet == (set e | e in edges)
    && (p > 0 ==> |Discover([s], arcs[..p - 1])| < limit)
  }

  /** One turn of the outer loop: try the arcs of a dequeued node until they run out or the limit is reached. */
  method Expand<N(==,!new)>(adj: Adjacency<N>, s: N, maxDepth: nat, limit: nat, depth: nat, ghost h: nat,
                            out: seq<Arc<N>>, nodes0: seq<N>, visited0: set<N>, edges0: seq<nat>, edgeSet0: set<nat>,
                            queue0: seq<(N, nat)>, ghost p0: nat)
    returns (nodes: seq<N>, visited: set<N>, edges: seq<nat>, edgeSet: set<nat>, queue: seq<(N, nat)>, ghost p: nat)
    requires ScanState(s, Scanned(adj, s, maxDepth), limit, p0, nodes0, visited0, edges0, edgeSet0)
    requires |nodes0| < limit && depth < maxDepth && h < |Order(adj, s, maxDepth - 1)|
    requires DepthOfIndex(adj, s, h, depth)
    requires QueueOk(adj, s, nodes0, h + 1, queue0)
    requires p0 == |Stream(adj, Order(adj, s, maxDepth - 1)[..h])|
    requires out == adj(Order(adj, s, maxDepth - 1)[h])
    ensures ScanState(s, Scanned(adj, s, maxDepth), limit, p, nodes, visited, edges, edgeSet)
    ensures |nodes| < limit ==> QueueOk(adj, s, nodes, h + 1, queue)
    ensures |nodes| < limit ==> p == |Stream(adj, Order(adj, s, maxDepth - 1)[..h + 1])|
  {
    hide Order, Discover, Stream, EdgesUsed, QueueOk, Scanned;
    ghost var full := Scanned(adj, s, maxDepth);
    ArcsInStream(adj, s, maxDepth, h);
    nodes, visited, edges, edgeSet, queue, p := nodes0, visited0, edges0, edgeSet0, queue0, p0;
    var j := 0;
    while j < |out|
      invariant 0 <= j <= |out| && p == p0 + j
      invariant ScanState(s, full, limit, p, nodes, visited, edges, edgeSet)
      invariant |nodes| < limit
      invariant QueueOk(adj, s, nodes, h + 1, queue)
    {
      var edge, next := out[j].edge, out[j].node;
      assert full[p] == full[p0..p0 + |out|][j] == out[j];
      ScanOneMore(s, full, p);
      if edge !in edgeSet {
        edgeSet := edgeSet + {edge};
        edges := edges + [edge];
      }
      j, p := j + 1, p + 1;
      if next in visited {
        continue;
      }
      FoundInsideNextBall(adj, s, maxDepth, h, depth, p);
      BallFound(adj, s, maxDepth, h, depth, p - 1);
      QueuePush(adj, s, nodes, h + 1, queue, next, depth);
      visited := visited + {next};
      nodes := nodes + [next];
      if |nodes| >= limit {
        break;
      }
      queue := queue + [(next, depth + 1)];
    }
  }

  /** The nodes an unbounded search expands. */
  ghost function Expanded<N(!new)>(adj: Adjacency<N>, s: N, maxDepth: nat): seq<N> {
    if maxDepth == 0 then [] else Order(adj, s, maxDepth - 1)
  }

  lemma SearchStart<N(!new)>(adj: Adjacency<N>, s: N, maxDepth: nat)
    ensures Discover([s], Scanned(adj, s, maxDepth)[..0]) == [s]
    ensures EdgesUsed(Scanned(adj, s, maxDepth)[..0]) == []
    ensures QueueOk(adj, s, [s], 0, [(s, 0)])
    ensures |Stream(adj, Expanded(adj, s, maxDepth)[..0])| == 0
    ensures Scanned(adj, s, maxDepth) == Stream(adj, Expanded(adj, s, maxDepth))
    ensures |Order(adj, s, maxDepth)| > 0
  {
    OrderPrefix(adj, s, 0, maxDepth);
  }

  /** The nodes and edge indexes found by looking at the first p arcs and stopping there. */
  ghost predicate Found<N(!new)>(s: N, arcs: seq<Arc<N>>, limit: nat, p: nat, nodes: seq<N>, edges: seq<nat>) {
    ShortestScan(s, arcs, limit, p) && nodes == Discover([s], arcs[..p]) && edges == EdgesUsed(arcs[..p])
  }

  /** The search. Where it stops is pinned down uniquely by the contract, and so are its results. */
  method Search<N(==,!new)>(adj: Adjacency<N>, s: N, maxDepth: nat, limit: nat) returns (nodes: seq<N>, edges: seq<nat>)
    requires limit >= 1
    ensures exists p: nat :: Found(s, Scanned(adj, s, maxDepth), limit, p, nodes, edges)
  {
    hide Order, Discover, Stream, EdgesUsed, QueueOk, Scanned, Distinct, DepthOfIndex;
    ghost var full := Scanned(adj, s, maxDepth);
    ghost var O := Expanded(adj, s, maxDepth);
    ghost var h, p: nat := 0, 0;
    nodes, edges := [s], [];
    var edgeSet: set<nat>, visited := {}, {s};
    var queue: seq<(N, nat)> := [(s, 0)];
    SearchStart(adj, s, maxDepth);
    ScanGivesOrder(adj, s, maxDepth);
    SingletonDistinct(s);
    while queue != [] && |nodes| < limit
      invariant h <= |Order(adj, s, maxDepth)|
      invariant ScanState(s, full, limit, p, nodes, visited, edges, edgeSet)
      invariant |nodes| < limit ==> QueueOk(adj, s, nodes, h, queue)
      invariant |nodes| < limit ==> p == |Stream(adj, O[..Min(h, |O|)])|
      decreases |Order(adj, s, maxDepth)| - h
    {
      DiscoverPrefix([s], full[..p], full);
      QueuePop(adj, s, nodes, h, queue);
      var nodeId, depth := queue[0].0, queue[0].1;
      queue := queue[1..];
      DepthBelowBound(adj, s, maxDepth, h, depth);
      if depth >= maxDepth {
        h := h + 1;
        continue;
      }
      OrderPrefix(adj, s, maxDepth - 1, maxDepth);
      nodes, visited, edges, edgeSet, queue, p :=
        Expand(adj, s, maxDepth, limit, depth, h, adj(nodeId), nodes, visited, edges, edgeSet, queue, p);
      h := h + 1;
    }
    if |nodes| < limit {
      QueueLength(adj, s, nodes, h, queue);
      if maxDepth > 0 && h <= |O| {
        // every node found so far has been expanded, so there is nothing left to find
        StuckScanIsComplete(adj, s, maxDepth, h, p);
      }
      assert O[..Min(h, |O|)] == O;
    }
    assert Found(s, full, limit, p, nodes, edges);
  }

  /** When all found nodes are expanded, the order has no further node. */
  lemma {:induction false} StuckScanIsComplete<N(!new)>(adj: Adjacency<N>, s: N, maxDepth: nat, h: nat, p: nat)
    requires maxDepth > 0 && h <= |Order(adj, s, maxDepth - 1)|
    requires p == |Stream(adj, Order(adj, s, maxDepth - 1)[..h])| <= |Scanned(adj, s, maxDepth)|
    requires |Discover([s], Scanned(adj, s, maxDepth)[..p])| == h > 0
    ensures h == |Order(adj, s, maxDepth - 1)|
  {
    hide Order, Discover, Stream, Scanned;
    if h < |Order(adj, s, maxDepth - 1)| {
      var k := DepthOf(adj, s, maxDepth - 1, h);
      BallFound(adj, s, maxDepth, h, k, p);
    }
  }

  lemma {:induction false} DepthOf<N(!new)>(adj: Adjacency<N>, s: N, m: nat, h: nat) returns (k: nat)
    requires h < |Order(adj, s, m)|
    ensures k <= m && DepthOfIndex(adj, s, h, k)
    decreases m
  {
    if m > 0 && h < |Order(adj, s, m - 1)| {
      k := DepthOf(adj, s, m - 1, h);
    } else {
      k := m;
    }
  }

  // ---------------------------------------------------------------- what the search returns

  /** The limit only truncates: a scan cut short lists the first `limit` nodes of the unbounded search. */
  lemma {:induction false} LimitTruncates<N(!new)>(s: N, arcs: seq<Arc<N>>, limit: nat, p: nat)
    requires limit >= 1 && ShortestScan(s, arcs, limit, p)
    ensures Discover([s], arcs[..p]) == Take(Discover([s], arcs), limit)
    ensures |Discover([s], arcs[..p])| < limit ==> p == |arcs|
  {
    hide Discover, Distinct;
    SingletonDistinct(s);
    DiscoverPrefix([s], arcs[..p], arcs);
    assert p == 0 ==> arcs[..p] == [];
    DiscoverEmpty(s);
    if p > 0 {
      ScanOneMore(s, arcs, p - 1);
    }
    if p == |arcs| {
      assert arcs[..p] == arcs;
    }
  }

  lemma {:induction false} EdgesUsedMembers<N(!new)>(arcs: seq<Arc<N>>, e: nat)
    ensures e in EdgesUsed(arcs) <==> exists a :: a in arcs && a.edge == e
    ensures Distinct(EdgesUsed(arcs))
    decreases |arcs|
  {
    if arcs != [] {
      var n := |arcs| - 1;
      EdgesUsedMembers(arcs[..n], e);
      assert forall a :: a in arcs <==> a in arcs[..n] || a == arcs[n];
    }
  }

  /** A search that ends below the limit has used exactly the edges that leave a node nearer than maxDepth. */
  lemma {:induction false} UntruncatedEdges<N(!new)>(adj: Adjacency<N>, s: N, maxDepth: nat, e: nat)
    ensures e in EdgesUsed(Scanned(adj, s, maxDepth)) <==>
            maxDepth > 0 && exists u, v :: Within(adj, s, u, maxDepth - 1) && Arc(e, v) in adj(u)
  {
    hide Order, Stream, EdgesUsed, Within;
    var arcs := Scanned(adj, s, maxDepth);
    EdgesUsedMembers(arcs, e);
    if maxDepth > 0 {
      OrderStep(adj, s, maxDepth);
      var near := Order(adj, s, maxDepth - 1);
      if a :| a in arcs && a.edge == e {
        StreamMembers(adj, near, a);
        var u :| u in near && a in adj(u);
        OrderIsBall(adj, s, maxDepth - 1, u);
        assert Arc(e, a.node) in adj(u);
      }
      if u, v :| Within(adj, s, u, maxDepth - 1) && Arc(e, v) in adj(u) {
        OrderIsBall(adj, s, maxDepth - 1, u);
        StreamMembers(adj, near, Arc(e, v));
        assert Arc(e, v).edge == e;
      }
    } else {
      assert arcs == [];
    }
  }

  /** A node that was left out is at least as far away as every node that was returned. */
  lemma {:induction false} NearestReturned<N(!new)>(adj: Adjacency<N>, s: N, maxDepth: nat, limit: nat, u: N, v: N, a: nat, b: nat)
    requires u in Take(Order(adj, s, maxDepth), limit) && AtDistance(adj, s, u, a)
    requires v !in Take(Order(adj, s, maxDepth), limit) && AtDistance(adj, s, v, b) && b <= maxDepth
    ensures a <= b
  {
    hide Order, Within;
    var all := Order(adj, s, maxDepth);
    WithinMonotone(adj, s, v, b, maxDepth);
    OrderIsBall(adj, s, maxDepth, v);
    var i :| 0 <= i < |Take(all, limit)| && Take(all, limit)[i] == u;
    var j :| 0 <= j < |all| && all[j] == v;
    OrderByDistance(adj, s, maxDepth, i, j, a, b);
  }
}
