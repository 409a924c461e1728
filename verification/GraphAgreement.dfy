/**
 How the two searches relate: the neighbourhood search reaches a node exactly when the path enumeration
 finds a path to it, both measure the same distance, and backlinks are forward search on the reversed graph.
 */
module GraphAgreement {
  import opened Sequences
  import opened GraphView
  import opened GraphNeighbors
  import opened GraphPaths

  // ---------------------------------------------------------------- walks and distance

  lemma {:induction false} WalkWithin<N(!new)>(adj: Adjacency<N>, s: N, q: Path<N>, j: nat)
    requires IsWalk(adj, s, q) && j < |q.nodes|
    ensures Within(adj, s, q.nodes[j], j)
    decreases j
  {
    if j > 0 {
      WalkWithin(adj, s, q, j - 1);
      assert Arc(q.edges[j - 1], q.nodes[j]) in adj(q.nodes[j - 1]);
      assert Step(adj, q.nodes[j - 1], q.nodes[j]);
    }
  }

  /** A node at distance m is the end of a walk of m edges whose j-th node is at distance j. */
  lemma {:induction false} ShortestWalk<N(!new)>(adj: Adjacency<N>, s: N, v: N, m: nat) returns (q: Path<N>)
    requires AtDistance(adj, s, v, m)
    ensures IsWalk(adj, s, q) && |q.edges| == m && EndsAt(q, v)
    ensures forall j :: 0 <= j < |q.nodes| ==> AtDistance(adj, s, q.nodes[j], j)
    decreases m
  {
    if m == 0 {
      q := Path([s], []);
    } else {
      var b := m - 1;
      var u :| Within(adj, s, u, b) && Step(adj, u, v);
      assert b > 0 && Within(adj, s, u, b - 1) ==> Within(adj, s, v, b);
      var p := ShortestWalk(adj, s, u, m - 1);
      var a :| a in adj(u) && a.node == v;
      q := Extend(p, a);
      forall k | 0 <= k < |q.edges| ensures Arc(q.edges[k], q.nodes[k + 1]) in adj(q.nodes[k]) {
        if k < |p.edges| {
          assert Arc(p.edges[k], p.nodes[k + 1]) in adj(p.nodes[k]);
        }
      }
    }
  }

  lemma {:induction false} DistanceUnique<N(!new)>(adj: Adjacency<N>, s: N, v: N, a: nat, b: nat)
    requires AtDistance(adj, s, v, a) && AtDistance(adj, s, v, b)
    ensures a == b
  {
    hide Within;
    if a < b {
      WithinMonotone(adj, s, v, a, b - 1);
    } else if b < a {
      WithinMonotone(adj, s, v, b, a - 1);
    }
  }

  lemma {:induction false} DistanceExists<N(!new)>(adj: Adjacency<N>, s: N, v: N, k: nat) returns (m: nat)
    requires Within(adj, s, v, k)
    ensures m <= k && AtDistance(adj, s, v, m)
    decreases k
  {
    if k > 0 && Within(adj, s, v, k - 1) {
      m := DistanceExists(adj, s, v, k - 1);
    } else {
      m := k;
    }
  }

  lemma ShortestWalkIsSimple<N(!new)>(adj: Adjacency<N>, s: N, q: Path<N>)
    requires forall j :: 0 <= j < |q.nodes| ==> AtDistance(adj, s, q.nodes[j], j)
    ensures Distinct(q.nodes)
  {
    hide AtDistance;
    forall i, j | 0 <= i < j < |q.nodes| ensures q.nodes[i] != q.nodes[j] {
      if q.nodes[i] == q.nodes[j] {
        DistanceUnique(adj, s, q.nodes[i], i, j);
      }
    }
  }

  /** The neighbourhood search reaches t exactly when the path enumeration of the same depth finds a path to t. */
  lemma {:induction false} SearchesAgree<N(!new)>(adj: Adjacency<N>, s: N, t: N, k: nat)
    requires s != t
    ensures t in Order(adj, s, k) <==> AllPaths(adj, s, t, k) != []
  {
    hide Order, AllPaths, Within, Distinct;
    OrderIsBall(adj, s, k, t);
    if AllPaths(adj, s, t, k) != [] {
      var q := AllPaths(adj, s, t, k)[0];
      AllPathsMembers(adj, s, t, k, q);
      WalkWithin(adj, s, q, |q.edges|);
      WithinMonotone(adj, s, t, |q.edges|, k);
    }
    if Within(adj, s, t, k) {
      var m := DistanceExists(adj, s, t, k);
      var q := ShortestWalk(adj, s, t, m);
      ShortestWalkIsSimple(adj, s, q);
      AllPathsMembers(adj, s, t, k, q);
    }
  }

  /** The first path listed is as long as the search distance. */
  lemma {:induction false} FirstPathIsShortest<N(!new)>(adj: Adjacency<N>, s: N, t: N, k: nat)
    requires SimpleArcs(adj) && s != t && AllPaths(adj, s, t, k) != []
    ensures AtDistance(adj, s, t, |AllPaths(adj, s, t, k)[0].edges|)
  {
    hide AllPaths, Within, Distinct, SimpleArcs;
    var q := AllPaths(adj, s, t, k)[0];
    AllPathsMembers(adj, s, t, k, q);
    WalkWithin(adj, s, q, |q.edges|);
    var m := DistanceExists(adj, s, t, |q.edges|);
    var w := ShortestWalk(adj, s, t, m);
    ShortestWalkIsSimple(adj, s, w);
    AllPathsMembers(adj, s, t, k, w);
    var j :| 0 <= j < |AllPaths(adj, s, t, k)| && AllPaths(adj, s, t, k)[j] == w;
    PathsByLength(adj, s, t, k, 0, j);
  }

  /** A path beyond the limit is at least as long as every listed one. */
  lemma {:induction false} UnlistedNotShorter<N(!new)>(adj: Adjacency<N>, s: N, t: N, k: nat, limit: nat, p: Path<N>, q: Path<N>)
    requires SimpleArcs(adj) && s != t
    requires p in Take(AllPaths(adj, s, t, k), limit)
    requires IsSimplePath(adj, s, t, q) && |q.edges| <= k && q !in Take(AllPaths(adj, s, t, k), limit)
    ensures |p.edges| <= |q.edges|
  {
    hide AllPaths, SimpleArcs, IsSimplePath;
    var all := AllPaths(adj, s, t, k);
    AllPathsMembers(adj, s, t, k, q);
    var i :| 0 <= i < |Take(all, limit)| && Take(all, limit)[i] == p;
    var j :| 0 <= j < |all| && all[j] == q;
    PathsByLength(adj, s, t, k, i, j);
  }

  // ---------------------------------------------------------------- congruence, reversal, symmetry

  lemma {:induction false} SameStream<N(!new)>(adj: Adjacency<N>, adj': Adjacency<N>, nodes: seq<N>)
    requires forall u :: adj(u) == adj'(u)
    ensures Stream(adj, nodes) == Stream(adj', nodes)
    decreases |nodes|
  {
    if nodes != [] {
      SameStream(adj, adj', nodes[..|nodes| - 1]);
    }
  }

  lemma {:induction false} SameOrder<N(!new)>(adj: Adjacency<N>, adj': Adjacency<N>, s: N, k: nat)
    requires forall u :: adj(u) == adj'(u)
    ensures Order(adj, s, k) == Order(adj', s, k) && Scanned(adj, s, k) == Scanned(adj', s, k)
    decreases k
  {
    hide Stream, Discover;
    if k > 0 {
      SameOrder(adj, adj', s, k - 1);
      SameStream(adj, adj', Order(adj, s, k - 1));
    }
  }

  /** The contract of the search loop leaves no choice of where to stop. */
  lemma {:induction false} ScanLengthUnique<N(!new)>(s: N, arcs: seq<Arc<N>>, limit: nat, p: nat, q: nat)
    requires ShortestScan(s, arcs, limit, p) && ShortestScan(s, arcs, limit, q)
    ensures p == q
  {
    hide Discover, Distinct;
    SingletonDistinct(s);
    if p < q {
      DiscoverPrefix([s], arcs[..p], arcs[..q - 1]);
    } else if q < p {
      DiscoverPrefix([s], arcs[..q], arcs[..p - 1]);
    }
  }

  /** Backlinks on a graph and forward neighbours on the reversed graph return the same nodes and edge indexes. */
  lemma BacklinksAreReversedNeighbors(g: View, s: string, maxDepth: nat, limit: nat, p: nat, q: nat)
    requires ShortestScan(s, Scanned(g.Arcs(In), s, maxDepth), limit, p)
    requires ShortestScan(s, Scanned(g.Reversed().Arcs(Out), s, maxDepth), limit, q)
    ensures Discover([s], Scanned(g.Arcs(In), s, maxDepth)[..p])
            == Discover([s], Scanned(g.Reversed().Arcs(Out), s, maxDepth)[..q])
    ensures EdgesUsed(Scanned(g.Arcs(In), s, maxDepth)[..p])
            == EdgesUsed(Scanned(g.Reversed().Arcs(Out), s, maxDepth)[..q])
  {
    hide View.Adjacent, View.Reversed, Scanned, Discover, EdgesUsed, ShortestScan;
    var back := g.Arcs(In);
    var forth := g.Reversed().Arcs(Out);
    forall u ensures back(u) == forth(u) {
      ReversedAdjacent(g, u);
    }
    SameOrder(back, forth, s, maxDepth);
    ScanLengthUnique(s, Scanned(back, s, maxDepth), limit, p, q);
  }

  lemma {:induction false} PrependStep<N(!new)>(adj: Adjacency<N>, a: N, b: N, c: N, k: nat)
    requires Step(adj, a, b) && Within(adj, b, c, k)
    ensures Within(adj, a, c, k + 1)
    decreases k
  {
    hide Step;
    if k == 0 {
      assert Within(adj, a, a, 0);
    } else if Within(adj, b, c, k - 1) {
      PrependStep(adj, a, b, c, k - 1);
    } else {
      var u :| Within(adj, b, u, k - 1) && Step(adj, u, c);
      PrependStep(adj, a, b, u, k - 1);
    }
  }

  lemma {:induction false} WithinSymmetric<N(!new)>(adj: Adjacency<N>, u: N, v: N, k: nat)
    requires forall a, b :: Step(adj, a, b) ==> Step(adj, b, a)
    requires Within(adj, u, v, k)
    ensures Within(adj, v, u, k)
    decreases k
  {
    hide Step;
    if k > 0 {
      if Within(adj, u, v, k - 1) {
        WithinSymmetric(adj, u, v, k - 1);
        WithinMonotone(adj, v, u, k - 1, k);
      } else {
        var w :| Within(adj, u, w, k - 1) && Step(adj, w, v);
        WithinSymmetric(adj, u, w, k - 1);
        PrependStep(adj, v, w, u, k - 1);
      }
    }
  }

  lemma StepIsLeads(g: View, d: Direction, u: string, v: string)
    ensures Step(g.Arcs(d), u, v) <==> exists i: nat :: g.Leads(d, i, u, v)
  {
    hide View.Adjacent, View.Leads;
    var adj := g.Arcs(d);
    if Step(adj, u, v) {
      var a :| a in adj(u) && a.node == v;
      AdjacentCovers(g, d, u, a);
    }
    if i: nat :| g.Leads(d, i, u, v) {
      AdjacentCovers(g, d, u, Arc(i, v));
      assert Arc(i, v) in adj(u) && Arc(i, v).node == v;
    }
  }

  /** In direction Both, u is in v's ball exactly when v is in u's. */
  lemma BothIsSymmetric(g: View, u: string, v: string, k: nat)
    ensures v in Order(g.Arcs(Both), u, k) <==> u in Order(g.Arcs(Both), v, k)
  {
    hide View.Adjacent, Order, Step, Within;
    var adj := g.Arcs(Both);
    forall a, b | Step(adj, a, b) ensures Step(adj, b, a) {
      StepIsLeads(g, Both, a, b);
      StepIsLeads(g, Both, b, a);
      var i: nat :| g.Leads(Both, i, a, b);
      assert g.Leads(Both, i, b, a);
    }
    OrderIsBall(adj, u, k, v);
    OrderIsBall(adj, v, k, u);
    if Within(adj, u, v, k) {
      WithinSymmetric(adj, u, v, k);
    }
    if Within(adj, v, u, k) {
      WithinSymmetric(adj, v, u, k);
    }
  }
}
