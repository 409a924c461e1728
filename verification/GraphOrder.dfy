/**
 The order of what the searches list, on any graph: nodes of the neighbourhood by the place of the arc that reaches
 them, paths by length and then by their edge indexes. The nodes and edges of the paths come in order of first appearance.
 */
module GraphOrder {
  import opened Sequences
  import opened GraphView
  import opened GraphNeighbors
  import opened GraphPaths

  // ---------------------------------------------------------------- places in the arc stream

  /** Of two places, given by a node's position and an arc's position, the first comes earlier. */
  predicate Sooner(h: nat, a: nat, i: nat, b: nat) {
    h < i || (h == i && a < b)
  }

  ghost function IndexOf<N(!new)>(adj: Adjacency<N>, nodes: seq<N>, h: nat, a: nat): nat
    requires h < |nodes|
  {
    |Stream(adj, nodes[..h])| + a
  }

  /** Every arc of the stream is an arc out of one of the nodes. */
  lemma {:induction false} PlaceOfArc<N(!new)>(adj: Adjacency<N>, nodes: seq<N>, q: nat) returns (h: nat, a: nat)
    requires q < |Stream(adj, nodes)|
    ensures h < |nodes| && a < |adj(nodes[h])| && Stream(adj, nodes)[q] == adj(nodes[h])[a] && q == IndexOf(adj, nodes, h, a)
    decreases |nodes|
  {
    var n := |nodes| - 1;
    var before := Stream(adj, nodes[..n]);
    if q < |before| {
      h, a := PlaceOfArc(adj, nodes[..n], q);
      assert nodes[..n][..h] == nodes[..h];
    } else {
      h, a := n, q - |before|;
    }
  }

  lemma ArcAtPlace<N(!new)>(adj: Adjacency<N>, nodes: seq<N>, h: nat, a: nat)
    requires h < |nodes| && a < |adj(nodes[h])|
    ensures IndexOf(adj, nodes, h, a) < |Stream(adj, nodes[..h + 1])| <= |Stream(adj, nodes)|
    ensures Stream(adj, nodes)[IndexOf(adj, nodes, h, a)] == adj(nodes[h])[a]
  {
    hide Stream;
    StreamOneMore(adj, nodes, h);
    StreamPrefix(adj, nodes[..h + 1], nodes);
  }

  lemma StreamOneMore<N(!new)>(adj: Adjacency<N>, nodes: seq<N>, h: nat)
    requires h < |nodes|
    ensures Stream(adj, nodes[..h + 1]) == Stream(adj, nodes[..h]) + adj(nodes[h])
  {
    assert nodes[..h + 1][..h] == nodes[..h];
  }

  /** Earlier places have smaller indexes. */
  lemma PlacesInOrder<N(!new)>(adj: Adjacency<N>, nodes: seq<N>, h: nat, a: nat, i: nat, b: nat)
    requires h < |nodes| && a < |adj(nodes[h])| && i < |nodes| && b < |adj(nodes[i])|
    ensures Sooner(h, a, i, b) <==> IndexOf(adj, nodes, h, a) < IndexOf(adj, nodes, i, b)
  {
    hide Stream;
    ArcAtPlace(adj, nodes, h, a);
    ArcAtPlace(adj, nodes, i, b);
    if h < i {
      StreamPrefix(adj, nodes[..h + 1], nodes[..i]);
    } else if i < h {
      StreamPrefix(adj, nodes[..i + 1], nodes[..h]);
    }
  }

  // ---------------------------------------------------------------- nodes and edges of the neighbourhood

  /** An arc reaches x before any arc reaches y. */
  ghost predicate ReachedBefore<N>(arcs: seq<Arc<N>>, x: N, y: N) {
    exists q :: 0 <= q < |arcs| && arcs[q].node == x && forall m :: 0 <= m <= q ==> arcs[m].node != y
  }

  /** Nodes are discovered in the order in which arcs first reach them. */
  lemma {:induction false} DiscoverInOrder<N(!new)>(s: N, arcs: seq<Arc<N>>, i: nat, j: nat)
    requires 0 < i < j < |Discover([s], arcs)|
    ensures ReachedBefore(arcs, Discover([s], arcs)[i], Discover([s], arcs)[j])
    decreases |arcs|
  {
    hide Distinct;
    var n, all := |arcs| - 1, Discover([s], arcs);
    var before := Discover([s], arcs[..n]);
    SingletonDistinct(s);
    DiscoverKeeps([s], arcs[..n]);
    if j < |before| {
      DiscoverInOrder(s, arcs[..n], i, j);
      var q :| 0 <= q < n && arcs[..n][q].node == all[i] && forall m :: 0 <= m <= q ==> arcs[..n][m].node != all[j];
      assert arcs[q].node == all[i];
      forall m | 0 <= m <= q ensures arcs[m].node != all[j] {
        assert arcs[m] == arcs[..n][m];
      }
    } else {
      assert all[i] == before[i] && all[j] == arcs[n].node && all[j] !in before;
      FirstListed(s, arcs[..n], i);
      DiscoverMembers([s], arcs[..n], all[i]);
      var a :| a in arcs[..n] && a.node == all[i];
      var q :| 0 <= q < n && arcs[..n][q] == a;
      assert arcs[q].node == all[i];
      forall m | 0 <= m <= q ensures arcs[m].node != all[j] {
        assert arcs[m] in arcs[..n];
        DiscoverMembers([s], arcs[..n], arcs[m].node);
      }
    }
  }

  /** The start is listed first, and only there. */
  lemma FirstListed<N(!new)>(s: N, arcs: seq<Arc<N>>, i: nat)
    requires i < |Discover([s], arcs)|
    ensures i == 0 <==> Discover([s], arcs)[i] == s
  {
    hide Discover;
    DiscoverKeeps([s], arcs);
    assert Discover([s], arcs)[0] == [s][0];
  }

  /** An arc uses edge e before any arc uses edge f. */
  ghost predicate UsedBefore<N>(arcs: seq<Arc<N>>, e: nat, f: nat) {
    exists q :: 0 <= q < |arcs| && arcs[q].edge == e && forall m :: 0 <= m <= q ==> arcs[m].edge != f
  }

  lemma {:induction false} EdgesUsedInOrder<N(!new)>(arcs: seq<Arc<N>>, i: nat, j: nat)
    requires i < j < |EdgesUsed(arcs)|
    ensures UsedBefore(arcs, EdgesUsed(arcs)[i], EdgesUsed(arcs)[j])
    decreases |arcs|
  {
    var n, all := |arcs| - 1, EdgesUsed(arcs);
    var before := EdgesUsed(arcs[..n]);
    if j < |before| {
      EdgesUsedInOrder(arcs[..n], i, j);
      var q :| 0 <= q < n && arcs[..n][q].edge == all[i] && forall m :: 0 <= m <= q ==> arcs[..n][m].edge != all[j];
      assert arcs[q].edge == all[i];
      forall m | 0 <= m <= q ensures arcs[m].edge != all[j] {
        assert arcs[m] == arcs[..n][m];
      }
    } else {
      assert all[i] == before[i] && all[i] in before;
      EdgesUsedMembers(arcs[..n], all[i]);
      var a :| a in arcs[..n] && a.edge == all[i];
      var q :| 0 <= q < n && arcs[..n][q] == a;
      assert arcs[q].edge == all[i];
      forall m | 0 <= m <= q ensures arcs[m].edge != all[j] {
        assert arcs[m] in arcs[..n];
        EdgesUsedMembers(arcs[..n], arcs[m].edge);
      }
    }
  }

  /** Every node but the start is reached from a node listed before it. */
  lemma {:induction false} ParentListedBefore<N(!new)>(adj: Adjacency<N>, s: N, k: nat, i: nat) returns (h: nat)
    requires 0 < i < |Order(adj, s, k)|
    ensures h < i && Step(adj, Order(adj, s, k)[h], Order(adj, s, k)[i])
    ensures k > 0 && h < |Order(adj, s, k - 1)|
    decreases k
  {
    hide Order, Step, Distinct;
    ZeroOrder(adj, s);
    if k > 0 {
      var all, near := Order(adj, s, k), Order(adj, s, k - 1);
      OrderGrows(adj, s, k);
      if i < |near| {
        h := ParentListedBefore(adj, s, k - 1, i);
      } else {
        OneHopFurther(adj, s, k, all[i]);
        OrderOnce(adj, s, k, i);
        var u :| u in near && Step(adj, u, all[i]);
        h :| 0 <= h < |near| && near[h] == u;
      }
    }
  }

  lemma ZeroOrder<N(!new)>(adj: Adjacency<N>, s: N)
    ensures |Order(adj, s, 0)| == 1
  {
  }

  lemma OrderOnce<N(!new)>(adj: Adjacency<N>, s: N, k: nat, i: nat)
    requires k > 0 && |Order(adj, s, k - 1)| <= i < |Order(adj, s, k)|
    ensures Order(adj, s, k)[i] !in Order(adj, s, k - 1)
  {
    hide Order;
    OrderGrows(adj, s, k);
  }

  // ---------------------------------------------------------------- the order of paths

  /** At the first place where the edge indexes differ, those of p are smaller. */
  ghost predicate Lexicographic(p: seq<nat>, q: seq<nat>) {
    exists m :: 0 <= m < |p| && m < |q| && p[..m] == q[..m] && p[m] < q[m]
  }

  /** Shorter paths first, and paths of equal length in the order of their edge indexes. */
  ghost predicate PathBefore<N>(p: Path<N>, q: Path<N>) {
    |p.edges| < |q.edges| || (|p.edges| == |q.edges| && Lexicographic(p.edges, q.edges))
  }

  ghost predicate PathsInOrder<N(!new)>(ps: seq<Path<N>>) {
    forall i, j :: 0 <= i < j < |ps| ==> PathBefore(ps[i], ps[j])
  }

  ghost predicate ArcsInOrder<N(!new)>(adj: Adjacency<N>) {
    forall u :: InEdgeOrder(adj(u))
  }

  lemma {:induction false} ExtensionsInOrder<N(!new)>(p: Path<N>, arcs: seq<Arc<N>>)
    requires p.nodes != [] && RepeatsOnlyLoops(arcs, p.nodes[|p.nodes| - 1]) && InEdgeOrder(arcs)
    ensures PathsInOrder(Extensions(p, arcs))
    decreases |arcs|
  {
    if arcs != [] {
      var n := |arcs| - 1;
      var before, last := Extensions(p, arcs[..n]), Extend(p, arcs[n]);
      ExtensionsInOrder(p, arcs[..n]);
      if arcs[n].node !in p.nodes {
        forall i | 0 <= i < |before| ensures PathBefore(before[i], last) {
          assert before[i] in before;
          ExtensionsMembers(p, arcs[..n], before[i]);
          var a :| a in arcs[..n] && a.node !in p.nodes && before[i] == Extend(p, a);
          var k :| 0 <= k < n && arcs[..n][k] == a;
          assert arcs[k].edge < arcs[n].edge;
          LaterEdge(p, a, arcs[n]);
        }
      }
    }
  }

  lemma LaterEdge<N>(p: Path<N>, a: Arc<N>, b: Arc<N>)
    requires a.edge < b.edge
    ensures PathBefore(Extend(p, a), Extend(p, b))
  {
    var m := |p.edges|;
    assert Extend(p, a).edges[..m] == Extend(p, b).edges[..m] && Extend(p, a).edges[m] < Extend(p, b).edges[m];
  }

  /** Extending keeps two paths in order. */
  lemma ExtendedInOrder<N(!new)>(p: Path<N>, q: Path<N>, a: Arc<N>, b: Arc<N>)
    requires PathBefore(p, q)
    ensures PathBefore(Extend(p, a), Extend(q, b))
  {
    if |p.edges| == |q.edges| {
      var m :| 0 <= m < |p.edges| && m < |q.edges| && p.edges[..m] == q.edges[..m] && p.edges[m] < q.edges[m];
      var e, f := Extend(p, a).edges, Extend(q, b).edges;
      assert e[..m] == p.edges[..m] && f[..m] == q.edges[..m] && e[m] < f[m];
    }
  }

  lemma {:induction false} ExtendAllInOrder<N(!new)>(adj: Adjacency<N>, ps: seq<Path<N>>)
    requires SimpleArcs(adj) && ArcsInOrder(adj) && PathsInOrder(ps)
    ensures PathsInOrder(ExtendAll(adj, ps))
    decreases |ps|
  {
    hide PathBefore, Extensions, Extends;
    if ps != [] {
      var n := |ps| - 1;
      var before, own := ExtendAll(adj, ps[..n]), Extensions(ps[n], ArcsAtEnd(adj, ps[n]));
      assert PathsInOrder(ps[..n]) by {
        assert forall i :: 0 <= i < n ==> ps[..n][i] == ps[i];
      }
      ExtendAllInOrder(adj, ps[..n]);
      EndExtensionsInOrder(adj, ps[n]);
      forall i, j | 0 <= i < |before| && 0 <= j < |own| ensures PathBefore(before[i], own[j]) {
        assert before[i] in before && own[j] in own;
        ExtendAllMembers(adj, ps[..n], before[i]);
        ExtendsMembers(adj, ps[n], own[j]);
        var p :| p in ps[..n] && Extends(adj, p, before[i]);
        var k :| 0 <= k < n && ps[..n][k] == p;
        assert PathBefore(ps[k], ps[n]);
        ExtensionsOfOrdered(adj, p, ps[n], before[i], own[j]);
      }
    }
  }

  lemma EndExtensionsInOrder<N(!new)>(adj: Adjacency<N>, p: Path<N>)
    requires SimpleArcs(adj) && ArcsInOrder(adj)
    ensures PathsInOrder(Extensions(p, ArcsAtEnd(adj, p)))
  {
    if p.nodes != [] {
      ExtensionsInOrder(p, ArcsAtEnd(adj, p));
    }
  }

  lemma ExtensionsOfOrdered<N(!new)>(adj: Adjacency<N>, p: Path<N>, q: Path<N>, p': Path<N>, q': Path<N>)
    requires PathBefore(p, q) && Extends(adj, p, p') && Extends(adj, q, q')
    ensures PathBefore(p', q')
  {
    hide PathBefore;
    var a :| a in ArcsAtEnd(adj, p) && a.node !in p.nodes && p' == Extend(p, a);
    var b :| b in ArcsAtEnd(adj, q) && b.node !in q.nodes && q' == Extend(q, b);
    ExtendedInOrder(p, q, a, b);
  }

  lemma {:induction false} EndingInOrder<N(!new)>(ps: seq<Path<N>>, t: N, hit: bool)
    requires PathsInOrder(ps)
    ensures PathsInOrder(Ending(ps, t, hit))
    decreases |ps|
  {
    hide PathBefore, EndsAt;
    if ps != [] {
      var n := |ps| - 1;
      var before := Ending(ps[..n], t, hit);
      EndingInOrder(ps[..n], t, hit);
      forall i | 0 <= i < |before| ensures PathBefore(before[i], ps[n]) {
        assert before[i] in before;
        EndingMembers(ps[..n], t, hit, before[i]);
        var k :| 0 <= k < n && ps[..n][k] == before[i];
        assert PathBefore(ps[k], ps[n]);
      }
    }
  }

  lemma {:induction false} TreeInOrder<N(!new)>(adj: Adjacency<N>, s: N, t: N, k: nat)
    requires SimpleArcs(adj) && ArcsInOrder(adj)
    ensures PathsInOrder(Tree(adj, s, t, k)) && PathsInOrder(Tried(adj, s, t, k))
    decreases k
  {
    hide Tree, Tried, ExtendAll, SimpleArcs, ArcsInOrder, Lexicographic, Extends;
    if k == 0 {
      TreeRoot(adj, s, t);
    } else {
      var tried := Tried(adj, s, t, k);
      var rest := Ending(tried, t, false);
      TreeInOrder(adj, s, t, k - 1);
      TreeStep(adj, s, t, k);
      ExtendAllInOrder(adj, Tree(adj, s, t, k - 1));
      EndingInOrder(tried, t, false);
      forall i | 0 <= i < |rest| ensures |rest[i].edges| > 0 {
        assert rest[i] in rest;
        EndingMembers(tried, t, false, rest[i]);
        ExtendAllMembers(adj, Tree(adj, s, t, k - 1), rest[i]);
        var p :| p in Tree(adj, s, t, k - 1) && Extends(adj, p, rest[i]);
        ExtensionHasEdge(adj, p, rest[i]);
      }
    }
  }

  lemma ExtensionHasEdge<N(!new)>(adj: Adjacency<N>, p: Path<N>, q: Path<N>)
    requires Extends(adj, p, q)
    ensures |q.edges| > 0
  {
  }

  /** The unbounded list of paths: shortest first, and among equally long ones by their edge indexes. */
  lemma AllPathsInOrder<N(!new)>(adj: Adjacency<N>, s: N, t: N, k: nat)
    requires SimpleArcs(adj) && ArcsInOrder(adj)
    ensures PathsInOrder(AllPaths(adj, s, t, k))
  {
    hide Tree, Tried, Ending, SimpleArcs, ArcsInOrder;
    TreeInOrder(adj, s, t, k);
    EndingInOrder(Tried(adj, s, t, k), t, true);
  }

  // ---------------------------------------------------------------- the nodes and edges of the paths

  /** Walking the paths in order, one meets edge e before edge f. */
  ghost predicate EdgeMetBefore<N>(paths: seq<Path<N>>, e: nat, f: nat) {
    exists i, k :: 0 <= i < |paths| && 0 <= k < |paths[i].edges| && paths[i].edges[k] == e
                   && f !in paths[i].edges[..k] && e != f && forall h :: 0 <= h < i ==> f !in paths[h].edges
  }

  ghost predicate NodeMetBefore<N>(paths: seq<Path<N>>, u: N, v: N) {
    exists i, k :: 0 <= i < |paths| && 0 <= k < |paths[i].nodes| && paths[i].nodes[k] == u
                   && v !in paths[i].nodes[..k] && u != v && forall h :: 0 <= h < i ==> v !in paths[h].nodes
  }

  lemma EdgesMetEarlier<N(!new)>(paths: seq<Path<N>>, n: nat, x: nat, y: nat)
    requires n < |paths|
    ensures EdgeMetBefore(paths[..n], x, y) ==> EdgeMetBefore(paths, x, y)
    ensures (exists p :: p in paths[..n] && x in p.edges) && (forall p :: p in paths[..n] ==> y !in p.edges) ==> EdgeMetBefore(paths, x, y)
    ensures (forall p :: p in paths[..n] ==> y !in p.edges) && MetBefore(paths[n].edges, x, y) ==> EdgeMetBefore(paths, x, y)
  {
    if i, k :| 0 <= i < n && 0 <= k < |paths[..n][i].edges| && paths[..n][i].edges[k] == x
               && y !in paths[..n][i].edges[..k] && x != y && forall h :: 0 <= h < i ==> y !in paths[..n][h].edges {
      assert paths[i].edges[k] == x && forall h :: 0 <= h < i ==> paths[..n][h] == paths[h];
    }
    if forall p :: p in paths[..n] ==> y !in p.edges {
      assert forall h :: 0 <= h < n ==> paths[h] in paths[..n];
      if p :| p in paths[..n] && x in p.edges {
        var i :| 0 <= i < n && paths[..n][i] == p;
        var k :| 0 <= k < |p.edges| && p.edges[k] == x;
        assert paths[i].edges[k] == x;
      }
      if k :| 0 <= k < |paths[n].edges| && paths[n].edges[k] == x && y !in paths[n].edges[..k] && x != y {
        assert paths[n].edges[k] == x;
      }
    }
  }

  /** The edges of the listed paths stand in the order in which walking the paths first meets them. */
  lemma {:induction false} EdgesOnInOrder<N(!new)>(paths: seq<Path<N>>, i: nat, j: nat)
    requires i < j < |EdgesOn(paths)|
    ensures EdgeMetBefore(paths, EdgesOn(paths)[i], EdgesOn(paths)[j])
    decreases |paths|
  {
    hide AddNew, Distinct, MetBefore, EdgeMetBefore;
    var n, all := |paths| - 1, EdgesOn(paths);
    var before := EdgesOn(paths[..n]);
    EdgesOnMembers(paths[..n]);
    AddNewLaws(before, paths[n].edges);
    EdgesMetEarlier(paths, n, all[i], all[j]);
    if j < |before| {
      EdgesOnInOrder(paths[..n], i, j);
    } else {
      AddNewInOrder(before, paths[n].edges, i, j);
      if i < |before| {
        assert before[i] in before && all[i] == before[i];
      }
    }
  }

  lemma NodesMetEarlier<N(!new)>(paths: seq<Path<N>>, n: nat, x: N, y: N)
    requires n < |paths|
    ensures NodeMetBefore(paths[..n], x, y) ==> NodeMetBefore(paths, x, y)
    ensures (exists p :: p in paths[..n] && x in p.nodes) && (forall p :: p in paths[..n] ==> y !in p.nodes) ==> NodeMetBefore(paths, x, y)
    ensures (forall p :: p in paths[..n] ==> y !in p.nodes) && MetBefore(paths[n].nodes, x, y) ==> NodeMetBefore(paths, x, y)
  {
    if i, k :| 0 <= i < n && 0 <= k < |paths[..n][i].nodes| && paths[..n][i].nodes[k] == x
               && y !in paths[..n][i].nodes[..k] && x != y && forall h :: 0 <= h < i ==> y !in paths[..n][h].nodes {
      assert paths[i].nodes[k] == x && forall h :: 0 <= h < i ==> paths[..n][h] == paths[h];
    }
    if forall p :: p in paths[..n] ==> y !in p.nodes {
      assert forall h :: 0 <= h < n ==> paths[h] in paths[..n];
      if p :| p in paths[..n] && x in p.nodes {
        var i :| 0 <= i < n && paths[..n][i] == p;
        var k :| 0 <= k < |p.nodes| && p.nodes[k] == x;
        assert paths[i].nodes[k] == x;
      }
      if k :| 0 <= k < |paths[n].nodes| && paths[n].nodes[k] == x && y !in paths[n].nodes[..k] && x != y {
        assert paths[n].nodes[k] == x;
      }
    }
  }

  /** And so do their nodes. */
  lemma {:induction false} NodesOnInOrder<N(!new)>(paths: seq<Path<N>>, i: nat, j: nat)
    requires i < j < |NodesOn(paths)|
    ensures NodeMetBefore(paths, NodesOn(paths)[i], NodesOn(paths)[j])
    decreases |paths|
  {
    hide AddNew, Distinct, MetBefore, NodeMetBefore;
    var n, all := |paths| - 1, NodesOn(paths);
    var before := NodesOn(paths[..n]);
    NodesOnMembers(paths[..n]);
    AddNewLaws(before, paths[n].nodes);
    NodesMetEarlier(paths, n, all[i], all[j]);
    if j < |before| {
      NodesOnInOrder(paths[..n], i, j);
    } else {
      AddNewInOrder(before, paths[n].nodes, i, j);
      if i < |before| {
        assert before[i] in before && all[i] == before[i];
      }
    }
  }
}
