/**
 The breadth-first enumeration of simple paths behind `paths`.

 The reference grows the tree of partial paths level by level; the queue-driven loop is proved to list the
 first `limit` elements of what the reference finds. Soundness, completeness, order by length and absence of
 repetition are proved about the reference.
 */
module GraphPaths {
  import opened Sequences
  import opened GraphView

  /** Visited nodes, and the indexes of the edges between them. */
  datatype Path<N> = Path(nodes: seq<N>, edges: seq<nat>)

  // ---------------------------------------------------------------- what a path is

  /** A walk from s along arcs of the graph. */
  ghost predicate IsWalk<N(!new)>(adj: Adjacency<N>, s: N, p: Path<N>) {
    && |p.nodes| == |p.edges| + 1
    && p.nodes[0] == s
    && forall k :: 0 <= k < |p.edges| ==> Arc(p.edges[k], p.nodes[k + 1]) in adj(p.nodes[k])
  }

  predicate EndsAt<N(==)>(p: Path<N>, t: N) {
    p.nodes != [] && p.nodes[|p.nodes| - 1] == t
  }

  /** A walk from s to t that meets no node twice. */
  ghost predicate IsSimplePath<N(!new)>(adj: Adjacency<N>, s: N, t: N, p: Path<N>) {
    IsWalk(adj, s, p) && Distinct(p.nodes) && EndsAt(p, t)
  }

  /** A simple walk from s that has not met t. */
  ghost predicate IsPartial<N(!new)>(adj: Adjacency<N>, s: N, t: N, p: Path<N>) {
    IsWalk(adj, s, p) && Distinct(p.nodes) && t !in p.nodes
  }

  /** The adjacency of a graph: from u, only a self-loop can offer an edge twice. */
  ghost predicate SimpleArcs<N(!new)>(adj: Adjacency<N>) {
    forall u :: RepeatsOnlyLoops(adj(u), u)
  }

  // ---------------------------------------------------------------- reference enumeration

  function Extend<N>(p: Path<N>, a: Arc<N>): Path<N> {
    Path(p.nodes + [a.node], p.edges + [a.edge])
  }

  /** p followed by each of the arcs that does not return to p. */
  function Extensions<N(==)>(p: Path<N>, arcs: seq<Arc<N>>): seq<Path<N>> {
    if arcs == [] then []
    else
      var before := Extensions(p, arcs[..|arcs| - 1]);
      var a := arcs[|arcs| - 1];
      if a.node in p.nodes then before else before + [Extend(p, a)]
  }

  function ArcsAtEnd<N>(adj: Adjacency<N>, p: Path<N>): seq<Arc<N>> {
    if p.nodes == [] then [] else adj(p.nodes[|p.nodes| - 1])
  }

  function ExtendAll<N(==)>(adj: Adjacency<N>, ps: seq<Path<N>>): seq<Path<N>> {
    if ps == [] then []
    else
      var p := ps[|ps| - 1];
      ExtendAll(adj, ps[..|ps| - 1]) + Extensions(p, ArcsAtEnd(adj, p))
  }

  /** The paths that end at t (hit), or those that do not. */
  function Ending<N(==)>(ps: seq<Path<N>>, t: N, hit: bool): seq<Path<N>> {
    if ps == [] then []
    else
      var before := Ending(ps[..|ps| - 1], t, hit);
      if EndsAt(ps[|ps| - 1], t) == hit then before + [ps[|ps| - 1]] else before
  }

  /** The partial paths of at most k edges, level by level. */
  function Tree<N(==)>(adj: Adjacency<N>, s: N, t: N, k: nat): seq<Path<N>> {
    if k == 0 then [Path([s], [])]
    else [Path([s], [])] + Ending(ExtendAll(adj, Tree(adj, s, t, k - 1)), t, false)
  }

  /** Everything an unbounded enumeration of this depth tries. */
  function Tried<N(==)>(adj: Adjacency<N>, s: N, t: N, k: nat): seq<Path<N>> {
    if k == 0 then [] else ExtendAll(adj, Tree(adj, s, t, k - 1))
  }

  /** The unbounded list of paths from s to t with at most k edges. */
  function AllPaths<N(==)>(adj: Adjacency<N>, s: N, t: N, k: nat): seq<Path<N>> {
    Ending(Tried(adj, s, t, k), t, true)
  }

  // ---------------------------------------------------------------- concatenation laws

  lemma {:induction false} EndingAppend<N(!new)>(a: seq<Path<N>>, b: seq<Path<N>>, t: N, hit: bool)
    ensures Ending(a + b, t, hit) == Ending(a, t, hit) + Ending(b, t, hit)
    decreases |b|
  {
    if b == [] {
      assert a + b == a;
    } else {
      assert (a + b)[..|a + b| - 1] == a + b[..|b| - 1];
      EndingAppend(a, b[..|b| - 1], t, hit);
    }
  }

  lemma EndingPrefix<N(!new)>(a: seq<Path<N>>, b: seq<Path<N>>, t: N, hit: bool)
    requires a <= b
    ensures Ending(a, t, hit) <= Ending(b, t, hit)
  {
    hide Ending;
    assert b == a + b[|a|..];
    EndingAppend(a, b[|a|..], t, hit);
  }

  lemma {:induction false} EndingMembers<N(!new)>(ps: seq<Path<N>>, t: N, hit: bool, p: Path<N>)
    ensures p in Ending(ps, t, hit) <==> p in ps && EndsAt(p, t) == hit
    decreases |ps|
  {
    if ps != [] {
      EndingMembers(ps[..|ps| - 1], t, hit, p);
    }
  }

  lemma {:induction false} EndingDistinct<N(!new)>(ps: seq<Path<N>>, t: N, hit: bool)
    requires Distinct(ps)
    ensures Distinct(Ending(ps, t, hit))
    decreases |ps|
  {
    if ps != [] {
      EndingDistinct(ps[..|ps| - 1], t, hit);
      EndingMembers(ps[..|ps| - 1], t, hit, ps[|ps| - 1]);
    }
  }

  lemma {:induction false} ExtendAllAppend<N(!new)>(adj: Adjacency<N>, a: seq<Path<N>>, b: seq<Path<N>>)
    ensures ExtendAll(adj, a + b) == ExtendAll(adj, a) + ExtendAll(adj, b)
    decreases |b|
  {
    hide Extensions, ArcsAtEnd;
    if b == [] {
      assert a + b == a;
    } else {
      assert (a + b)[..|a + b| - 1] == a + b[..|b| - 1];
      ExtendAllAppend(adj, a, b[..|b| - 1]);
    }
  }

  lemma ExtendAllPrefix<N(!new)>(adj: Adjacency<N>, a: seq<Path<N>>, b: seq<Path<N>>)
    requires a <= b
    ensures ExtendAll(adj, a) <= ExtendAll(adj, b)
  {
    hide ExtendAll;
    assert b == a + b[|a|..];
    ExtendAllAppend(adj, a, b[|a|..]);
  }

  // ---------------------------------------------------------------- membership

  lemma {:induction false} ExtensionsMembers<N(!new)>(p: Path<N>, arcs: seq<Arc<N>>, q: Path<N>)
    ensures q in Extensions(p, arcs) <==> exists a :: a in arcs && a.node !in p.nodes && q == Extend(p, a)
    decreases |arcs|
  {
    hide Extend;
    if arcs != [] {
      var n := |arcs| - 1;
      ExtensionsMembers(p, arcs[..n], q);
      assert forall a :: a in arcs <==> a in arcs[..n] || a == arcs[n];
    }
  }

  /** q extends p by one arc out of p's end, to a node that p has not met. */
  ghost predicate Extends<N(!new)>(adj: Adjacency<N>, p: Path<N>, q: Path<N>) {
    exists a :: a in ArcsAtEnd(adj, p) && a.node !in p.nodes && q == Extend(p, a)
  }

  lemma {:induction false} ExtendAllMembers<N(!new)>(adj: Adjacency<N>, ps: seq<Path<N>>, q: Path<N>)
    ensures q in ExtendAll(adj, ps) <==> exists p :: p in ps && Extends(adj, p, q)
    decreases |ps|
  {
    hide Extensions, Extends, Extend, ArcsAtEnd;
    if ps != [] {
      var n := |ps| - 1;
      ExtendAllMembers(adj, ps[..n], q);
      ExtendsMembers(adj, ps[n], q);
      assert forall p :: p in ps <==> p in ps[..n] || p == ps[n];
    }
  }

  lemma ExtendsMembers<N(!new)>(adj: Adjacency<N>, p: Path<N>, q: Path<N>)
    ensures q in Extensions(p, ArcsAtEnd(adj, p)) <==> Extends(adj, p, q)
  {
    ExtensionsMembers(p, ArcsAtEnd(adj, p), q);
  }

  /** Extending a simple walk gives a simple walk that is one edge longer. */
  lemma ExtendWalk<N(!new)>(adj: Adjacency<N>, s: N, p: Path<N>, q: Path<N>)
    requires IsWalk(adj, s, p) && Distinct(p.nodes) && Extends(adj, p, q)
    ensures IsWalk(adj, s, q) && Distinct(q.nodes) && |q.edges| == |p.edges| + 1
    ensures q.nodes[..|p.nodes|] == p.nodes && q.edges[..|p.edges|] == p.edges
  {
    var a :| a in ArcsAtEnd(adj, p) && a.node !in p.nodes && q == Extend(p, a);
    forall k | 0 <= k < |q.edges| ensures Arc(q.edges[k], q.nodes[k + 1]) in adj(q.nodes[k]) {
      if k < |p.edges| {
        assert Arc(p.edges[k], p.nodes[k + 1]) in adj(p.nodes[k]);
      }
    }
  }

  function Parent<N>(q: Path<N>): Path<N>
    requires q.nodes != [] && q.edges != []
  {
    Path(q.nodes[..|q.nodes| - 1], q.edges[..|q.edges| - 1])
  }

  /** Every simple walk of at least one edge extends its parent. */
  lemma ParentExtends<N(!new)>(adj: Adjacency<N>, s: N, q: Path<N>)
    requires IsWalk(adj, s, q) && Distinct(q.nodes) && q.edges != []
    ensures IsWalk(adj, s, Parent(q)) && Distinct(Parent(q).nodes) && Extends(adj, Parent(q), q)
    ensures q.nodes[|q.nodes| - 1] !in Parent(q).nodes
  {
    var p, n := Parent(q), |q.edges| - 1;
    var a := Arc(q.edges[n], q.nodes[n + 1]);
    assert a in adj(q.nodes[n]);
    forall k | 0 <= k < |p.edges| ensures Arc(p.edges[k], p.nodes[k + 1]) in adj(p.nodes[k]) {
      assert Arc(q.edges[k], q.nodes[k + 1]) in adj(q.nodes[k]);
    }
    assert q.nodes == p.nodes + [a.node] && q.edges == p.edges + [a.edge];
    assert q == Extend(p, a);
    assert a in ArcsAtEnd(adj, p);
  }

  /** The tree of depth k holds exactly the partial paths with at most k edges. */
  lemma {:induction false} TreeMembers<N(!new)>(adj: Adjacency<N>, s: N, t: N, k: nat, q: Path<N>)
    requires s != t
    ensures q in Tree(adj, s, t, k) <==> IsPartial(adj, s, t, q) && |q.edges| <= k
    decreases k
  {
    var root: Path<N> := Path([s], []);
    if k > 0 {
      var j := k - 1;
      forall p ensures p in Tree(adj, s, t, j) <==> IsPartial(adj, s, t, p) && |p.edges| <= j {
        TreeMembers(adj, s, t, j, p);
      }
      TreeMembersStep(adj, s, t, j, q);
    } else if IsPartial(adj, s, t, q) && |q.edges| <= 0 {
      assert q == root;
    }
  }

  lemma {:induction false} TreeMembersStep<N(!new)>(adj: Adjacency<N>, s: N, t: N, j: nat, q: Path<N>)
    requires s != t
    requires forall p :: p in Tree(adj, s, t, j) <==> IsPartial(adj, s, t, p) && |p.edges| <= j
    ensures q in Tree(adj, s, t, j + 1) <==> IsPartial(adj, s, t, q) && |q.edges| <= j + 1
  {
    TreeStep(adj, s, t, j + 1);
    hide Tree, ExtendAll, Ending, Extends, Distinct;
    var tried := ExtendAll(adj, Tree(adj, s, t, j));
    var root: Path<N> := Path([s], []);
    EndingMembers(tried, t, false, q);
    ExtendAllMembers(adj, Tree(adj, s, t, j), q);
    RootIsPartial(adj, s, t);
    if q in tried && !EndsAt(q, t) {
      var p :| p in Tree(adj, s, t, j) && Extends(adj, p, q);
      ExtendWalk(adj, s, p, q);
      assert q.nodes == p.nodes + [q.nodes[|p.nodes|]];
    }
    if IsPartial(adj, s, t, q) && |q.edges| <= j + 1 {
      if q.edges == [] {
        assert q.nodes == [s];
        assert q == root;
      } else {
        ParentExtends(adj, s, q);
        assert Parent(q) in Tree(adj, s, t, j);
      }
    }
  }

  lemma RootIsPartial<N(!new)>(adj: Adjacency<N>, s: N, t: N)
    requires s != t
    ensures IsPartial(adj, s, t, Path([s], []))
  {
  }

  lemma TreeStep<N(!new)>(adj: Adjacency<N>, s: N, t: N, k: nat)
    requires k > 0
    ensures Tried(adj, s, t, k) == ExtendAll(adj, Tree(adj, s, t, k - 1))
    ensures Tree(adj, s, t, k) == [Path([s], [])] + Ending(Tried(adj, s, t, k), t, false)
  {
  }

  /** Sound and complete: the unbounded list holds exactly the simple paths from s to t with at most k edges. */
  lemma {:induction false} AllPathsMembers<N(!new)>(adj: Adjacency<N>, s: N, t: N, k: nat, q: Path<N>)
    requires s != t
    ensures q in AllPaths(adj, s, t, k) <==> IsSimplePath(adj, s, t, q) && |q.edges| <= k
  {
    hide Tree, ExtendAll, Ending, Extends, Distinct, Tried;
    if k == 0 {
      TreeRoot(adj, s, t);
    } else {
      var tree, tried := Tree(adj, s, t, k - 1), Tried(adj, s, t, k);
      TreeStep(adj, s, t, k);
      EndingMembers(tried, t, true, q);
      ExtendAllMembers(adj, tree, q);
      if q in tried && EndsAt(q, t) {
        var p :| p in tree && Extends(adj, p, q);
        TreeMembers(adj, s, t, k - 1, p);
        ExtendWalk(adj, s, p, q);
      }
      if IsSimplePath(adj, s, t, q) && |q.edges| <= k {
        ParentExtends(adj, s, q);
        TreeMembers(adj, s, t, k - 1, Parent(q));
      }
    }
  }

  // ---------------------------------------------------------------- no repetition

  lemma {:induction false} ExtensionsDistinct<N(!new)>(p: Path<N>, arcs: seq<Arc<N>>)
    requires p.nodes != [] && RepeatsOnlyLoops(arcs, p.nodes[|p.nodes| - 1])
    ensures Distinct(Extensions(p, arcs))
    decreases |arcs|
  {
    if arcs != [] {
      var n := |arcs| - 1;
      ExtensionsDistinct(p, arcs[..n]);
      LastArcIsNew(p, arcs);
    }
  }

  lemma {:induction false} LastArcIsNew<N(!new)>(p: Path<N>, arcs: seq<Arc<N>>)
    requires p.nodes != [] && arcs != [] && RepeatsOnlyLoops(arcs, p.nodes[|p.nodes| - 1])
    ensures Extend(p, arcs[|arcs| - 1]) !in Extensions(p, arcs[..|arcs| - 1])
  {
    hide Extensions;
    var n := |arcs| - 1;
    var q := Extend(p, arcs[n]);
    ExtensionsMembers(p, arcs[..n], q);
    forall a | a in arcs[..n] && a.node !in p.nodes ensures Extend(p, a) != q {
      var j :| 0 <= j < n && arcs[j] == a;
      assert Extend(p, a).edges[|p.edges|] == arcs[j].edge;
    }
  }

  lemma {:induction false} ExtendAllDistinct<N(!new)>(adj: Adjacency<N>, ps: seq<Path<N>>)
    requires SimpleArcs(adj) && Distinct(ps)
    ensures Distinct(ExtendAll(adj, ps))
    decreases |ps|
  {
    if ps != [] {
      var n := |ps| - 1;
      var old', new' := ExtendAll(adj, ps[..n]), Extensions(ps[n], ArcsAtEnd(adj, ps[n]));
      assert ExtendAll(adj, ps) == old' + new';
      ExtendAllDistinct(adj, ps[..n]);
      OneMoreDistinct(adj, ps);
    }
  }

  lemma {:induction false} OneMoreDistinct<N(!new)>(adj: Adjacency<N>, ps: seq<Path<N>>)
    requires SimpleArcs(adj) && ps != [] && Distinct(ps)
    requires Distinct(ExtendAll(adj, ps[..|ps| - 1]))
    ensures Distinct(ExtendAll(adj, ps[..|ps| - 1]) + Extensions(ps[|ps| - 1], ArcsAtEnd(adj, ps[|ps| - 1])))
  {
    hide ExtendAll, Extensions, ArcsAtEnd, Extend;
    var p := ps[|ps| - 1];
    var a, b := ExtendAll(adj, ps[..|ps| - 1]), Extensions(p, ArcsAtEnd(adj, p));
    EndExtensionsDistinct(adj, p);
    forall q | q in a ensures q !in b {
      ExtendAllMembers(adj, ps[..|ps| - 1], q);
      ExtendsMembers(adj, p, q);
      var p' :| p' in ps[..|ps| - 1] && Extends(adj, p', q);
      if Extends(adj, p, q) {
        SameParent(adj, p, p', q);
      }
    }
    DistinctConcat(a, b);
  }

  lemma EndExtensionsDistinct<N(!new)>(adj: Adjacency<N>, p: Path<N>)
    requires SimpleArcs(adj)
    ensures Distinct(Extensions(p, ArcsAtEnd(adj, p)))
  {
    if p.nodes != [] {
      ExtensionsDistinct(p, ArcsAtEnd(adj, p));
    }
  }

  lemma SameParent<N(!new)>(adj: Adjacency<N>, p: Path<N>, p': Path<N>, q: Path<N>)
    requires Extends(adj, p, q) && Extends(adj, p', q)
    ensures p == p'
  {
    assert q.nodes[..|q.nodes| - 1] == p.nodes == p'.nodes;
    assert q.edges[..|q.edges| - 1] == p.edges == p'.edges;
  }

  /** No path is listed twice. */
  lemma {:induction false} TreeDistinct<N(!new)>(adj: Adjacency<N>, s: N, t: N, k: nat)
    requires SimpleArcs(adj)
    ensures Distinct(Tree(adj, s, t, k)) && Distinct(Tried(adj, s, t, k)) && Distinct(AllPaths(adj, s, t, k))
    decreases k
  {
    hide Tree, Tried, ExtendAll, SimpleArcs;
    var root: Path<N> := Path([s], []);
    if k == 0 {
      TreeRoot(adj, s, t);
    } else {
      TreeStep(adj, s, t, k);
      TreeDistinct(adj, s, t, k - 1);
      var tried := Tried(adj, s, t, k);
      ExtendAllDistinct(adj, Tree(adj, s, t, k - 1));
      EndingDistinct(tried, t, true);
      EndingDistinct(tried, t, false);
      EndingMembers(tried, t, false, root);
      ExtendAllMembers(adj, Tree(adj, s, t, k - 1), root);
      assert root !in tried;
      DistinctConcat([root], Ending(tried, t, false));
    }
  }

  lemma TreeRoot<N(!new)>(adj: Adjacency<N>, s: N, t: N)
    ensures Tree(adj, s, t, 0) == [Path([s], [])] && Tried(adj, s, t, 0) == []
    ensures AllPaths(adj, s, t, 0) == []
  {
  }

  // ---------------------------------------------------------------- growth and order

  lemma {:induction false} TreeGrows<N(!new)>(adj: Adjacency<N>, s: N, t: N, k: nat)
    ensures Tree(adj, s, t, k) <= Tree(adj, s, t, k + 1) && Tried(adj, s, t, k) <= Tried(adj, s, t, k + 1)
    decreases k
  {
    hide Tree, Tried, ExtendAll, Ending;
    TreeStep(adj, s, t, k + 1);
    TreeRoot(adj, s, t);
    if k > 0 {
      TreeGrows(adj, s, t, k - 1);
      TreeStep(adj, s, t, k);
      ExtendAllPrefix(adj, Tree(adj, s, t, k - 1), Tree(adj, s, t, k));
      EndingPrefix(Tried(adj, s, t, k), Tried(adj, s, t, k + 1), t, false);
    }
  }

  lemma {:induction false} TreePrefix<N(!new)>(adj: Adjacency<N>, s: N, t: N, k: nat, m: nat)
    requires k <= m
    ensures Tree(adj, s, t, k) <= Tree(adj, s, t, m)
    ensures Tried(adj, s, t, k) <= Tried(adj, s, t, m)
    ensures AllPaths(adj, s, t, k) <= AllPaths(adj, s, t, m)
    decreases m
  {
    hide Tree, Tried, Ending;
    if k < m {
      TreePrefix(adj, s, t, k, m - 1);
      TreeGrows(adj, s, t, m - 1);
    }
    EndingPrefix(Tried(adj, s, t, k), Tried(adj, s, t, m), t, true);
  }

  /** Lengths never decrease along the list. */
  lemma {:induction false} PathsByLength<N(!new)>(adj: Adjacency<N>, s: N, t: N, k: nat, i: nat, j: nat)
    requires SimpleArcs(adj) && s != t
    requires i <= j < |AllPaths(adj, s, t, k)|
    ensures |AllPaths(adj, s, t, k)[i].edges| <= |AllPaths(adj, s, t, k)[j].edges| <= k
  {
    hide AllPaths, SimpleArcs, IsSimplePath;
    var all := AllPaths(adj, s, t, k);
    var n := |all[j].edges|;
    AllPathsMembers(adj, s, t, k, all[j]);
    AllPathsMembers(adj, s, t, n, all[j]);
    TreePrefix(adj, s, t, n, k);
    TreeDistinct(adj, s, t, k);
    AllPathsMembers(adj, s, t, n, all[i]);
  }

  /** The h-th partial path has at most k edges exactly when it already belongs to the tree of depth k. */
  lemma {:induction false} TreeIndexDepth<N(!new)>(adj: Adjacency<N>, s: N, t: N, m: nat, h: nat, k: nat)
    requires SimpleArcs(adj) && s != t
    requires k <= m && h < |Tree(adj, s, t, m)|
    ensures |Tree(adj, s, t, m)[h].edges| <= k <==> h < |Tree(adj, s, t, k)|
  {
    hide Tree, Tried, SimpleArcs, IsPartial;
    var tree := Tree(adj, s, t, m);
    TreePrefix(adj, s, t, k, m);
    TreeMembers(adj, s, t, m, tree[h]);
    TreeMembers(adj, s, t, k, tree[h]);
    if |tree[h].edges| <= k {
      TreeDistinct(adj, s, t, m);
    }
  }

  /** The edge sequence determines the path. */
  lemma {:induction false} EdgesDeterminePath<N(!new)>(adj: Adjacency<N>, s: N, p: Path<N>, q: Path<N>)
    requires SimpleArcs(adj)
    requires IsWalk(adj, s, p) && Distinct(p.nodes) && IsWalk(adj, s, q) && Distinct(q.nodes)
    requires p.edges == q.edges
    ensures p == q
    decreases |p.edges|
  {
    if p.edges == [] {
      assert p.nodes == [s] == q.nodes;
    } else {
      var n := |p.edges| - 1;
      ParentExtends(adj, s, p);
      ParentExtends(adj, s, q);
      EdgesDeterminePath(adj, s, Parent(p), Parent(q));
      assert Parent(p).nodes[n] == p.nodes[n] && Parent(q).nodes[n] == q.nodes[n];
      var u, out := p.nodes[n], adj(p.nodes[n]);
      var j :| 0 <= j < |out| && out[j] == Arc(p.edges[n], p.nodes[n + 1]);
      var k :| 0 <= k < |out| && out[k] == Arc(q.edges[n], q.nodes[n + 1]);
      assert RepeatsOnlyLoops(out, u);
      assert j == k;
      assert p.nodes == Parent(p).nodes + [p.nodes[n + 1]];
      assert q.nodes == Parent(q).nodes + [q.nodes[n + 1]];
    }
  }

  // ---------------------------------------------------------------- the loop

  function NodesOn<N(==)>(paths: seq<Path<N>>): seq<N> {
    if paths == [] then [] else AddNew(NodesOn(paths[..|paths| - 1]), paths[|paths| - 1].nodes)
  }

  function EdgesOn<N>(paths: seq<Path<N>>): seq<nat> {
    if paths == [] then [] else AddNew(EdgesOn(paths[..|paths| - 1]), paths[|paths| - 1].edges)
  }

  lemma {:induction false} NodesOnMembers<N(!new)>(paths: seq<Path<N>>)
    ensures Distinct(NodesOn(paths))
    ensures forall v :: v in NodesOn(paths) <==> exists p :: p in paths && v in p.nodes
    decreases |paths|
  {
    hide AddNew;
    if paths != [] {
      var n := |paths| - 1;
      NodesOnMembers(paths[..n]);
      AddNewLaws(NodesOn(paths[..n]), paths[n].nodes);
      assert paths == paths[..n] + [paths[n]];
    }
  }

  lemma {:induction false} EdgesOnMembers<N(!new)>(paths: seq<Path<N>>)
    ensures Distinct(EdgesOn(paths))
    ensures forall e :: e in EdgesOn(paths) <==> exists p :: p in paths && e in p.edges
    decreases |paths|
  {
    hide AddNew;
    if paths != [] {
      var n := |paths| - 1;
      EdgesOnMembers(paths[..n]);
      AddNewLaws(EdgesOn(paths[..n]), paths[n].edges);
      assert paths == paths[..n] + [paths[n]];
    }
  }

  /** All partial paths put on the queue while the first p tried paths were handled. */
  ghost function Queued<N(!new)>(s: N, t: N, tried: seq<Path<N>>, p: nat): seq<Path<N>>
    requires p <= |tried|
  {
    [Path([s], [])] + Ending(tried[..p], t, false)
  }

  lemma {:induction false} QueuedInTree<N(!new)>(adj: Adjacency<N>, s: N, t: N, maxDepth: nat, p: nat)
    requires p <= |Tried(adj, s, t, maxDepth)|
    ensures Queued(s, t, Tried(adj, s, t, maxDepth), p) <= Tree(adj, s, t, maxDepth)
  {
    hide Tree, Tried, Ending;
    TreeRoot(adj, s, t);
    if maxDepth > 0 {
      TreeStep(adj, s, t, maxDepth);
      EndingPrefix(Tried(adj, s, t, maxDepth)[..p], Tried(adj, s, t, maxDepth), t, false);
    } else {
      assert Tried(adj, s, t, maxDepth)[..p] == [];
      EndingEmpty(t, false);
    }
  }

  lemma EndingEmpty<N(!new)>(t: N, hit: bool)
    ensures Ending([], t, hit) == []
  {
  }

  /** The extensions of the h-th partial path sit right after those of its predecessors. */
  lemma ExtensionsInTried<N(!new)>(adj: Adjacency<N>, s: N, t: N, maxDepth: nat, h: nat)
    requires maxDepth > 0 && h < |Tree(adj, s, t, maxDepth - 1)|
    ensures var T := Tree(adj, s, t, maxDepth - 1);
            var p := |ExtendAll(adj, T[..h])|;
            var ext := Extensions(T[h], ArcsAtEnd(adj, T[h]));
            && p + |ext| <= |Tried(adj, s, t, maxDepth)|
            && Tried(adj, s, t, maxDepth)[p..p + |ext|] == ext
            && |ExtendAll(adj, T[..h + 1])| == p + |ext|
  {
    hide Tree, Tried, ExtendAll, Extensions, ArcsAtEnd;
    var T := Tree(adj, s, t, maxDepth - 1);
    TreeStep(adj, s, t, maxDepth);
    ExtendAllOneMore(adj, T, h);
    ExtendAllPrefix(adj, T[..h + 1], T);
  }

  lemma ExtendAllOneMore<N(!new)>(adj: Adjacency<N>, ps: seq<Path<N>>, h: nat)
    requires h < |ps|
    ensures ExtendAll(adj, ps[..h + 1]) == ExtendAll(adj, ps[..h]) + Extensions(ps[h], ArcsAtEnd(adj, ps[h]))
  {
    assert ps[..h + 1][..h] == ps[..h];
  }

  /** While a partial path below the bound has not been extended, more have been queued than taken off the queue. */
  lemma {:induction false} QueueNotEmpty<N(!new)>(adj: Adjacency<N>, s: N, t: N, maxDepth: nat, h: nat)
    requires SimpleArcs(adj) && s != t && maxDepth > 0
    requires h < |Tree(adj, s, t, maxDepth - 1)|
    ensures var p := |ExtendAll(adj, Tree(adj, s, t, maxDepth - 1)[..h])|;
            p <= |Tried(adj, s, t, maxDepth)| && |Queued(s, t, Tried(adj, s, t, maxDepth), p)| > h
  {
    hide Tree, Tried, Ending, ExtendAll, SimpleArcs, Extensions;
    var T := Tree(adj, s, t, maxDepth - 1);
    var p, k := |ExtendAll(adj, T[..h])|, |T[h].edges|;
    TreeStep(adj, s, t, maxDepth);
    ExtendAllPrefix(adj, T[..h], T);
    TreeIndexDepth(adj, s, t, maxDepth - 1, h, maxDepth - 1);
    TreeIndexDepth(adj, s, t, maxDepth - 1, h, k);
    assert h < |Tree(adj, s, t, k)|;
    if k > 0 {
      TreeIndexDepth(adj, s, t, maxDepth - 1, h, k - 1);
      var inner := Tree(adj, s, t, k - 1);
      TreePrefix(adj, s, t, k - 1, maxDepth - 1);
      assert inner <= T[..h];
      ExtendAllPrefix(adj, inner, T[..h]);
      TreeStep(adj, s, t, k);
      EndingPrefix(Tried(adj, s, t, k), Tried(adj, s, t, maxDepth)[..p], t, false);
    } else {
      TreeRoot(adj, s, t);
    }
  }

  /**
   One turn of the outer loop: a dequeued partial path is followed by each arc that does not return to it. Those that
   end at the target are listed, up to the limit; the others are queued.
   */
  method ExtendOne<N(==,!new)>(
      t: N, limit: nat, path: Path<N>, out: seq<Arc<N>>, paths0: seq<Path<N>>, nodes0: seq<N>, edges0: seq<nat>, queue0: seq<Path<N>>)
    returns (paths: seq<Path<N>>, nodes: seq<N>, edges: seq<nat>, queue: seq<Path<N>>)
    requires |paths0| < limit && nodes0 == NodesOn(paths0) && edges0 == EdgesOn(paths0)
    ensures paths == Take(paths0 + Ending(Extensions(path, out), t, true), limit)
    ensures nodes == NodesOn(paths) && edges == EdgesOn(paths)
    ensures |paths| < limit ==> queue == queue0 + Ending(Extensions(path, out), t, false)
  {
    hide Ending, Distinct, AddNew, EndsAt, Extensions;
    paths, nodes, edges, queue := paths0, nodes0, edges0, queue0;
    var j := 0;
    NothingExtended(path, out, t);
    while j < |out|
      invariant 0 <= j <= |out| && |paths| < limit
      invariant paths == paths0 + Ending(Extensions(path, out[..j]), t, true)
      invariant queue == queue0 + Ending(Extensions(path, out[..j]), t, false)
      invariant nodes == NodesOn(paths) && edges == EdgesOn(paths)
    {
      var edge, next := out[j].edge, out[j].node;
      NextExtension(path, out, j, t);
      j := j + 1;
      if next in path.nodes {
        continue;
      }
      var longer := Path(path.nodes + [next], path.edges + [edge]);
      if next == t {
        paths := paths + [longer];
        assert paths[..|paths| - 1] + [longer] == paths;
        nodes := AppendNew(nodes, longer.nodes);
        edges := AppendNew(edges, longer.edges);
        if |paths| >= limit {
          break;
        }
        continue;
      }
      queue := queue + [longer];
    }
    ExtensionsPrefix(path, out, j);
    EndingPrefix(Extensions(path, out[..j]), Extensions(path, out), t, true);
    assert j == |out| ==> out[..j] == out;
  }

  lemma NothingExtended<N(!new)>(path: Path<N>, out: seq<Arc<N>>, t: N)
    ensures forall hit :: Ending(Extensions(path, out[..0]), t, hit) == []
  {
  }

  /** The next arc either returns to the path, or its extension is the next path that is tried. */
  lemma NextExtension<N(!new)>(path: Path<N>, out: seq<Arc<N>>, j: nat, t: N)
    requires j < |out|
    ensures forall hit ::
              Ending(Extensions(path, out[..j + 1]), t, hit) == Ending(Extensions(path, out[..j]), t, hit)
              + (if out[j].node !in path.nodes && (out[j].node == t) == hit then [Extend(path, out[j])] else [])
  {
    assert out[..j + 1][..j] == out[..j];
  }

  lemma {:induction false} ExtensionsPrefix<N(!new)>(path: Path<N>, out: seq<Arc<N>>, j: nat)
    requires j <= |out|
    ensures Extensions(path, out[..j]) <= Extensions(path, out)
    decreases |out|
  {
    if j < |out| {
      var n := |out| - 1;
      assert out[..n][..j] == out[..j];
      ExtensionsPrefix(path, out[..n], j);
    } else {
      assert out[..j] == out;
    }
  }

  /** The enumeration loop lists the first `limit` paths of the unbounded enumeration. */
  method ListPaths<N(==,!new)>(adj: Adjacency<N>, s: N, t: N, maxDepth: nat, limit: nat)
    returns (paths: seq<Path<N>>, nodes: seq<N>, edges: seq<nat>)
    requires SimpleArcs(adj) && s != t && limit >= 1
    ensures paths == Take(AllPaths(adj, s, t, maxDepth), limit)
    ensures nodes == NodesOn(paths) && edges == EdgesOn(paths)
  {
    hide Tree, Tried, Ending, ExtendAll, Extensions, SimpleArcs, Distinct, ArcsAtEnd, AllPaths;
    ghost var tried := Tried(adj, s, t, maxDepth);
    ghost var T := Extended(adj, s, t, maxDepth);
    ghost var h: nat, p: nat := 0, 0;
    paths, nodes, edges := [], [], [];
    var queue: seq<Path<N>> := [Path([s], [])];
    ListStart(adj, s, t, maxDepth);
    while queue != [] && |paths| < limit
      invariant ListState(s, t, tried, limit, p, h, paths, queue) && p == |ExtendAll(adj, T[..Min(h, |T|)])|
      invariant nodes == NodesOn(paths) && edges == EdgesOn(paths)
      invariant h <= |Tree(adj, s, t, maxDepth)|
      decreases |Tree(adj, s, t, maxDepth)| - h
    {
      NextQueued(adj, s, t, maxDepth, p, h);
      var path := queue[0];
      queue := queue[1..];
      TreeIndexDepth(adj, s, t, maxDepth, h, if maxDepth > 0 then maxDepth - 1 else 0);
      if |path.edges| >= maxDepth {
        h := h + 1;
        continue;
      }
      TreePrefix(adj, s, t, maxDepth - 1, maxDepth);
      ExtensionsInTried(adj, s, t, maxDepth, h);
      var out := ArcsAtEnd(adj, path);
      paths, nodes, edges, queue := ExtendOne(t, limit, path, out, paths, nodes, edges, queue);
      ListStep(s, t, tried, limit, p, |Extensions(path, out)|, h + 1);
      p, h := p + |Extensions(path, out)|, h + 1;
    }
    if |paths| < limit {
      assert |Queued(s, t, tried, p)| == h;
      if maxDepth > 0 && h < |T| {
        QueueNotEmpty(adj, s, t, maxDepth, h);
      }
      assert T[..Min(h, |T|)] == T;
    }
    ListEnd(adj, s, t, maxDepth, limit, p);
  }

  /** The loop variables when the first p tried paths have been handled and h partial paths taken off the queue. */
  ghost predicate ListState<N(!new)>(
    s: N, t: N, tried: seq<Path<N>>, limit: nat, p: nat, h: nat, paths: seq<Path<N>>, queue: seq<Path<N>>)
  {
    && p <= |tried| && paths == Take(Ending(tried[..p], t, true), limit)
    && (|paths| < limit ==> h <= |Queued(s, t, tried, p)| && queue == Queued(s, t, tried, p)[h..])
  }

  /** The h-th path on the queue is the h-th partial path of the tree. */
  lemma NextQueued<N(!new)>(adj: Adjacency<N>, s: N, t: N, maxDepth: nat, p: nat, h: nat)
    requires p <= |Tried(adj, s, t, maxDepth)| && h < |Queued(s, t, Tried(adj, s, t, maxDepth), p)|
    ensures var queued := Queued(s, t, Tried(adj, s, t, maxDepth), p);
            h < |Tree(adj, s, t, maxDepth)| && queued[h] == Tree(adj, s, t, maxDepth)[h] && queued[h..][1..] == queued[h + 1..]
  {
    hide Tree, Tried, Queued;
    QueuedInTree(adj, s, t, maxDepth, p);
  }

  /** What n more tried paths add to the list, which the limit cuts, and to the queue. */
  lemma ListStep<N(!new)>(s: N, t: N, tried: seq<Path<N>>, limit: nat, p: nat, n: nat, h: nat)
    requires p + n <= |tried|
    ensures var ext := tried[p..p + n];
            && Take(Ending(tried[..p + n], t, true), limit) == Take(Take(Ending(tried[..p], t, true), limit) + Ending(ext, t, true), limit)
            && (h <= |Queued(s, t, tried, p)| ==>
                  h <= |Queued(s, t, tried, p + n)|
                  && Queued(s, t, tried, p + n)[h..] == Queued(s, t, tried, p)[h..] + Ending(ext, t, false))
  {
    hide Ending, Queued, Take;
    var ext := tried[p..p + n];
    TriedFurther(s, t, tried, p, n);
    TakeTwice(Ending(tried[..p], t, true), Ending(ext, t, true), limit);
    if h <= |Queued(s, t, tried, p)| {
    }
  }

  lemma TakeTwice<T>(a: seq<T>, b: seq<T>, n: nat)
    ensures Take(a + b, n) == Take(Take(a, n) + b, n)
  {
  }

  /** The next block of tried paths. */
  lemma TriedFurther<N(!new)>(s: N, t: N, tried: seq<Path<N>>, p: nat, n: nat)
    requires p + n <= |tried|
    ensures forall hit :: Ending(tried[..p + n], t, hit) == Ending(tried[..p], t, hit) + Ending(tried[p..p + n], t, hit)
    ensures Queued(s, t, tried, p + n) == Queued(s, t, tried, p) + Ending(tried[p..p + n], t, false)
  {
    hide Ending;
    assert tried[..p + n] == tried[..p] + tried[p..p + n];
    forall hit ensures Ending(tried[..p + n], t, hit) == Ending(tried[..p], t, hit) + Ending(tried[p..p + n], t, hit) {
      EndingAppend(tried[..p], tried[p..p + n], t, hit);
    }
  }

  /** The partial paths an unbounded enumeration extends. */
  ghost function Extended<N(!new)>(adj: Adjacency<N>, s: N, t: N, maxDepth: nat): seq<Path<N>> {
    if maxDepth == 0 then [] else Tree(adj, s, t, maxDepth - 1)
  }

  lemma ListStart<N(!new)>(adj: Adjacency<N>, s: N, t: N, maxDepth: nat)
    ensures Ending(Tried(adj, s, t, maxDepth)[..0], t, true) == []
    ensures Queued(s, t, Tried(adj, s, t, maxDepth), 0) == [Path([s], [])]
    ensures |ExtendAll(adj, Extended(adj, s, t, maxDepth)[..0])| == 0
    ensures Tried(adj, s, t, maxDepth) == ExtendAll(adj, Extended(adj, s, t, maxDepth))
  {
  }

  lemma ListEnd<N(!new)>(adj: Adjacency<N>, s: N, t: N, maxDepth: nat, limit: nat, p: nat)
    requires p <= |Tried(adj, s, t, maxDepth)|
    requires |Ending(Tried(adj, s, t, maxDepth)[..p], t, true)| < limit ==> p == |Tried(adj, s, t, maxDepth)|
    ensures Take(Ending(Tried(adj, s, t, maxDepth)[..p], t, true), limit) == Take(AllPaths(adj, s, t, maxDepth), limit)
  {
    hide Tried, Ending;
    EndingPrefix(Tried(adj, s, t, maxDepth)[..p], Tried(adj, s, t, maxDepth), t, true);
    if p == |Tried(adj, s, t, maxDepth)| {
      assert Tried(adj, s, t, maxDepth)[..p] == Tried(adj, s, t, maxDepth);
    }
  }
}
