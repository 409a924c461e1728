/**
 The graph projection that queries run over: nodes, edges, a relation filter, and the arcs
 an edge offers in a query direction. The view is never changed after it is built, so it is a value.
 */
module GraphView {
  datatype GraphNode = GraphNode(id: string, labelText: string, kind: string)

  datatype GraphEdge = GraphEdge(source: string, target: string, relation: string)

  datatype Direction = Out | In | Both

  /** An edge index together with the node it leads to. */
  datatype Arc<N> = Arc(edge: nat, node: N)

  /** What a search sees of a graph: the arcs out of each node, in the order they are tried. */
  type Adjacency<!N> = N -> seq<Arc<N>>

  datatype View = View(nodes: seq<GraphNode>, edges: seq<GraphEdge>, allowed: set<string>) {

    /** Membership in the id index. */
    predicate Known(id: string) {
      exists k :: 0 <= k < |nodes| && nodes[k].id == id
    }

    /** Lookup in the id index: among nodes that share an id the last one is kept. */
    function NodeById(id: string): (node: GraphNode)
      requires Known(id)
      ensures exists k :: 0 <= k < |nodes| && nodes[k] == node && node.id == id
                          && forall m :: k < m < |nodes| ==> nodes[m].id != id
    {
      LastWithId(|nodes|, id)
    }

    function LastWithId(n: nat, id: string): (node: GraphNode)
      requires n <= |nodes| && exists k :: 0 <= k < n && nodes[k].id == id
      ensures exists k :: 0 <= k < n && nodes[k] == node && node.id == id
                          && forall m :: k < m < n ==> nodes[m].id != id
    {
      if nodes[n - 1].id == id then nodes[n - 1] else LastWithId(n - 1, id)
    }

    /** Edges that survive the relation filter and have both endpoints in the graph. An empty filter keeps all. */
    predicate Usable(filter: set<string>, i: nat) {
      && i < |edges|
      && (filter == {} || edges[i].relation in filter)
      && Known(edges[i].source)
      && Known(edges[i].target)
    }

    /** Edge i can be followed from u to v. */
    predicate Leads(d: Direction, i: nat, u: string, v: string) {
      && Usable(allowed, i)
      && (|| (d != In && edges[i].source == u && edges[i].target == v)
          || (d != Out && edges[i].target == u && edges[i].source == v))
    }

    /** The arcs out of u in edge order; in direction Both an edge gives its forward arc first. */
    function Adjacent(d: Direction, u: string): seq<Arc<string>> {
      AdjacentFrom(d, u, 0)
    }

    function AdjacentFrom(d: Direction, u: string, i: nat): seq<Arc<string>>
      decreases |edges| - i
    {
      if i >= |edges| then [] else ArcsOf(d, u, i) + AdjacentFrom(d, u, i + 1)
    }

    function ArcsOf(d: Direction, u: string, i: nat): seq<Arc<string>>
      requires i < |edges|
    {
      if !Usable(allowed, i) then []
      else
        (if d != In && edges[i].source == u then [Arc(i, edges[i].target)] else [])
        + (if d != Out && edges[i].target == u then [Arc(i, edges[i].source)] else [])
    }

    function Arcs(d: Direction): Adjacency<string> {
      u => Adjacent(d, u)
    }

    /** The same graph with every edge turned round. */
    function Reversed(): View {
      View(nodes, seq(|edges|, i requires 0 <= i < |edges| => GraphEdge(edges[i].target, edges[i].source, edges[i].relation)), allowed)
    }
  }

  lemma ArcsOfCovers(g: View, d: Direction, u: string, i: nat, a: Arc<string>)
    requires i < |g.edges|
    ensures a in g.ArcsOf(d, u, i) <==> i == a.edge && g.Leads(d, i, u, a.node)
  {
  }

  lemma LeadsInside(g: View, d: Direction, i: nat, u: string, v: string)
    ensures g.Leads(d, i, u, v) ==> i < |g.edges|
  {
  }

  lemma {:induction false} AdjacentFromCovers(g: View, d: Direction, u: string, i: nat, a: Arc<string>)
    ensures a in g.AdjacentFrom(d, u, i) <==> i <= a.edge && g.Leads(d, a.edge, u, a.node)
    decreases |g.edges| - i
  {
    hide View.Leads, View.ArcsOf;
    if i < |g.edges| {
      ArcsOfCovers(g, d, u, i, a);
      AdjacentFromCovers(g, d, u, i + 1, a);
    } else {
      LeadsInside(g, d, a.edge, u, a.node);
    }
  }

  /** The adjacency list of u holds exactly the arcs that lead out of u: an allowed edge between known nodes, in the query direction. */
  lemma AdjacentCovers(g: View, d: Direction, u: string, a: Arc<string>)
    ensures a in g.Adjacent(d, u) <==> g.Leads(d, a.edge, u, a.node)
    ensures a in g.Adjacent(d, u) <==>
            && a.edge < |g.edges| && (g.allowed == {} || g.edges[a.edge].relation in g.allowed)
            && g.Known(g.edges[a.edge].source) && g.Known(g.edges[a.edge].target)
            && (|| (d in {Out, Both} && g.edges[a.edge].source == u && g.edges[a.edge].target == a.node)
                || (d in {In, Both} && g.edges[a.edge].target == u && g.edges[a.edge].source == a.node))
  {
    hide View.Known;
    AdjacentFromCovers(g, d, u, 0, a);
  }

  /** Arcs come in the order of their edges. */
  ghost predicate InEdgeOrder<N>(s: seq<Arc<N>>) {
    forall j, k :: 0 <= j < k < |s| ==> s[j].edge <= s[k].edge
  }

  lemma {:induction false} AdjacentFromInOrder(g: View, d: Direction, u: string, i: nat)
    ensures InEdgeOrder(g.AdjacentFrom(d, u, i))
    decreases |g.edges| - i
  {
    hide View.ArcsOf, View.Leads;
    if i < |g.edges| {
      AdjacentFromInOrder(g, d, u, i + 1);
      ArcsOfRepeat(g, d, u, i);
      var own, rest := g.ArcsOf(d, u, i), g.AdjacentFrom(d, u, i + 1);
      forall k | 0 <= k < |rest| ensures rest[k].edge > i {
        AdjacentFromCovers(g, d, u, i + 1, rest[k]);
      }
      forall k | 0 <= k < |own| ensures own[k].edge == i {
        assert own[k] in own;
      }
    }
  }

  /** Edge indexes never decrease along an adjacency list. */
  lemma AdjacentInOrder(g: View, d: Direction, u: string)
    ensures InEdgeOrder(g.Adjacent(d, u))
  {
    AdjacentFromInOrder(g, d, u, 0);
  }

  /** An edge leads from one end to one other. */
  lemma LeadsToOne(g: View, d: Direction, i: nat, u: string, v: string, w: string)
    requires g.Leads(d, i, u, v) && g.Leads(d, i, u, w)
    ensures v == w
  {
    hide View.Known;
  }

  /** Arcs that lead away from u never share an edge. */
  ghost predicate RepeatsOnlyLoops<N(!new)>(s: seq<Arc<N>>, u: N) {
    forall j, k :: 0 <= j < k < |s| && s[j].node != u ==> s[j].edge != s[k].edge
  }

  lemma {:induction false} AdjacentFromDistinct(g: View, d: Direction, u: string, i: nat)
    ensures RepeatsOnlyLoops(g.AdjacentFrom(d, u, i), u)
    decreases |g.edges| - i
  {
    hide View.ArcsOf, View.Leads;
    if i < |g.edges| {
      AdjacentFromDistinct(g, d, u, i + 1);
      forall a | a in g.AdjacentFrom(d, u, i + 1) ensures a.edge > i {
        AdjacentFromCovers(g, d, u, i + 1, a);
      }
      ArcsOfRepeat(g, d, u, i);
    }
  }

  lemma ArcsOfRepeat(g: View, d: Direction, u: string, i: nat)
    requires i < |g.edges|
    ensures RepeatsOnlyLoops(g.ArcsOf(d, u, i), u)
    ensures forall a :: a in g.ArcsOf(d, u, i) ==> a.edge == i
  {
  }

  /** Only a self-loop can offer the same edge twice. */
  lemma AdjacentDistinct(g: View, d: Direction, u: string)
    ensures RepeatsOnlyLoops(g.Adjacent(d, u), u)
  {
    AdjacentFromDistinct(g, d, u, 0);
  }

  lemma ReversedArcs(g: View, u: string, i: nat)
    requires i < |g.edges|
    ensures g.ArcsOf(In, u, i) == g.Reversed().ArcsOf(Out, u, i)
  {
    assert g.Reversed().Usable(g.allowed, i) == g.Usable(g.allowed, i);
  }

  lemma {:induction false} ReversedAdjacentFrom(g: View, u: string, i: nat)
    ensures g.AdjacentFrom(In, u, i) == g.Reversed().AdjacentFrom(Out, u, i)
    decreases |g.edges| - i
  {
    hide View.ArcsOf;
    if i < |g.edges| {
      ReversedAdjacentFrom(g, u, i + 1);
      ReversedArcs(g, u, i);
    }
  }

  /** Following edges backwards is following the reversed graph forwards, arc by arc and in the same order. */
  lemma ReversedAdjacent(g: View, u: string)
    ensures g.Adjacent(In, u) == g.Reversed().Adjacent(Out, u)
  {
    ReversedAdjacentFrom(g, u, 0);
  }

  lemma ArcsAreSimple(g: View, d: Direction)
    ensures forall u :: RepeatsOnlyLoops(g.Arcs(d)(u), u)
  {
    hide View.Adjacent, RepeatsOnlyLoops;
    forall u ensures RepeatsOnlyLoops(g.Arcs(d)(u), u) {
      AdjacentDistinct(g, d, u);
    }
  }
}
