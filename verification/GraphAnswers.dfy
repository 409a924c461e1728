/** What the responses hold, said in terms of the graph alone, and how the responses to different queries agree. */
module GraphAnswers {
  import opened Sequences
  import opened GraphView
  import opened GraphNeighbors
  import opened GraphPaths
  import opened GraphMarkers
  import opened GraphMarkerLimit
  import opened GraphAgreement
  import opened GraphQuery

  // ---------------------------------------------------------------- marker lookups

  /** A step that came by an edge lists the source of that edge, and an earlier step has listed its target. */
  lemma {:induction false} EdgeStep(g: View, relation: string, markers: seq<string>, j: nat) returns (i: nat)
    requires j < |Marks(g, relation, markers)| && Marks(g, relation, markers)[j].viaEdge
    ensures var all := Marks(g, relation, markers);
            && i < j && all[j].edge < |g.edges|
            && all[i].node == g.edges[all[j].edge].target && all[j].node == g.edges[all[j].edge].source
    decreases |markers|
  {
    hide PointingEdges, View.Known;
    var n := |markers| - 1;
    var before, own := Marks(g, relation, markers[..n]), MarksOf(g, relation, markers[n]);
    if j < |before| {
      i := EdgeStep(g, relation, markers[..n], j);
    } else {
      i := |before|;
      var es := PointingEdges(g, relation, markers[n], |g.edges|);
      assert own[j - i] == EdgeMarks(g, es)[j - i - 1];
      assert es[j - i - 1] in es;
    }
  }

  /** The closing step of a lookup, truncated or not, drops nothing but repeated edge indexes. */
  lemma LookupEdgesKept(g: View, relation: string, markers: seq<string>, p: nat, e: nat)
    requires p <= |Marks(g, relation, markers)| && InRange(g, EdgesMet(Marks(g, relation, markers)[..p]))
    ensures var steps := Marks(g, relation, markers)[..p];
            e in Closed(g, Listed(steps), EdgesMet(steps)) <==> e in EdgesMet(steps)
  {
    hide Marks, MarksOf, Listed, EdgesMet, Closed;
    var all := Marks(g, relation, markers);
    var steps := all[..p];
    EdgesMetMembers(steps, e);
    ListedLaws(steps);
    if e in EdgesMet(steps) {
      var m :| m in steps && m.viaEdge && m.edge == e;
      var j :| 0 <= j < p && steps[j] == m;
      var i := EdgeStep(g, relation, markers, j);
      assert steps[i] == all[i] && steps[j] == all[j];
      NodeListed(steps, steps[i]);
      NodeListed(steps, steps[j]);
    }
  }

  /** Below the limit a lookup answers with exactly the markers and the nodes that point at one, and exactly those edges. */
  lemma MarkerMeaning(g: View, request: Request, relation: string, markers: seq<string>, p: nat, r: Response) returns (used: seq<nat>)
    requires request.limit >= 1 && MarkersFrom(g, request, Marks(g, relation, markers), p, r)
    requires |r.nodes| < request.limit
    ensures forall v :: v in IdsOf(r.nodes) <==>
              v in markers || exists e: nat, marker :: marker in markers && PointsFrom(g, relation, e, v, marker)
    ensures Distinct(used) && InRange(g, used) && r.edges == Take(EdgesAt(g, used), request.limit)
    ensures forall e: nat :: e in used <==> exists marker :: marker in markers && Points(g, relation, e, marker)
  {
    hide Marks, MarksOf, Listed, EdgesMet, Closed, View.Known, View.NodeById, Points;
    var all := Marks(g, relation, markers);
    MarksChecked(g, relation, markers);
    AtMostOneOver(all, request.limit, p);
    assert all[..p] == all;
    used := Closed(g, Listed(all), EdgesMet(all));
    assert IdsOf(r.nodes) == Listed(all);
    forall v ensures v in Listed(all) <==>
        v in markers || exists e: nat, marker :: marker in markers && PointsFrom(g, relation, e, v, marker)
    {
      UntruncatedNodes(g, relation, markers, v);
    }
    forall e: nat ensures e in used <==> exists marker :: marker in markers && Points(g, relation, e, marker) {
      LookupEdgesKept(g, relation, markers, p, e);
      UntruncatedMarkerEdges(g, relation, markers, e);
    }
  }

  /** An answer exceeds its limit exactly when some marker fills the last slot and is pointed at by a node not listed yet. */
  lemma AnswerOverLimit(g: View, request: Request, relation: string, markers: seq<string>, p: nat, r: Response)
    requires request.limit >= 1 && MarkersFrom(g, request, Marks(g, relation, markers), p, r)
    ensures |r.nodes| > request.limit <==> exists k: nat :: Overflows(g, relation, markers, request.limit, k)
    ensures |r.nodes| > request.limit ==> |r.nodes| == request.limit + 1
  {
    hide Marks, Listed, EdgesMet, Closed, Overflows, View.Known, View.NodeById;
    MarksChecked(g, relation, markers);
    AtMostOneOver(Marks(g, relation, markers), request.limit, p);
    OneOverOnGraph(g, relation, markers, request.limit, p);
  }

  /** Whatever the limit and the filter: looking the crowded tag up by its label answers with limit + 1 nodes. */
  lemma CrowdAnswer(request: Request, r: Result)
    requires request.limit >= 1 && request.tag == "v"
    requires MarkerAnswer(Crowd(request.limit, set x | x in request.relationAllowlist), request, request.tag, "tag", "tag:", "tagged", r)
    ensures r.Answer? && |r.response.nodes| == request.limit + 1
  {
    hide Marks, Listed, EdgesMet, Closed, View.Known, View.NodeById, Crowd, StopsAt, MatchMarkerIds;
    var allowed := set x | x in request.relationAllowlist;
    var steps := CrowdSteps(request.limit, allowed);
    var p := OneOverIsReached(request.limit, allowed);
    var q: nat :| MarkersFrom(Crowd(request.limit, allowed), request, steps, q, r.response);
    assert q == p;
  }

  // ---------------------------------------------------------------- backlinks

  function Flipped(e: GraphEdge): GraphEdge {
    GraphEdge(e.target, e.source, e.relation)
  }

  lemma {:induction false} ClosedReversed(g: View, nodeIds: seq<string>, indexes: seq<nat>)
    requires InRange(g, indexes)
    ensures InRange(g.Reversed(), indexes) && Closed(g, nodeIds, indexes) == Closed(g.Reversed(), nodeIds, indexes)
    decreases |indexes|
  {
    if indexes != [] {
      ClosedReversed(g, nodeIds, indexes[..|indexes| - 1]);
    }
  }

  lemma NodeByIdReversed(g: View, id: string)
    requires g.Known(id)
    ensures g.Reversed().Known(id) && g.NodeById(id) == g.Reversed().NodeById(id)
  {
    var k :| 0 <= k < |g.nodes| && g.nodes[k].id == id;
    assert g.Reversed().nodes[k].id == id;
  }

  /**
   Backlinks on a graph, and forward neighbours on the graph with every edge turned round: the same nodes in the same
   order, and the same edges turned round.
   */
  lemma BacklinksAnswer(g: View, request: Request, forward: Request, r: Response, f: Response)
    requires request.limit >= 1 && forward.limit == request.limit
    requires forward.startNodeId == request.startNodeId && forward.maxDepth == request.maxDepth
    requires NeighborsAnswer(g, request, In, Answer(r)) && NeighborsAnswer(g.Reversed(), forward, Out, Answer(f))
    ensures r.nodes == f.nodes && |r.edges| == |f.edges|
    ensures forall j :: 0 <= j < |r.edges| ==> f.edges[j] == Flipped(r.edges[j])
  {
    hide View.Known, View.NodeById, View.Adjacent, Closed, Discover, EdgesUsed, Scanned, ShortestScan;
    var s, k := request.startNodeId, request.maxDepth;
    var p: nat :| NeighborsFrom(g, request, s, Scanned(g.Arcs(In), s, k), p, r);
    var q: nat :| NeighborsFrom(g.Reversed(), forward, s, Scanned(g.Reversed().Arcs(Out), s, k), q, f);
    ScanBounds(s, Scanned(g.Arcs(In), s, k), request.limit, p);
    ScanBounds(s, Scanned(g.Reversed().Arcs(Out), s, k), request.limit, q);
    BacklinksAreReversedNeighbors(g, s, k, request.limit, p, q);
    var nodeIds, indexes := Discover([s], Scanned(g.Arcs(In), s, k)[..p]), EdgesUsed(Scanned(g.Arcs(In), s, k)[..p]);
    ClosedReversed(g, nodeIds, indexes);
    forall j | 0 <= j < |nodeIds| ensures r.nodes[j] == f.nodes[j] {
      assert nodeIds[j] in nodeIds;
      NodeByIdReversed(g, nodeIds[j]);
    }
  }

  // ---------------------------------------------------------------- neighbours and paths

  /**
   Of two answers to the same depth and direction: a node that the neighbours answer holds is the target of some listed
   path, and the other way round if the neighbours answer is below its limit.
   */
  lemma NeighborsAgreeWithPaths(g: View, near: Request, far: Request, r: Response, f: Response)
    requires near.limit >= 1 && far.limit >= 1
    requires near.startNodeId == far.startNodeId != far.targetNodeId && near.maxDepth == far.maxDepth
    requires NeighborsAnswer(g, near, far.direction, Answer(r)) && PathsAnswer(g, far, Answer(f))
    ensures far.targetNodeId in IdsOf(r.nodes) ==> f.paths != []
    ensures |r.nodes| < near.limit ==> (far.targetNodeId in IdsOf(r.nodes) <==> f.paths != [])
  {
    hide View.Known, View.NodeById, View.Adjacent, Closed, Discover, EdgesUsed, Scanned, ShortestScan, Order, AllPaths, NodesOn, EdgesOn;
    var s, t, adj := near.startNodeId, far.targetNodeId, g.Arcs(far.direction);
    var p: nat :| NeighborsFrom(g, near, s, Scanned(adj, s, near.maxDepth), p, r);
    NeighborsMeaning(g, near, far.direction, s, p, r);
    SearchesAgree(adj, s, t, near.maxDepth);
    var all := AllPaths(adj, s, t, near.maxDepth);
    assert |f.paths| == |Take(all, far.limit)|;
  }
}
