/** The query dispatcher and the closing step that turns what a search selected into a subgraph response. */
module GraphQuery {
  import opened Sequences
  import opened GraphView
  import opened GraphNeighbors
  import opened GraphPaths
  import opened GraphAgreement
  import opened GraphMarkers

  datatype Operation = Neighbors | Backlinks | Paths | BySourceRef | ByTag | Other(name: string)

  datatype Request = Request(
    operation: Operation, startNodeId: string, targetNodeId: string, sourceRef: string, tag: string,
    direction: Direction, relationAllowlist: seq<string>, maxDepth: nat, limit: nat)

  datatype QueryPath = QueryPath(nodeIds: seq<string>, edges: seq<GraphEdge>)

  datatype Response = Response(operation: Operation, nodes: seq<GraphNode>, edges: seq<GraphEdge>, paths: seq<QueryPath>)

  datatype Error = MissingArgument | UnknownNode | UnsupportedOperation

  datatype Result = Answer(response: Response) | Failed(error: Error)

  // ---------------------------------------------------------------- what a response means

  ghost predicate InRange(g: View, indexes: seq<nat>) {
    forall j :: 0 <= j < |indexes| ==> indexes[j] < |g.edges|
  }

  ghost predicate AllKnown(g: View, nodeIds: seq<string>) {
    forall j :: 0 <= j < |nodeIds| ==> g.Known(nodeIds[j])
  }

  ghost predicate PathsInRange(g: View, paths: seq<Path<string>>) {
    forall j :: 0 <= j < |paths| ==> InRange(g, paths[j].edges)
  }

  /** The edge indexes, each once, whose endpoints are both among the nodes. */
  function Closed(g: View, nodeIds: seq<string>, indexes: seq<nat>): (r: seq<nat>)
    requires InRange(g, indexes)
    ensures Distinct(r) && InRange(g, r)
    ensures forall e: nat :: e in r <==> e in indexes && e < |g.edges| && g.edges[e].source in nodeIds && g.edges[e].target in nodeIds
  {
    if indexes == [] then []
    else
      var n := |indexes| - 1;
      var e := indexes[n];
      var before := Closed(g, nodeIds, indexes[..n]);
      assert indexes == indexes[..n] + [e];
      if e !in indexes[..n] && g.edges[e].source in nodeIds && g.edges[e].target in nodeIds then before + [e] else before
  }

  /** What closing keeps stays in the order in which it was first selected. */
  lemma {:induction false} ClosedInOrder(g: View, nodeIds: seq<string>, indexes: seq<nat>, i: nat, j: nat)
    requires InRange(g, indexes) && i < j < |Closed(g, nodeIds, indexes)|
    ensures var closed := Closed(g, nodeIds, indexes); MetBefore(indexes, closed[i], closed[j])
    decreases |indexes|
  {
    hide MetBefore, Distinct;
    var n, closed := |indexes| - 1, Closed(g, nodeIds, indexes);
    var before := Closed(g, nodeIds, indexes[..n]);
    MetEarlier(indexes, n, closed[i], closed[j]);
    if j < |before| {
      ClosedInOrder(g, nodeIds, indexes[..n], i, j);
    } else {
      assert before[i] in before && closed[i] == before[i];
    }
  }

  function EdgesAt(g: View, indexes: seq<nat>): seq<GraphEdge>
    requires InRange(g, indexes)
  {
    seq(|indexes|, j requires 0 <= j < |indexes| => g.edges[indexes[j]])
  }

  function NodesAt(g: View, nodeIds: seq<string>): seq<GraphNode>
    requires AllKnown(g, nodeIds)
  {
    seq(|nodeIds|, j requires 0 <= j < |nodeIds| => g.NodeById(nodeIds[j]))
  }

  function PathsAt(g: View, paths: seq<Path<string>>): seq<QueryPath>
    requires PathsInRange(g, paths)
  {
    seq(|paths|, j requires 0 <= j < |paths| => QueryPath(paths[j].nodes, EdgesAt(g, paths[j].edges)))
  }

  /** A duplicate-free list of known nodes with edges from distinct indexes, all between returned nodes, at most `limit` of them. */
  ghost predicate IsSubgraph(g: View, limit: nat, r: Response) {
    && (forall i, j :: 0 <= i < j < |r.nodes| ==> r.nodes[i].id != r.nodes[j].id)
    && (forall node :: node in r.nodes ==> g.Known(node.id) && g.NodeById(node.id) == node)
    && |r.edges| <= limit
    && exists indexes: seq<nat> ::
         && Distinct(indexes) && |indexes| == |r.edges|
         && forall j :: 0 <= j < |indexes| ==>
              && indexes[j] < |g.edges| && r.edges[j] == g.edges[indexes[j]]
              && (exists node :: node in r.nodes && node.id == r.edges[j].source)
              && (exists node :: node in r.nodes && node.id == r.edges[j].target)
  }

  /** The response built from the selected nodes, edge indexes and paths. */
  ghost predicate Answers(g: View, request: Request, r: Response, nodeIds: seq<string>, indexes: seq<nat>, paths: seq<Path<string>>) {
    && AllKnown(g, nodeIds) && InRange(g, indexes) && PathsInRange(g, paths)
    && r.operation == request.operation
    && r.nodes == NodesAt(g, nodeIds)
    && r.edges == Take(EdgesAt(g, Closed(g, nodeIds, indexes)), request.limit)
    && r.paths == PathsAt(g, paths)
  }

  lemma AnswerIsSubgraph(g: View, request: Request, r: Response, nodeIds: seq<string>, indexes: seq<nat>, paths: seq<Path<string>>)
    requires Answers(g, request, r, nodeIds, indexes, paths) && Distinct(nodeIds)
    ensures IsSubgraph(g, request.limit, r)
  {
    hide View.NodeById, View.Known, Closed;
    var closed := Closed(g, nodeIds, indexes);
    var used := Take(closed, request.limit);
    forall j | 0 <= j < |r.nodes| ensures r.nodes[j] == g.NodeById(nodeIds[j]) && r.nodes[j].id == nodeIds[j] {
      assert nodeIds[j] in nodeIds;
    }
    forall node | node in r.nodes ensures g.Known(node.id) && g.NodeById(node.id) == node {
      var j :| 0 <= j < |r.nodes| && r.nodes[j] == node;
    }
    forall j | 0 <= j < |used|
      ensures used[j] < |g.edges| && r.edges[j] == g.edges[used[j]]
      ensures exists node :: node in r.nodes && node.id == r.edges[j].source
      ensures exists node :: node in r.nodes && node.id == r.edges[j].target
    {
      assert closed[j] in closed;
    }
    assert Distinct(used) && |used| == |r.edges|;
  }

  // ---------------------------------------------------------------- searches stay inside the graph

  lemma {:induction false} OrderKnown(g: View, d: Direction, s: string, k: nat, v: string)
    requires g.Known(s) && Within(g.Arcs(d), s, v, k)
    ensures g.Known(v)
    decreases k
  {
    hide View.Adjacent, View.Known;
    if k > 0 {
      if Within(g.Arcs(d), s, v, k - 1) {
        OrderKnown(g, d, s, k - 1, v);
      } else {
        var u :| Within(g.Arcs(d), s, u, k - 1) && Step(g.Arcs(d), u, v);
        StepIsLeads(g, d, u, v);
      }
    }
  }

  lemma SearchStaysInside(g: View, d: Direction, s: string, maxDepth: nat, limit: nat, p: nat)
    requires g.Known(s) && limit >= 1 && ShortestScan(s, Scanned(g.Arcs(d), s, maxDepth), limit, p)
    ensures var arcs := Scanned(g.Arcs(d), s, maxDepth)[..p];
            && Distinct(Discover([s], arcs))
            && AllKnown(g, Discover([s], arcs))
            && InRange(g, EdgesUsed(arcs))
  {
    hide View.Adjacent, View.Known, View.Leads, Discover, EdgesUsed, Scanned, Within, Order, ShortestScan, Stream;
    var adj := g.Arcs(d);
    var all := Scanned(adj, s, maxDepth);
    ScanBounds(s, all, limit, p);
    var arcs := all[..p];
    SingletonDistinct(s);
    DiscoverKeeps([s], arcs);
    DiscoverPrefix([s], arcs, all);
    ScanGivesOrder(adj, s, maxDepth);
    forall v | v in Discover([s], arcs) ensures g.Known(v) {
      assert v in Order(adj, s, maxDepth);
      OrderIsBall(adj, s, maxDepth, v);
      OrderKnown(g, d, s, maxDepth, v);
    }
    forall j | 0 <= j < |EdgesUsed(arcs)| ensures EdgesUsed(arcs)[j] < |g.edges| {
      var e := EdgesUsed(arcs)[j];
      EdgesUsedMembers(arcs, e);
      var a :| a in arcs && a.edge == e;
      ScannedArc(g, d, s, maxDepth, a);
    }
  }

  lemma ScanBounds(s: string, arcs: seq<Arc<string>>, limit: nat, p: nat)
    requires ShortestScan(s, arcs, limit, p)
    ensures p <= |arcs|
  {
  }

  lemma ScannedArc(g: View, d: Direction, s: string, maxDepth: nat, a: Arc<string>)
    requires a in Scanned(g.Arcs(d), s, maxDepth)
    ensures a.edge < |g.edges|
  {
    hide View.Adjacent, Order, Stream;
    var near := Order(g.Arcs(d), s, maxDepth - 1);
    StreamMembers(g.Arcs(d), near, a);
    var u :| u in near && a in g.Arcs(d)(u);
    AdjacentCovers(g, d, u, a);
  }

  lemma WalkEdgesInRange(g: View, d: Direction, s: string, p: Path<string>)
    requires IsWalk(g.Arcs(d), s, p)
    ensures InRange(g, p.edges)
  {
    hide View.Adjacent;
    forall k | 0 <= k < |p.edges| ensures p.edges[k] < |g.edges| {
      AdjacentCovers(g, d, p.nodes[k], Arc(p.edges[k], p.nodes[k + 1]));
    }
  }

  lemma WalkNodesKnown(g: View, d: Direction, s: string, p: Path<string>)
    requires g.Known(s) && IsWalk(g.Arcs(d), s, p)
    ensures forall v :: v in p.nodes ==> g.Known(v)
  {
    hide View.Adjacent, View.Known, IsWalk, Within;
    forall v | v in p.nodes ensures g.Known(v) {
      var k :| 0 <= k < |p.nodes| && p.nodes[k] == v;
      WalkWithin(g.Arcs(d), s, p, k);
      OrderKnown(g, d, s, k, v);
    }
  }

  lemma PathsStayInside(g: View, d: Direction, s: string, t: string, maxDepth: nat, paths: seq<Path<string>>)
    requires g.Known(s) && s != t && paths <= AllPaths(g.Arcs(d), s, t, maxDepth)
    ensures PathsInRange(g, paths) && AllKnown(g, NodesOn(paths)) && InRange(g, EdgesOn(paths))
    ensures Distinct(NodesOn(paths))
  {
    hide View.Adjacent, View.Known, AllPaths, NodesOn, EdgesOn, IsWalk, Distinct;
    forall p | p in paths
      ensures InRange(g, p.edges) && (forall v :: v in p.nodes ==> g.Known(v))
    {
      var j :| 0 <= j < |paths| && paths[j] == p;
      assert AllPaths(g.Arcs(d), s, t, maxDepth)[j] == p;
      AllPathsMembers(g.Arcs(d), s, t, maxDepth, p);
      WalkEdgesInRange(g, d, s, p);
      WalkNodesKnown(g, d, s, p);
    }
    NodesOnMembers(paths);
    EdgesOnMembers(paths);
    forall j | 0 <= j < |NodesOn(paths)| ensures g.Known(NodesOn(paths)[j]) {
      var v := NodesOn(paths)[j];
      assert v in NodesOn(paths);
      var p :| p in paths && v in p.nodes;
    }
    forall j | 0 <= j < |EdgesOn(paths)| ensures EdgesOn(paths)[j] < |g.edges| {
      var e := EdgesOn(paths)[j];
      assert e in EdgesOn(paths);
      var p :| p in paths && e in p.edges;
    }
  }

  lemma LookupStaysInside(g: View, relation: string, markers: seq<string>, p: nat)
    requires AllKnown(g, markers)
    requires p <= |Marks(g, relation, markers)|
    ensures var steps := Marks(g, relation, markers)[..p];
            && Distinct(Listed(steps))
            && AllKnown(g, Listed(steps))
            && InRange(g, EdgesMet(steps))
  {
    hide Marks, MarksOf, Listed, EdgesMet, View.Known, Distinct;
    var all := Marks(g, relation, markers);
    var steps := all[..p];
    ListedLaws(steps);
    forall m | m in steps ensures g.Known(m.node) && (m.viaEdge ==> m.edge < |g.edges|) {
      MarksMembers(g, relation, markers, m);
      var marker :| marker in markers && m in MarksOf(g, relation, marker);
      MarksOfMembers(g, relation, marker, m);
    }
    forall v | v in Listed(steps) ensures g.Known(v) {
      var j :| 0 <= j < |NodesIn(steps)| && NodesIn(steps)[j] == v;
      assert steps[j] in steps;
    }
    forall j | 0 <= j < |EdgesMet(steps)| ensures EdgesMet(steps)[j] < |g.edges| {
      EdgesMetMembers(steps, EdgesMet(steps)[j]);
    }
  }

  // ---------------------------------------------------------------- the closing step

  method Respond(g: View, request: Request, nodeIds: seq<string>, indexes: seq<nat>, paths: seq<Path<string>>) returns (r: Response)
    requires AllKnown(g, nodeIds)
    requires InRange(g, indexes)
    requires PathsInRange(g, paths)
    ensures Answers(g, request, r, nodeIds, indexes, paths)
  {
    hide View.Known, View.NodeById;
    var nodeIdSet := set id | id in nodeIds;
    var closed: seq<GraphEdge> := [];
    var seen: set<nat> := {};
    assert indexes[..0] == [];
    for i := 0 to |indexes|
      invariant seen == set e | e in indexes[..i]
      invariant closed == EdgesAt(g, Closed(g, nodeIds, indexes[..i]))
    {
      assert indexes[..i + 1][..i] == indexes[..i];
      assert indexes[..i + 1] == indexes[..i] + [indexes[i]];
      var e := indexes[i];
      assert e in indexes;
      if e in seen {
        continue;
      }
      seen := seen + {e};
      if g.edges[e].source in nodeIdSet && g.edges[e].target in nodeIdSet {
        closed := closed + [g.edges[e]];
      }
    }
    assert indexes[..|indexes|] == indexes;
    r := Response(request.operation, NodesAt(g, nodeIds), Take(closed, request.limit), PathsAt(g, paths));
  }

  // ---------------------------------------------------------------- the dispatcher

  function ViewFor(nodes: seq<GraphNode>, edges: seq<GraphEdge>, allowlist: seq<string>): View {
    View(nodes, edges, set r | r in allowlist)
  }

  ghost predicate NeighborsAnswer(g: View, request: Request, d: Direction, r: Result) {
    if request.startNodeId == "" then r == Failed(MissingArgument)
    else if !g.Known(request.startNodeId) then r == Failed(UnknownNode)
    else
      && r.Answer?
      && exists p: nat :: NeighborsFrom(g, request, request.startNodeId, Scanned(g.Arcs(d), request.startNodeId, request.maxDepth), p, r.response)
  }

  ghost predicate NeighborsFrom(g: View, request: Request, s: string, arcs: seq<Arc<string>>, p: nat, r: Response) {
    ShortestScan(s, arcs, request.limit, p) && Answers(g, request, r, Discover([s], arcs[..p]), EdgesUsed(arcs[..p]), [])
  }

  method NeighborsQuery(g: View, request: Request, d: Direction) returns (r: Result)
    requires request.limit >= 1
    ensures NeighborsAnswer(g, request, d, r)
    ensures r.Answer? ==> IsSubgraph(g, request.limit, r.response) && |r.response.nodes| <= request.limit
  {
    hide View.Adjacent, View.Known, View.NodeById, Discover, EdgesUsed, Scanned, Distinct, IsSubgraph, Closed;
    var s := request.startNodeId;
    if s == "" {
      return Failed(MissingArgument);
    }
    if !g.Known(s) {
      return Failed(UnknownNode);
    }
    var nodes, edges := Search(g.Arcs(d), s, request.maxDepth, request.limit);
    ghost var p: nat :| Found(s, Scanned(g.Arcs(d), s, request.maxDepth), request.limit, p, nodes, edges);
    SearchStaysInside(g, d, s, request.maxDepth, request.limit, p);
    LimitTruncates(s, Scanned(g.Arcs(d), s, request.maxDepth), request.limit, p);
    var response := Respond(g, request, nodes, edges, []);
    AnswerIsSubgraph(g, request, response, nodes, edges, []);
    assert NeighborsFrom(g, request, s, Scanned(g.Arcs(d), s, request.maxDepth), p, response);
    r := Answer(response);
  }

  ghost predicate PathsAnswer(g: View, request: Request, r: Result) {
    if request.startNodeId == "" || request.targetNodeId == "" then r == Failed(MissingArgument)
    else if !g.Known(request.startNodeId) || !g.Known(request.targetNodeId) then r == Failed(UnknownNode)
    else
      && r.Answer?
      && var listed := if request.startNodeId == request.targetNodeId then [Path([request.startNodeId], [])]
                       else Take(AllPaths(g.Arcs(request.direction), request.startNodeId, request.targetNodeId, request.maxDepth), request.limit);
      Answers(g, request, r.response, NodesOn(listed), EdgesOn(listed), listed)
  }

  method PathsQuery(g: View, request: Request) returns (r: Result)
    requires request.limit >= 1
    ensures PathsAnswer(g, request, r)
    ensures r.Answer? ==> IsSubgraph(g, request.limit, r.response) && |r.response.paths| <= request.limit
  {
    hide View.Adjacent, View.Known, View.NodeById, AllPaths, NodesOn, EdgesOn, Distinct, IsSubgraph, Closed;
    var s, t := request.startNodeId, request.targetNodeId;
    if s == "" || t == "" {
      return Failed(MissingArgument);
    }
    if !g.Known(s) || !g.Known(t) {
      return Failed(UnknownNode);
    }
    if s == t {
      TrivialPath(s);
      SingletonDistinct(s);
      var trivial := Respond(g, request, [s], [], [Path([s], [])]);
      AnswerIsSubgraph(g, request, trivial, [s], [], [Path([s], [])]);
      return Answer(trivial);
    }
    ArcsAreSimple(g, request.direction);
    var paths, nodes, edges := ListPaths(g.Arcs(request.direction), s, t, request.maxDepth, request.limit);
    PathsStayInside(g, request.direction, s, t, request.maxDepth, paths);
    var response := Respond(g, request, nodes, edges, paths);
    AnswerIsSubgraph(g, request, response, nodes, edges, paths);
    r := Answer(response);
  }

  lemma TrivialPath(s: string)
    ensures NodesOn([Path([s], [])]) == [s] && EdgesOn([Path([s], [])]) == []
  {
    var p: Path<string> := Path([s], []);
    var none: seq<string> := [];
    assert [p][..0] == [] && [s][..0] == none;
    assert AddNew(none, [s]) == [s];
    assert NodesOn([p]) == AddNew(NodesOn([p][..0]), p.nodes);
  }

  ghost predicate MarkerAnswer(g: View, request: Request, value: string, kind: string, prefix: string, relation: string, r: Result) {
    if value == "" then r == Failed(MissingArgument)
    else
      && r.Answer?
      && exists p: nat :: MarkersFrom(g, request, Marks(g, relation, MatchMarkerIds(g.nodes, value, kind, prefix)), p, r.response)
  }

  ghost predicate MarkersFrom(g: View, request: Request, steps: seq<Mark>, p: nat, r: Response) {
    StopsAt(steps, request.limit, p) && Answers(g, request, r, Listed(steps[..p]), EdgesMet(steps[..p]), [])
  }

  method MarkerQuery(g: View, request: Request, value: string, kind: string, prefix: string, relation: string) returns (r: Result)
    requires request.limit >= 1
    ensures MarkerAnswer(g, request, value, kind, prefix, relation, r)
    ensures r.Answer? ==> IsSubgraph(g, request.limit, r.response) && |r.response.nodes| <= request.limit + 1
  {
    hide View.Known, View.NodeById, Marks, Listed, EdgesMet, Distinct, IsSubgraph, Closed, MatchMarkerIds;
    if value == "" {
      return Failed(MissingArgument);
    }
    var markers := MatchMarkerIds(g.nodes, value, kind, prefix);
    var nodes, edges := Lookup(g, relation, markers, request.limit);
    ghost var p: nat :| Collected(Marks(g, relation, markers), request.limit, p, nodes, edges);
    MarkersKnown(g, value, kind, prefix);
    LookupStaysInside(g, relation, markers, p);
    MarksChecked(g, relation, markers);
    AtMostOneOver(Marks(g, relation, markers), request.limit, p);
    var response := Respond(g, request, nodes, edges, []);
    AnswerIsSubgraph(g, request, response, nodes, edges, []);
    assert MarkersFrom(g, request, Marks(g, relation, markers), p, response);
    r := Answer(response);
  }

  lemma MarkersKnown(g: View, value: string, kind: string, prefix: string)
    ensures AllKnown(g, MatchMarkerIds(g.nodes, value, kind, prefix))
  {
    forall id | id in MatchMarkerIds(g.nodes, value, kind, prefix) ensures g.Known(id) {
      var node :| node in g.nodes && node.id == id && IsMarker(node, value, kind, prefix);
      var k :| 0 <= k < |g.nodes| && g.nodes[k] == node;
    }
  }

  // ---------------------------------------------------------------- what the answers say

  function IdsOf(nodes: seq<GraphNode>): seq<string> {
    seq(|nodes|, j requires 0 <= j < |nodes| => nodes[j].id)
  }

  /** Closing drops nothing from distinct edges that run between the selected nodes. */
  lemma {:induction false} ClosedKeepsAll(g: View, nodeIds: seq<string>, indexes: seq<nat>)
    requires InRange(g, indexes) && Distinct(indexes)
    requires forall j :: 0 <= j < |indexes| ==> g.edges[indexes[j]].source in nodeIds && g.edges[indexes[j]].target in nodeIds
    ensures Closed(g, nodeIds, indexes) == indexes
    decreases |indexes|
  {
    if indexes != [] {
      var n := |indexes| - 1;
      ClosedKeepsAll(g, nodeIds, indexes[..n]);
      assert indexes == indexes[..n] + [indexes[n]];
    }
  }

  /**
   The node list is the first `limit` nodes of the unbounded order; and when it is shorter than the limit,
   the edges are, up to the limit, all edges the unbounded search uses.
   */
  lemma NeighborsMeaning(g: View, request: Request, d: Direction, s: string, p: nat, r: Response)
    requires request.limit >= 1 && g.Known(s)
    requires NeighborsFrom(g, request, s, Scanned(g.Arcs(d), s, request.maxDepth), p, r)
    ensures IdsOf(r.nodes) == Take(Order(g.Arcs(d), s, request.maxDepth), request.limit)
    ensures |r.nodes| < request.limit ==>
              InRange(g, EdgesUsed(Scanned(g.Arcs(d), s, request.maxDepth)))
              && r.edges == Take(EdgesAt(g, EdgesUsed(Scanned(g.Arcs(d), s, request.maxDepth))), request.limit)
  {
    hide View.Adjacent, View.Known, View.NodeById, View.Leads, Discover, EdgesUsed, Scanned, Order, Closed, Within, ShortestScan;
    var adj := g.Arcs(d);
    var all := Scanned(adj, s, request.maxDepth);
    ScanBounds(s, all, request.limit, p);
    LimitTruncates(s, all, request.limit, p);
    ScanGivesOrder(adj, s, request.maxDepth);
    var nodeIds := Discover([s], all[..p]);
    assert IdsOf(r.nodes) == nodeIds;
    if |r.nodes| < request.limit {
      assert all[..p] == all;
      var used := EdgesUsed(all);
      forall j | 0 <= j < |used| ensures g.edges[used[j]].source in nodeIds && g.edges[used[j]].target in nodeIds {
        UsedEdgeInside(g, d, s, request.maxDepth, used[j]);
      }
      EdgesUsedMembers(all, 0);
      ClosedKeepsAll(g, nodeIds, used);
    }
  }

  lemma UsedEdgeInside(g: View, d: Direction, s: string, maxDepth: nat, e: nat)
    requires e in EdgesUsed(Scanned(g.Arcs(d), s, maxDepth))
    ensures e < |g.edges|
    ensures g.edges[e].source in Order(g.Arcs(d), s, maxDepth) && g.edges[e].target in Order(g.Arcs(d), s, maxDepth)
  {
    hide View.Adjacent, View.Known, View.Usable, EdgesUsed, Scanned, Order, Step;
    var adj := g.Arcs(d);
    UntruncatedEdges(adj, s, maxDepth, e);
    var u, v :| Within(adj, s, u, maxDepth - 1) && Arc(e, v) in adj(u);
    AdjacentCovers(g, d, u, Arc(e, v));
    ArcInGraph(g, d, u, Arc(e, v));
    OrderIsBall(adj, s, maxDepth, u);
    OrderIsBall(adj, s, maxDepth, v);
  }

  lemma ArcInGraph(g: View, d: Direction, u: string, a: Arc<string>)
    requires a in g.Arcs(d)(u) && g.Leads(d, a.edge, u, a.node)
    ensures Step(g.Arcs(d), u, a.node) && a.edge < |g.edges|
  {
  }

  /** A paths answer returns all edges of the listed paths, up to the limit. */
  lemma PathsMeaning(g: View, d: Direction, s: string, t: string, maxDepth: nat, listed: seq<Path<string>>)
    requires g.Known(s) && s != t && listed <= AllPaths(g.Arcs(d), s, t, maxDepth)
    ensures InRange(g, EdgesOn(listed))
    ensures Closed(g, NodesOn(listed), EdgesOn(listed)) == EdgesOn(listed)
  {
    hide View.Adjacent, View.Known, View.Usable, AllPaths, NodesOn, EdgesOn, Closed, Distinct;
    PathsStayInside(g, d, s, t, maxDepth, listed);
    NodesOnMembers(listed);
    EdgesOnMembers(listed);
    forall j | 0 <= j < |EdgesOn(listed)|
      ensures g.edges[EdgesOn(listed)[j]].source in NodesOn(listed) && g.edges[EdgesOn(listed)[j]].target in NodesOn(listed)
    {
      var e := EdgesOn(listed)[j];
      assert e in EdgesOn(listed);
      var p :| p in listed && e in p.edges;
      var i :| 0 <= i < |listed| && listed[i] == p;
      assert AllPaths(g.Arcs(d), s, t, maxDepth)[i] == p;
      AllPathsMembers(g.Arcs(d), s, t, maxDepth, p);
      var k :| 0 <= k < |p.edges| && p.edges[k] == e;
      AdjacentCovers(g, d, p.nodes[k], Arc(e, p.nodes[k + 1]));
    }
    ClosedKeepsAll(g, NodesOn(listed), EdgesOn(listed));
  }

  /** Every answer is a well-formed subgraph, and each operation answers as its own search specifies. */
  method Query(nodes: seq<GraphNode>, edges: seq<GraphEdge>, request: Request) returns (r: Result)
    requires request.limit >= 1
    ensures r.Answer? ==> IsSubgraph(ViewFor(nodes, edges, request.relationAllowlist), request.limit, r.response)
    ensures r.Answer? ==> |r.response.nodes| <= request.limit + 1 || request.operation == Paths
    ensures var g := ViewFor(nodes, edges, request.relationAllowlist);
            match request.operation
            case Neighbors => NeighborsAnswer(g, request, request.direction, r)
            case Backlinks => NeighborsAnswer(g, request, In, r)
            case Paths => PathsAnswer(g, request, r)
            case BySourceRef => MarkerAnswer(g, request, request.sourceRef, "source_ref", "source:", "cites", r)
            case ByTag => MarkerAnswer(g, request, request.tag, "tag", "tag:", "tagged", r)
            case Other(_) => r == Failed(UnsupportedOperation)
  {
    hide NeighborsAnswer, PathsAnswer, MarkerAnswer, IsSubgraph;
    var g := ViewFor(nodes, edges, request.relationAllowlist);
    match request.operation {
      case Neighbors => r := NeighborsQuery(g, request, request.direction);
      case Backlinks => r := NeighborsQuery(g, request, In);
      case Paths => r := PathsQuery(g, request);
      case BySourceRef => r := MarkerQuery(g, request, request.sourceRef, "source_ref", "source:", "cites");
      case ByTag => r := MarkerQuery(g, request, request.tag, "tag", "tag:", "tagged");
      case Other(_) => r := Failed(UnsupportedOperation);
    }
  }
}
