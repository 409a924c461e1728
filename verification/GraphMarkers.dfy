/**
 The lookups by source reference and by tag: find the marker nodes, then collect the nodes that point at them.
 The loop checks its limit only after an edge (or after a marker without edges), which is what the
 step list and its check points make explicit.
 */
module GraphMarkers {
  import opened Sequences
  import opened GraphView

  // ---------------------------------------------------------------- which nodes are markers

  /** A node stands for the value if it has the kind and its id or its label names the value. */
  ghost predicate IsMarker(node: GraphNode, value: string, kind: string, prefix: string) {
    && node.kind == kind
    && (node.id == value || node.labelText == value || (!(prefix <= value) && node.id == prefix + value))
  }

  function MatchMarkerIds(nodes: seq<GraphNode>, value: string, kind: string, prefix: string): (ids: seq<string>)
    ensures forall id :: id in ids <==> exists node :: node in nodes && node.id == id && IsMarker(node, value, kind, prefix)
  {
    if nodes == [] then []
    else
      var candidates := {value} + (if prefix <= value then {} else {prefix + value});
      var node := nodes[|nodes| - 1];
      var before := MatchMarkerIds(nodes[..|nodes| - 1], value, kind, prefix);
      assert nodes == nodes[..|nodes| - 1] + [node];
      if node.kind == kind && (node.id in candidates || node.labelText == value) then before + [node.id] else before
  }

  // ---------------------------------------------------------------- the steps of the lookup

  /** One step: list a node, maybe with the edge it came by; `check` marks a point where the limit is looked at. */
  datatype Mark = Mark(node: string, viaEdge: bool, edge: nat, check: bool)

  predicate Points(g: View, relation: string, i: nat, marker: string) {
    g.Usable({relation}, i) && g.edges[i].target == marker
  }

  /** Edge e leads from source to marker by the relation. */
  ghost predicate PointsFrom(g: View, relation: string, e: nat, source: string, marker: string) {
    Points(g, relation, e, marker) && g.edges[e].source == source
  }

  /** The edges of the relation among the first n that end at the marker. */
  function PointingEdges(g: View, relation: string, marker: string, n: nat): (es: seq<nat>)
    requires n <= |g.edges|
    ensures |es| <= n
    ensures forall e: nat :: e in es <==> e < n && Points(g, relation, e, marker)
  {
    if n == 0 then []
    else if Points(g, relation, n - 1, marker) then PointingEdges(g, relation, marker, n - 1) + [n - 1]
    else PointingEdges(g, relation, marker, n - 1)
  }

  function EdgeMarks(g: View, es: seq<nat>): seq<Mark>
    requires forall e :: e in es ==> e < |g.edges|
  {
    seq(|es|, j requires 0 <= j < |es| => assert es[j] in es; Mark(g.edges[es[j]].source, true, es[j], true))
  }

  function MarksOf(g: View, relation: string, marker: string): (marks: seq<Mark>)
    ensures |marks| > 0 && marks[0].node == marker
  {
    var es := PointingEdges(g, relation, marker, |g.edges|);
    [Mark(marker, false, 0, es == [])] + EdgeMarks(g, es)
  }

  /** All steps of a lookup without a limit. */
  function Marks(g: View, relation: string, markers: seq<string>): seq<Mark> {
    if markers == [] then []
    else Marks(g, relation, markers[..|markers| - 1]) + MarksOf(g, relation, markers[|markers| - 1])
  }

  function NodesIn(marks: seq<Mark>): seq<string> {
    seq(|marks|, j requires 0 <= j < |marks| => marks[j].node)
  }

  /** The distinct nodes listed by the steps, in order. */
  function Listed(marks: seq<Mark>): seq<string> {
    AddNew([], NodesIn(marks))
  }

  /** The edges met by the steps, in order; an edge is met again when two markers share an id. */
  function EdgesMet(marks: seq<Mark>): seq<nat> {
    if marks == [] then []
    else
      var m := marks[|marks| - 1];
      EdgesMet(marks[..|marks| - 1]) + (if m.viaEdge then [m.edge] else [])
  }

  /** No check before step n finds `limit` nodes. */
  ghost predicate UnderLimit(marks: seq<Mark>, limit: nat, n: nat)
    requires n <= |marks| + 1
  {
    forall q :: 0 < q < n && marks[q - 1].check ==> |Listed(marks[..q])| < limit
  }

  /** The lookup stops at the first check point with at least `limit` nodes, and otherwise runs to the end. */
  ghost predicate StopsAt(marks: seq<Mark>, limit: nat, p: nat) {
    && p <= |marks|
    && (p < |marks| ==> p > 0 && marks[p - 1].check && |Listed(marks[..p])| >= limit)
    && UnderLimit(marks, limit, p)
  }

  // ---------------------------------------------------------------- laws

  lemma ListedOneMore(marks: seq<Mark>, p: nat)
    requires p < |marks|
    ensures Listed(marks[..p + 1]) == AddNew(Listed(marks[..p]), [marks[p].node])
    ensures |Listed(marks[..p])| <= |Listed(marks[..p + 1])| <= |Listed(marks[..p])| + 1
    ensures Listed(marks[..p + 1]) == if marks[p].node in Listed(marks[..p]) then Listed(marks[..p]) else Listed(marks[..p]) + [marks[p].node]
  {
    hide AddNew, Distinct;
    AddNewLaws([], NodesIn(marks[..p]));
    AddNewLaws(Listed(marks[..p]), [marks[p].node]);
    assert NodesIn(marks[..p + 1]) == NodesIn(marks[..p]) + [marks[p].node];
    AddNewAppend([], NodesIn(marks[..p]), [marks[p].node]);
    AddOne(Listed(marks[..p]), marks[p].node);
  }

  lemma AddOne<T>(list: seq<T>, x: T)
    ensures AddNew(list, [x]) == if x in list then list else list + [x]
  {
    assert [x][..0] == [];
  }

  lemma ListedLaws(marks: seq<Mark>)
    ensures Distinct(Listed(marks))
    ensures forall v :: v in Listed(marks) <==> v in NodesIn(marks)
  {
    AddNewLaws([], NodesIn(marks));
  }

  lemma {:induction false} MarksMembers(g: View, relation: string, markers: seq<string>, m: Mark)
    ensures m in Marks(g, relation, markers) <==> exists marker :: marker in markers && m in MarksOf(g, relation, marker)
    decreases |markers|
  {
    hide MarksOf;
    if markers != [] {
      MarksMembers(g, relation, markers[..|markers| - 1], m);
      assert markers == markers[..|markers| - 1] + [markers[|markers| - 1]];
    }
  }

  lemma MarksOfMembers(g: View, relation: string, marker: string, m: Mark)
    ensures m in MarksOf(g, relation, marker) && !m.viaEdge ==> m.node == marker
    ensures m in MarksOf(g, relation, marker) && m.viaEdge ==> Points(g, relation, m.edge, marker) && m.node == g.edges[m.edge].source && m.check
    ensures m.viaEdge && m.check && Points(g, relation, m.edge, marker) && m.node == g.edges[m.edge].source ==> m in MarksOf(g, relation, marker)
  {
    hide Points;
    var es := PointingEdges(g, relation, marker, |g.edges|);
    if m.edge in es {
      var j :| 0 <= j < |es| && es[j] == m.edge;
      assert EdgeMarks(g, es)[j] == Mark(g.edges[m.edge].source, true, m.edge, true);
      assert MarksOf(g, relation, marker)[j + 1] == EdgeMarks(g, es)[j];
    } else if m.viaEdge {
      assert m.edge < |g.edges| && Points(g, relation, m.edge, marker) ==> m.edge in es;
      assert Points(g, relation, m.edge, marker) ==> m.edge < |g.edges| by { PointsInRange(g, relation, m.edge, marker); }
    }
  }

  lemma PointsInRange(g: View, relation: string, e: nat, marker: string)
    ensures Points(g, relation, e, marker) ==> e < |g.edges|
  {
  }

  /** Without truncation the lookup lists exactly the markers and the nodes that point at one by the relation. */
  lemma UntruncatedNodes(g: View, relation: string, markers: seq<string>, v: string)
    ensures v in Listed(Marks(g, relation, markers)) <==>
            || v in markers
            || exists e: nat, marker :: marker in markers && PointsFrom(g, relation, e, v, marker)
  {
    hide Marks, MarksOf, Listed, Points;
    var all := Marks(g, relation, markers);
    ListedLaws(all);
    if v in Listed(all) {
      var j :| 0 <= j < |all| && all[j].node == v;
      MarksMembers(g, relation, markers, all[j]);
      var marker :| marker in markers && all[j] in MarksOf(g, relation, marker);
      MarksOfMembers(g, relation, marker, all[j]);
      assert all[j].viaEdge ==> PointsFrom(g, relation, all[j].edge, v, marker);
    }
    if v in markers {
      var first := MarksOf(g, relation, v)[0];
      MarksMembers(g, relation, markers, first);
      MarksOfMembers(g, relation, v, first);
      NodeListed(all, first);
    }
    if e: nat, marker :| marker in markers && PointsFrom(g, relation, e, v, marker) {
      var m := Mark(v, true, e, true);
      MarksOfMembers(g, relation, marker, m);
      MarksMembers(g, relation, markers, m);
      NodeListed(all, m);
    }
  }

  lemma NodeListed(marks: seq<Mark>, m: Mark)
    requires m in marks
    ensures m.node in NodesIn(marks)
  {
    var j :| 0 <= j < |marks| && marks[j] == m;
    assert NodesIn(marks)[j] == m.node;
  }

  lemma {:induction false} EdgesMetMembers(marks: seq<Mark>, e: nat)
    ensures e in EdgesMet(marks) <==> exists m :: m in marks && m.viaEdge && m.edge == e
    decreases |marks|
  {
    if marks != [] {
      EdgesMetMembers(marks[..|marks| - 1], e);
      assert marks == marks[..|marks| - 1] + [marks[|marks| - 1]];
    }
  }

  /** Without truncation the lookup meets exactly the edges of the relation that end at a marker. */
  lemma UntruncatedMarkerEdges(g: View, relation: string, markers: seq<string>, e: nat)
    ensures e in EdgesMet(Marks(g, relation, markers)) <==> exists marker :: marker in markers && Points(g, relation, e, marker)
    ensures e in EdgesMet(Marks(g, relation, markers)) <==>
            && e < |g.edges| && g.edges[e].relation == relation && g.edges[e].target in markers
            && g.Known(g.edges[e].source) && g.Known(g.edges[e].target)
  {
    hide Marks, MarksOf, EdgesMet, Points, View.Known;
    var all := Marks(g, relation, markers);
    EdgesMetMembers(all, e);
    PointingMeans(g, relation, e, markers);
    if m :| m in all && m.viaEdge && m.edge == e {
      MarksMembers(g, relation, markers, m);
      var marker :| marker in markers && m in MarksOf(g, relation, marker);
      MarksOfMembers(g, relation, marker, m);
    }
    if marker :| marker in markers && Points(g, relation, e, marker) {
      PointsInRange(g, relation, e, marker);
      var m := Mark(g.edges[e].source, true, e, true);
      MarksOfMembers(g, relation, marker, m);
      MarksMembers(g, relation, markers, m);
    }
  }

  lemma PointingMeans(g: View, relation: string, e: nat, markers: seq<string>)
    ensures (exists marker :: marker in markers && Points(g, relation, e, marker))
            <==> && e < |g.edges| && g.edges[e].relation == relation && g.edges[e].target in markers
                 && g.Known(g.edges[e].source) && g.Known(g.edges[e].target)
  {
    hide View.Known;
    if e < |g.edges| && g.edges[e].relation == relation && g.edges[e].target in markers
       && g.Known(g.edges[e].source) && g.Known(g.edges[e].target) {
      assert Points(g, relation, e, g.edges[e].target);
    }
  }

  /** A step without a check is always followed by one with a check. */
  ghost predicate ChecksFollow(marks: seq<Mark>) {
    forall q :: 0 <= q < |marks| && !marks[q].check ==> q + 1 < |marks| && marks[q + 1].check
  }

  lemma {:induction false} MarksChecked(g: View, relation: string, markers: seq<string>)
    ensures ChecksFollow(Marks(g, relation, markers))
    decreases |markers|
  {
    if markers != [] {
      MarksChecked(g, relation, markers[..|markers| - 1]);
    }
  }

  /** The limit is checked late, so a lookup may return one node more than the limit, and never two. */
  lemma AtMostOneOver(marks: seq<Mark>, limit: nat, p: nat)
    requires limit >= 1 && ChecksFollow(marks) && StopsAt(marks, limit, p)
    ensures |Listed(marks[..p])| <= limit + 1
    ensures |Listed(marks[..p])| < limit ==> p == |marks|
  {
    hide Listed;
    NothingListed(marks);
    if p >= 1 {
      ListedOneMore(marks, p - 1);
    }
    if p >= 2 {
      ListedOneMore(marks, p - 2);
      assert marks[p - 2].check || (p >= 3 ==> marks[p - 3].check);
    }
  }

  lemma NothingListed(marks: seq<Mark>)
    ensures Listed(marks[..0]) == []
    ensures forall limit :: MarkState(marks, limit, 0, [], [])
  {
  }

  // ---------------------------------------------------------------- the loops

  /** The loop variables after the first p steps. */
  ghost predicate MarkState(all: seq<Mark>, limit: nat, p: nat, nodes: seq<string>, edges: seq<nat>) {
    p <= |all| && nodes == Listed(all[..p]) && edges == EdgesMet(all[..p]) && UnderLimit(all, limit, p)
  }

  lemma MarkStateStep(all: seq<Mark>, limit: nat, p: nat, nodes: seq<string>, edges: seq<nat>)
    requires p < |all| && MarkState(all, limit, p, nodes, edges)
    requires p > 0 && all[p - 1].check ==> |nodes| < limit
    ensures var m := all[p];
            MarkState(all, limit, p + 1, if m.node in nodes then nodes else nodes + [m.node], if m.viaEdge then edges + [m.edge] else edges)
  {
    hide Listed, EdgesMet;
    ListedOneMore(all, p);
    EdgesMetOneMore(all, p);
  }

  /** Steps p0 to p were taken for one marker whose steps are own. */
  ghost predicate Followed(all: seq<Mark>, own: seq<Mark>, limit: nat, p0: nat, p: nat, nodes: seq<string>, edges: seq<nat>) {
    && p0 < p <= |all| && MarkState(all, limit, p, nodes, edges) && all[p - 1].check
    && (|nodes| < limit ==> p == p0 + |own|)
  }

  /** What the first p steps list and meet, when the lookup stops there. */
  ghost predicate Collected(all: seq<Mark>, limit: nat, p: nat, nodes: seq<string>, edges: seq<nat>) {
    StopsAt(all, limit, p) && nodes == Listed(all[..p]) && edges == EdgesMet(all[..p])
  }

  ghost predicate HasAt(all: seq<Mark>, own: seq<Mark>, p: nat) {
    p + |own| <= |all| && all[p..p + |own|] == own
  }

  lemma HasAtIndex(all: seq<Mark>, own: seq<Mark>, p: nat, i: nat)
    requires HasAt(all, own, p) && i < |own|
    ensures p + |own| <= |all| && all[p + i] == own[i]
  {
    assert all[p..p + |own|][i] == all[p + i];
  }

  /** Follows one marker: list it, then each node pointing at it, checking the limit after every edge. */
  method FollowMarker(
      g: View, relation: string, marker: string, limit: nat, nodes0: seq<string>, edges0: seq<nat>, ghost all: seq<Mark>, ghost p0: nat)
    returns (nodes: seq<string>, edges: seq<nat>)
    requires HasAt(all, MarksOf(g, relation, marker), p0)
    requires MarkState(all, limit, p0, nodes0, edges0) && (p0 > 0 && all[p0 - 1].check ==> |nodes0| < limit)
    ensures exists p: nat :: Followed(all, MarksOf(g, relation, marker), limit, p0, p, nodes, edges)
  {
    hide Points, PointingEdges, MarksOf, MarkState, HasAt;
    ghost var own := MarksOf(g, relation, marker);
    HasAtIndex(all, own, p0, 0);
    nodes, edges := nodes0, edges0;
    ghost var p: nat := p0;
    MarksOfShape(g, relation, marker);
    MarkStateStep(all, limit, p, nodes, edges);
    if marker !in nodes {
      nodes := nodes + [marker];
    }
    p := p + 1;
    ghost var n := 0;
    for i := 0 to |g.edges|
      invariant n == |PointingEdges(g, relation, marker, i)| < |own| && p == p0 + 1 + n
      invariant MarkState(all, limit, p, nodes, edges)
      invariant n > 0 ==> all[p - 1].check && |nodes| < limit
    {
      PointingOneMore(g, relation, marker, i);
      if Points(g, relation, i, marker) {
        HasAtIndex(all, own, p0, n + 1);
        MarkStateStep(all, limit, p, nodes, edges);
        if g.edges[i].source !in nodes {
          nodes := nodes + [g.edges[i].source];
        }
        edges := edges + [i];
        p, n := p + 1, n + 1;
        if |nodes| >= limit {
          assert Followed(all, own, limit, p0, p, nodes, edges);
          return;
        }
      }
    }
    assert Followed(all, own, limit, p0, p, nodes, edges);
  }

  lemma MarksOfShape(g: View, relation: string, marker: string)
    ensures var own, n := MarksOf(g, relation, marker), |PointingEdges(g, relation, marker, |g.edges|)|;
            |own| == n + 1 && own[0] == Mark(marker, false, 0, n == 0)
  {
  }

  /** The next pointing edge is the next mark. */
  lemma PointingOneMore(g: View, relation: string, marker: string, i: nat)
    requires i < |g.edges|
    ensures var own, n := MarksOf(g, relation, marker), |PointingEdges(g, relation, marker, i)|;
            if Points(g, relation, i, marker)
            then |PointingEdges(g, relation, marker, i + 1)| == n + 1 < |own| && own[n + 1] == Mark(g.edges[i].source, true, i, true)
            else |PointingEdges(g, relation, marker, i + 1)| == n
  {
    PointingStep(g, relation, marker, i);
    hide PointingEdges, Points;
    var es, n := PointingEdges(g, relation, marker, |g.edges|), |PointingEdges(g, relation, marker, i)|;
    PointingPrefix(g, relation, marker, i + 1, |g.edges|);
    if Points(g, relation, i, marker) {
      assert es[n] == i;
      assert EdgeMarks(g, es)[n] == Mark(g.edges[i].source, true, i, true);
    }
  }

  lemma PointingStep(g: View, relation: string, marker: string, i: nat)
    requires i < |g.edges|
    ensures PointingEdges(g, relation, marker, i + 1) ==
            PointingEdges(g, relation, marker, i) + (if Points(g, relation, i, marker) then [i] else [])
  {
  }

  lemma EdgesMetOneMore(marks: seq<Mark>, p: nat)
    requires p < |marks|
    ensures EdgesMet(marks[..p + 1]) == EdgesMet(marks[..p]) + (if marks[p].viaEdge then [marks[p].edge] else [])
  {
    assert marks[..p + 1][..p] == marks[..p];
  }

  lemma {:induction false} PointingPrefix(g: View, relation: string, marker: string, i: nat, n: nat)
    requires i <= n <= |g.edges|
    ensures PointingEdges(g, relation, marker, i) <= PointingEdges(g, relation, marker, n)
    decreases n
  {
    hide Points;
    if i < n {
      PointingPrefix(g, relation, marker, i, n - 1);
    }
  }

  /** The marker lookup. */
  method Lookup(g: View, relation: string, markers: seq<string>, limit: nat) returns (nodes: seq<string>, edges: seq<nat>)
    requires limit >= 1
    ensures exists p: nat :: Collected(Marks(g, relation, markers), limit, p, nodes, edges)
  {
    hide Listed, EdgesMet, MarksOf, UnderLimit;
    ghost var all, p: nat := Marks(g, relation, markers), 0;
    nodes, edges := [], [];
    NothingListed(all);
    assert markers[..0] == [];
    for k := 0 to |markers|
      invariant p <= |all| && p == |Marks(g, relation, markers[..k])| && MarkState(all, limit, p, nodes, edges)
      invariant p > 0 ==> |nodes| < limit
    {
      MarksSplit(g, relation, markers, k);
      assert HasAt(all, MarksOf(g, relation, markers[k]), p);
      nodes, edges := FollowMarker(g, relation, markers[k], limit, nodes, edges, all, p);
      ghost var p0 := p;
      p :| Followed(all, MarksOf(g, relation, markers[k]), limit, p0, p, nodes, edges);
      if |nodes| >= limit {
        assert Collected(all, limit, p, nodes, edges);
        return;
      }
    }
    assert markers[..|markers|] == markers;
    assert Collected(all, limit, p, nodes, edges);
  }

  lemma {:induction false} MarksSplit(g: View, relation: string, markers: seq<string>, k: nat)
    requires k < |markers|
    ensures var before, own := Marks(g, relation, markers[..k]), MarksOf(g, relation, markers[k]);
            && Marks(g, relation, markers[..k + 1]) == before + own
            && before + own <= Marks(g, relation, markers)
    decreases |markers|
  {
    hide MarksOf;
    assert markers[..k + 1][..k] == markers[..k];
    if k < |markers| - 1 {
      var n := |markers| - 1;
      assert markers[..n][..k] == markers[..k] && markers[..n][..k + 1] == markers[..k + 1];
      MarksSplit(g, relation, markers[..n], k);
    } else {
      assert markers[..k + 1] == markers;
    }
  }
}
