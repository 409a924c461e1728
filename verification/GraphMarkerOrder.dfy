/**
 The order of what a lookup lists and where its limit stops it, said in terms of markers and edges: marker after marker,
 each followed by the edges that point at it, by index.
 */
module GraphMarkerOrder {
  import opened Sequences
  import opened GraphView
  import opened GraphMarkers
  import opened GraphOrder
  import opened GraphQuery
  import opened GraphAnswers

  // ---------------------------------------------------------------- markers in node order

  ghost predicate Ascending(s: seq<nat>) {
    forall i, j :: 0 <= i < j < |s| ==> s[i] < s[j]
  }

  /** The marker ids come in node order, one for every matching node. */
  lemma {:induction false} MarkersInNodeOrder(nodes: seq<GraphNode>, value: string, kind: string, prefix: string) returns (at: seq<nat>)
    ensures Ascending(at) && |at| == |MatchMarkerIds(nodes, value, kind, prefix)|
    ensures forall k: nat :: k in at <==> k < |nodes| && IsMarker(nodes[k], value, kind, prefix)
    ensures forall i :: 0 <= i < |at| ==> at[i] < |nodes| && MatchMarkerIds(nodes, value, kind, prefix)[i] == nodes[at[i]].id
    decreases |nodes|
  {
    at := [];
    if nodes != [] {
      var n := |nodes| - 1;
      var before := MarkersInNodeOrder(nodes[..n], value, kind, prefix);
      at := before;
      forall i | 0 <= i < |before| ensures before[i] < n {
        assert before[i] in before;
      }
      if IsMarker(nodes[n], value, kind, prefix) {
        at := before + [n];
      }
      forall k: nat ensures k in at <==> k < |nodes| && IsMarker(nodes[k], value, kind, prefix) {
        assert k < n ==> nodes[..n][k] == nodes[k];
        assert k in at <==> k in before || (k == n && IsMarker(nodes[n], value, kind, prefix));
      }
    }
  }

  // ---------------------------------------------------------------- places of a lookup

  /** v shows up at marker i: at place 0 as the marker itself, at place e + 1 as the source of edge e. */
  ghost predicate Appears(g: View, relation: string, markers: seq<string>, v: string, i: nat, c: nat) {
    i < |markers| && if c == 0 then v == markers[i] else PointsFrom(g, relation, c - 1, v, markers[i])
  }

  /** The limit is looked at after each edge, and after a marker that no edge points at. */
  ghost predicate IsCheck(g: View, relation: string, markers: seq<string>, i: nat, c: nat) {
    i < |markers| && if c == 0 then forall e: nat :: !Points(g, relation, e, markers[i]) else Points(g, relation, c - 1, markers[i])
  }

  function Key(m: Mark): nat {
    if m.viaEdge then m.edge + 1 else 0
  }

  /** The q-th step of the lookup is at place c of marker i. */
  ghost predicate IsPlace(g: View, relation: string, markers: seq<string>, q: nat, i: nat, c: nat) {
    && i < |markers| && q < |Marks(g, relation, markers)|
    && |Marks(g, relation, markers[..i])| <= q < |Marks(g, relation, markers[..i + 1])|
    && c == Key(Marks(g, relation, markers)[q])
  }

  lemma {:induction false} PointingAscending(g: View, relation: string, marker: string, n: nat)
    requires n <= |g.edges|
    ensures Ascending(PointingEdges(g, relation, marker, n))
    decreases n
  {
    hide Points;
    if n > 0 {
      PointingAscending(g, relation, marker, n - 1);
      var before := PointingEdges(g, relation, marker, n - 1);
      forall i | 0 <= i < |before| ensures before[i] < n - 1 {
        assert before[i] in before;
      }
    }
  }

  /** The steps of one marker: the marker, then its edges by index. */
  lemma StepOfMarker(g: View, relation: string, marker: string, b: nat)
    requires b < |MarksOf(g, relation, marker)|
    ensures var m := MarksOf(g, relation, marker)[b];
            && (m.viaEdge <==> b > 0)
            && (if b == 0 then m.node == marker && (m.check <==> forall e: nat :: !Points(g, relation, e, marker))
                else m.check && Points(g, relation, m.edge, marker) && m.edge < |g.edges| && m.node == g.edges[m.edge].source)
    ensures forall a :: 0 <= a < b ==> Key(MarksOf(g, relation, marker)[a]) < Key(MarksOf(g, relation, marker)[b])
  {
    hide Points;
    var es := PointingEdges(g, relation, marker, |g.edges|);
    PointingAscending(g, relation, marker, |g.edges|);
    forall e: nat | Points(g, relation, e, marker) ensures e < |g.edges| {
      PointsInRange(g, relation, e, marker);
    }
    if b > 0 {
      assert es[b - 1] in es;
    } else if es != [] {
      assert es[0] in es;
    }
  }

  /** Every step has a place. */
  lemma {:induction false} PlaceOfStep(g: View, relation: string, markers: seq<string>, q: nat) returns (i: nat)
    requires q < |Marks(g, relation, markers)|
    ensures i < |markers| && |Marks(g, relation, markers[..i])| <= q < |Marks(g, relation, markers[..i + 1])|
    ensures var b := q - |Marks(g, relation, markers[..i])|;
            b < |MarksOf(g, relation, markers[i])| && Marks(g, relation, markers)[q] == MarksOf(g, relation, markers[i])[b]
    ensures IsPlace(g, relation, markers, q, i, Key(Marks(g, relation, markers)[q]))
    decreases |markers|
  {
    hide MarksOf;
    var n := |markers| - 1;
    var before := Marks(g, relation, markers[..n]);
    if q < |before| {
      i := PlaceOfStep(g, relation, markers[..n], q);
      assert markers[..n][..i] == markers[..i] && markers[..n][..i + 1] == markers[..i + 1];
    } else {
      i := n;
      assert markers[..n + 1] == markers;
    }
  }

  /** What a step lists, and whether the limit is looked at, by its place. */
  lemma StepAtPlace(g: View, relation: string, markers: seq<string>, q: nat) returns (i: nat)
    requires q < |Marks(g, relation, markers)|
    ensures i < |markers|
    ensures var m := Marks(g, relation, markers)[q];
            && IsPlace(g, relation, markers, q, i, Key(m))
            && Appears(g, relation, markers, m.node, i, Key(m))
            && (m.check <==> IsCheck(g, relation, markers, i, Key(m)))
            && (m.viaEdge ==> Points(g, relation, m.edge, markers[i]))
  {
    hide Marks, MarksOf, Points;
    i := PlaceOfStep(g, relation, markers, q);
    StepOfMarker(g, relation, markers[i], q - |Marks(g, relation, markers[..i])|);
  }

  /** Every marker has its step, and so has every edge that points at it. */
  lemma StepForPlace(g: View, relation: string, markers: seq<string>, i: nat, c: nat) returns (q: nat)
    requires i < |markers| && (c == 0 || Points(g, relation, c - 1, markers[i]))
    ensures IsPlace(g, relation, markers, q, i, c)
  {
    hide Marks, Points;
    var before, own := Marks(g, relation, markers[..i]), MarksOf(g, relation, markers[i]);
    var es := PointingEdges(g, relation, markers[i], |g.edges|);
    MarksSplit(g, relation, markers, i);
    if c > 0 {
      PointsInRange(g, relation, c - 1, markers[i]);
      var j :| 0 <= j < |es| && es[j] == c - 1;
      assert own[j + 1] == EdgeMarks(g, es)[j];
      q := |before| + j + 1;
    } else {
      q := |before|;
    }
    assert (before + own)[q] == own[q - |before|];
  }

  /** Steps are taken in the order of their places. */
  lemma PlacesOrdered(g: View, relation: string, markers: seq<string>, q: nat, i: nat, c: nat, m: nat, j: nat, b: nat)
    requires IsPlace(g, relation, markers, q, i, c) && IsPlace(g, relation, markers, m, j, b)
    ensures q < m <==> Sooner(i, c, j, b)
    ensures q == m <==> i == j && c == b
  {
    hide Marks, MarksOf, Key;
    if i < j {
      MarksPrefix(g, relation, markers, i + 1, j);
    } else if j < i {
      MarksPrefix(g, relation, markers, j + 1, i);
    } else {
      MarksSplit(g, relation, markers, i);
      var before, own := Marks(g, relation, markers[..i]), MarksOf(g, relation, markers[i]);
      assert (before + own)[q] == own[q - |before|] && (before + own)[m] == own[m - |before|];
      StepOfMarker(g, relation, markers[i], q - |before|);
      StepOfMarker(g, relation, markers[i], m - |before|);
    }
  }

  lemma {:induction false} MarksPrefix(g: View, relation: string, markers: seq<string>, i: nat, j: nat)
    requires i <= j <= |markers|
    ensures |Marks(g, relation, markers[..i])| <= |Marks(g, relation, markers[..j])|
    decreases j
  {
    hide Marks, MarksOf;
    if i < j {
      MarksPrefix(g, relation, markers, i, j - 1);
      MarksSplit(g, relation, markers, j - 1);
    }
  }

  // ---------------------------------------------------------------- the order of a lookup

  /** u shows up before v does. */
  ghost predicate ListedFirst(g: View, relation: string, markers: seq<string>, u: string, v: string) {
    exists i: nat, c: nat :: Appears(g, relation, markers, u, i, c) && AppearsLater(g, relation, markers, v, i, c)
  }

  ghost predicate AppearsLater(g: View, relation: string, markers: seq<string>, v: string, i: nat, c: nat) {
    forall j: nat, b: nat :: Appears(g, relation, markers, v, j, b) ==> Sooner(i, c, j, b)
  }

  /** Edge e points at a marker before edge f points at any. */
  ghost predicate MetFirst(g: View, relation: string, markers: seq<string>, e: nat, f: nat) {
    exists i: nat :: i < |markers| && Points(g, relation, e, markers[i]) && MetLater(g, relation, markers, f, i, e)
  }

  ghost predicate MetLater(g: View, relation: string, markers: seq<string>, f: nat, i: nat, e: nat) {
    forall j: nat :: j < |markers| && Points(g, relation, f, markers[j]) ==> Sooner(i, e, j, f)
  }

  lemma NodesInOrder(g: View, relation: string, markers: seq<string>, p: nat, x: nat, y: nat)
    requires p <= |Marks(g, relation, markers)|
    requires var ids := Listed(Marks(g, relation, markers)[..p]); x < y < |ids|
    ensures var ids := Listed(Marks(g, relation, markers)[..p]); ListedFirst(g, relation, markers, ids[x], ids[y])
  {
    hide Marks, Points, AddNew, Appears, IsPlace, Sooner;
    var all := Marks(g, relation, markers);
    var ids, nodes := Listed(all[..p]), NodesIn(all[..p]);
    AddNewInOrder([], nodes, x, y);
    var q :| 0 <= q < |nodes| && nodes[q] == ids[x] && ids[y] !in nodes[..q] && ids[x] != ids[y];
    var i := StepAtPlace(g, relation, markers, q);
    var c := Key(all[q]);
    forall m | 0 <= m < q ensures all[m].node != ids[y] {
      assert nodes[..q][m] == all[m].node;
    }
    forall j: nat, b: nat | Appears(g, relation, markers, ids[y], j, b) ensures Sooner(i, c, j, b) {
      var m := StepOfNode(g, relation, markers, ids[y], j, b);
      PlacesOrdered(g, relation, markers, q, i, c, m, j, b);
    }
    assert Appears(g, relation, markers, ids[x], i, c) && AppearsLater(g, relation, markers, ids[y], i, c);
  }

  lemma StepOfNode(g: View, relation: string, markers: seq<string>, v: string, j: nat, b: nat) returns (m: nat)
    requires Appears(g, relation, markers, v, j, b)
    ensures IsPlace(g, relation, markers, m, j, b) && Marks(g, relation, markers)[m].node == v
  {
    hide Marks, Points;
    m := StepForPlace(g, relation, markers, j, b);
    var k := StepAtPlace(g, relation, markers, m);
    PlacesOrdered(g, relation, markers, m, j, b, m, k, Key(Marks(g, relation, markers)[m]));
  }

  /** The step that meets e comes before any that meets f. */
  lemma {:induction false} MetStep(marks: seq<Mark>, e: nat, f: nat) returns (q: nat)
    requires MetBefore(EdgesMet(marks), e, f)
    ensures q < |marks| && marks[q].viaEdge && marks[q].edge == e
    ensures forall m :: 0 <= m <= q && marks[m].viaEdge ==> marks[m].edge != f
    decreases |marks|
  {
    var n := |marks| - 1;
    var before, met := EdgesMet(marks[..n]), EdgesMet(marks);
    var k :| 0 <= k < |met| && met[k] == e && f !in met[..k] && e != f;
    if k < |before| {
      assert before[..k] == met[..k] && before[k] == e;
      q := MetStep(marks[..n], e, f);
      assert forall m :: 0 <= m <= q ==> marks[m] == marks[..n][m];
    } else {
      q := n;
      assert met[..k] == before;
      EdgesMetMembers(marks[..n], f);
      forall m | 0 <= m <= q && marks[m].viaEdge ensures marks[m].edge != f {
        assert m < n ==> marks[m] in marks[..n];
      }
    }
  }

  lemma EdgesInOrder(g: View, relation: string, markers: seq<string>, p: nat, e: nat, f: nat)
    requires p <= |Marks(g, relation, markers)| && MetBefore(EdgesMet(Marks(g, relation, markers)[..p]), e, f)
    ensures MetFirst(g, relation, markers, e, f)
  {
    hide Marks, Points, EdgesMet, IsPlace, MetBefore, Sooner;
    var all := Marks(g, relation, markers);
    var q := MetStep(all[..p], e, f);
    var i := StepAtPlace(g, relation, markers, q);
    forall j: nat | j < |markers| && Points(g, relation, f, markers[j]) ensures Sooner(i, e, j, f) {
      var m := StepForPlace(g, relation, markers, j, f + 1);
      PlaceIsEdge(g, relation, markers, m, j, f);
      PlacesOrdered(g, relation, markers, q, i, e + 1, m, j, f + 1);
      SameSooner(i, e, j, f);
    }
    assert Points(g, relation, e, markers[i]) && MetLater(g, relation, markers, f, i, e);
  }

  lemma SameSooner(i: nat, e: nat, j: nat, f: nat)
    ensures Sooner(i, e + 1, j, f + 1) <==> Sooner(i, e, j, f)
  {
  }

  lemma PlaceIsEdge(g: View, relation: string, markers: seq<string>, m: nat, j: nat, f: nat)
    requires IsPlace(g, relation, markers, m, j, f + 1)
    ensures Marks(g, relation, markers)[m].viaEdge && Marks(g, relation, markers)[m].edge == f
  {
    hide Marks;
  }

  // ---------------------------------------------------------------- where the limit stops a lookup

  /** v shows up at or before place c of marker i. */
  ghost predicate AppearsBy(g: View, relation: string, markers: seq<string>, v: string, i: nat, c: nat) {
    exists j: nat, b: nat :: Appears(g, relation, markers, v, j, b) && !Sooner(i, c, j, b)
  }

  ghost predicate MetBy(g: View, relation: string, markers: seq<string>, e: nat, i: nat, c: nat) {
    exists j: nat :: j < |markers| && Points(g, relation, e, markers[j]) && !Sooner(i, c, j, e + 1)
  }

  /**
   The lookup stops at place c of marker i: the first place, among those where the limit is looked at, by which the
   limit-th node has shown up.
   */
  ghost predicate StopsHere(g: View, relation: string, markers: seq<string>, v: string, i: nat, c: nat) {
    && IsCheck(g, relation, markers, i, c) && AppearsBy(g, relation, markers, v, i, c)
    && forall j: nat, b: nat :: IsCheck(g, relation, markers, j, b) && Sooner(j, b, i, c) ==> !AppearsBy(g, relation, markers, v, j, b)
  }

  lemma ShownBy(g: View, relation: string, markers: seq<string>, q: nat, i: nat, v: string)
    requires q < |Marks(g, relation, markers)| && IsPlace(g, relation, markers, q, i, Key(Marks(g, relation, markers)[q]))
    ensures v in Listed(Marks(g, relation, markers)[..q + 1]) <==> AppearsBy(g, relation, markers, v, i, Key(Marks(g, relation, markers)[q]))
  {
    hide Marks, Points, Listed, Appears, IsPlace, Sooner;
    var all := Marks(g, relation, markers);
    var steps, c := all[..q + 1], Key(all[q]);
    ListedLaws(steps);
    if v in NodesIn(steps) {
      var m :| 0 <= m <= q && NodesIn(steps)[m] == v;
      var j := StepAtPlace(g, relation, markers, m);
      PlacesOrdered(g, relation, markers, q, i, c, m, j, Key(all[m]));
      assert Appears(g, relation, markers, v, j, Key(all[m])) && !Sooner(i, c, j, Key(all[m]));
    }
    if j: nat, b: nat :| Appears(g, relation, markers, v, j, b) && !Sooner(i, c, j, b) {
      var m := StepOfNode(g, relation, markers, v, j, b);
      PlacesOrdered(g, relation, markers, q, i, c, m, j, b);
      assert NodesIn(steps)[m] == v;
    }
  }

  lemma EdgeBy(g: View, relation: string, markers: seq<string>, q: nat, i: nat, e: nat)
    requires q < |Marks(g, relation, markers)| && IsPlace(g, relation, markers, q, i, Key(Marks(g, relation, markers)[q]))
    ensures e in EdgesMet(Marks(g, relation, markers)[..q + 1]) <==> MetBy(g, relation, markers, e, i, Key(Marks(g, relation, markers)[q]))
  {
    hide Marks, Points, EdgesMet, Appears, IsPlace, Sooner;
    var all := Marks(g, relation, markers);
    var steps, c := all[..q + 1], Key(all[q]);
    EdgesMetMembers(steps, e);
    if mark :| mark in steps && mark.viaEdge && mark.edge == e {
      var m :| 0 <= m <= q && steps[m] == mark;
      var j := StepAtPlace(g, relation, markers, m);
      PlacesOrdered(g, relation, markers, q, i, c, m, j, e + 1);
      assert Points(g, relation, e, markers[j]) && !Sooner(i, c, j, e + 1);
    }
    if j: nat :| j < |markers| && Points(g, relation, e, markers[j]) && !Sooner(i, c, j, e + 1) {
      var m := StepForPlace(g, relation, markers, j, e + 1);
      PlaceIsEdge(g, relation, markers, m, j, e);
      PlacesOrdered(g, relation, markers, q, i, c, m, j, e + 1);
      assert steps[m].viaEdge && steps[m].edge == e && steps[m] in steps;
    }
  }

  lemma ListedPrefix(marks: seq<Mark>, m: nat, p: nat)
    requires m <= p <= |marks|
    ensures Listed(marks[..m]) <= Listed(marks[..p]) && Distinct(Listed(marks[..p]))
  {
    hide AddNew, Distinct;
    var a, b := NodesIn(marks[..m]), NodesIn(marks[..p]);
    assert b == a + b[m..];
    AddNewAppend([], a, b[m..]);
    ListedLaws(marks[..m]);
    ListedLaws(marks[..p]);
    AddNewLaws(Listed(marks[..m]), b[m..]);
  }

  /** Where a lookup with at least limit nodes stops. */
  lemma StopOnGraph(g: View, relation: string, markers: seq<string>, limit: nat, p: nat) returns (i: nat, c: nat)
    requires limit >= 1 && StopsAt(Marks(g, relation, markers), limit, p)
    requires |Listed(Marks(g, relation, markers)[..p])| >= limit
    ensures StopsHere(g, relation, markers, Listed(Marks(g, relation, markers)[..p])[limit - 1], i, c)
    ensures p > 0 && IsPlace(g, relation, markers, p - 1, i, c)
  {
    hide Marks, Points, Listed, Appears, Sooner, AppearsBy, IsCheck;
    var all := Marks(g, relation, markers);
    var ids := Listed(all[..p]);
    var v := ids[limit - 1];
    NothingListed(all);
    assert p > 0;
    var q := p - 1;
    i := StepAtPlace(g, relation, markers, q);
    c := Key(all[q]);
    ShownBy(g, relation, markers, q, i, v);
    LastStepChecks(g, relation, markers, limit, p);
    forall j: nat, b: nat | IsCheck(g, relation, markers, j, b) && Sooner(j, b, i, c) ensures !AppearsBy(g, relation, markers, v, j, b) {
      var m := CheckedStep(g, relation, markers, j, b);
      PlacesOrdered(g, relation, markers, m, j, b, q, i, c);
      ShownBy(g, relation, markers, m, j, v);
      ListedPrefix(all, m + 1, p);
      NotYetListed(Listed(all[..m + 1]), ids, limit);
    }
  }

  lemma LastStepChecks(g: View, relation: string, markers: seq<string>, limit: nat, p: nat)
    requires p > 0 && StopsAt(Marks(g, relation, markers), limit, p)
    ensures Marks(g, relation, markers)[p - 1].check
  {
    hide Marks, Listed;
    MarksChecked(g, relation, markers);
  }

  lemma CheckedStep(g: View, relation: string, markers: seq<string>, j: nat, b: nat) returns (m: nat)
    requires IsCheck(g, relation, markers, j, b)
    ensures IsPlace(g, relation, markers, m, j, b) && Marks(g, relation, markers)[m].check
  {
    hide Marks, Points;
    m := StepForPlace(g, relation, markers, j, b);
    var k := StepAtPlace(g, relation, markers, m);
    PlacesOrdered(g, relation, markers, m, j, b, m, k, Key(Marks(g, relation, markers)[m]));
  }

  lemma NotYetListed(before: seq<string>, ids: seq<string>, limit: nat)
    requires before <= ids && Distinct(ids) && |before| < limit <= |ids|
    ensures ids[limit - 1] !in before
  {
  }

  // ---------------------------------------------------------------- the answer

  /** Nodes and edges in the order of the lookup, and, from the limit on, exactly those up to the place where it stops. */
  ghost predicate InLookupOrder(g: View, relation: string, markers: seq<string>, limit: nat, ids: seq<string>, used: seq<nat>) {
    && (forall x, y :: 0 <= x < y < |ids| ==> ListedFirst(g, relation, markers, ids[x], ids[y]))
    && (forall x, y :: 0 <= x < y < |used| ==> MetFirst(g, relation, markers, used[x], used[y]))
    && (1 <= limit <= |ids| ==> exists i: nat, c: nat :: CutAt(g, relation, markers, limit, ids, used, i, c))
  }

  ghost predicate CutAt(g: View, relation: string, markers: seq<string>, limit: nat, ids: seq<string>, used: seq<nat>, i: nat, c: nat)
    requires 1 <= limit <= |ids|
  {
    && StopsHere(g, relation, markers, ids[limit - 1], i, c)
    && (forall v :: v in ids <==> AppearsBy(g, relation, markers, v, i, c))
    && (forall e: nat :: e in used <==> MetBy(g, relation, markers, e, i, c))
  }

  /** A marker answer lists nodes and edges in the order of the lookup, and its limit cuts at the place described. */
  lemma MarkersInOrder(g: View, request: Request, relation: string, markers: seq<string>, p: nat, r: Response) returns (used: seq<nat>)
    requires request.limit >= 1 && MarkersFrom(g, request, Marks(g, relation, markers), p, r)
    ensures InLookupOrder(g, relation, markers, request.limit, IdsOf(r.nodes), used)
    ensures Distinct(used) && |r.edges| == Min(|used|, request.limit)
    ensures forall j :: 0 <= j < |r.edges| ==> used[j] < |g.edges| && r.edges[j] == g.edges[used[j]]
  {
    hide Marks, Listed, EdgesMet, Closed, View.Known, View.NodeById, ListedFirst, MetFirst, CutAt, MetBefore;
    var steps := Marks(g, relation, markers)[..p];
    var ids := Listed(steps);
    used := Closed(g, ids, EdgesMet(steps));
    assert IdsOf(r.nodes) == ids;
    forall x, y | 0 <= x < y < |ids| ensures ListedFirst(g, relation, markers, ids[x], ids[y]) {
      NodesInOrder(g, relation, markers, p, x, y);
    }
    forall x, y | 0 <= x < y < |used| ensures MetFirst(g, relation, markers, used[x], used[y]) {
      ClosedInOrder(g, ids, EdgesMet(steps), x, y);
      EdgesInOrder(g, relation, markers, p, used[x], used[y]);
    }
    if request.limit <= |ids| {
      var i, c := AnswerCut(g, relation, markers, request.limit, p);
    }
  }

  lemma AnswerCut(g: View, relation: string, markers: seq<string>, limit: nat, p: nat) returns (i: nat, c: nat)
    requires limit >= 1 && StopsAt(Marks(g, relation, markers), limit, p)
    requires |Listed(Marks(g, relation, markers)[..p])| >= limit && InRange(g, EdgesMet(Marks(g, relation, markers)[..p]))
    ensures var steps := Marks(g, relation, markers)[..p];
            CutAt(g, relation, markers, limit, Listed(steps), Closed(g, Listed(steps), EdgesMet(steps)), i, c)
  {
    hide Marks, Listed, EdgesMet, Closed, StopsHere, AppearsBy, MetBy, IsPlace;
    var steps := Marks(g, relation, markers)[..p];
    i, c := StopOnGraph(g, relation, markers, limit, p);
    KeyAtPlace(g, relation, markers, p - 1, i, c);
    forall v ensures v in Listed(steps) <==> AppearsBy(g, relation, markers, v, i, c) {
      ShownBy(g, relation, markers, p - 1, i, v);
    }
    forall e: nat ensures e in Closed(g, Listed(steps), EdgesMet(steps)) <==> MetBy(g, relation, markers, e, i, c) {
      LookupEdgesKept(g, relation, markers, p, e);
      EdgeBy(g, relation, markers, p - 1, i, e);
    }
  }

  lemma KeyAtPlace(g: View, relation: string, markers: seq<string>, q: nat, i: nat, c: nat)
    requires IsPlace(g, relation, markers, q, i, c)
    ensures q < |Marks(g, relation, markers)| && c == Key(Marks(g, relation, markers)[q])
  {
  }
}
