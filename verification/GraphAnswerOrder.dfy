/**
 The order of what the responses hold, and what a limit therefore keeps, said in terms of the graph alone: nodes and
 edges of neighbours answers, and paths, nodes and edges of paths answers.
 */
module GraphAnswerOrder {
  import opened Sequences
  import opened GraphView
  import opened GraphNeighbors
  import opened GraphPaths
  import opened GraphOrder
  import opened GraphQuery

  // ---------------------------------------------------------------- places on the graph

  /** Edge e leads from the h-th node to u, and every edge that leads from a listed node to v comes later. */
  ghost predicate ReachedFirst(g: View, d: Direction, ids: seq<string>, u: string, v: string) {
    exists h: nat, e: nat :: h < |ids| && g.Leads(d, e, ids[h], u) && ReachedLater(g, d, ids, h, e, v)
  }

  ghost predicate ReachedLater(g: View, d: Direction, ids: seq<string>, h: nat, e: nat, v: string) {
    forall i: nat, f: nat :: i < |ids| && g.Leads(d, f, ids[i], v) ==> Sooner(h, e, i, f)
  }

  /** Edge e leaves a listed node before edge f leaves any. */
  ghost predicate LeftFirst(g: View, d: Direction, ids: seq<string>, e: nat, f: nat) {
    exists h: nat, v :: h < |ids| && g.Leads(d, e, ids[h], v) && LeftLater(g, d, ids, h, e, f)
  }

  ghost predicate LeftLater(g: View, d: Direction, ids: seq<string>, h: nat, e: nat, f: nat) {
    forall i: nat, w :: i < |ids| && g.Leads(d, f, ids[i], w) ==> Sooner(h, e, i, f)
  }

  /** Edge e leaves the h-th node, and no edge has reached v before that. */
  ghost predicate LeavesBefore(g: View, d: Direction, ids: seq<string>, h: nat, e: nat, v: string) {
    && h < |ids| && (exists w :: g.Leads(d, e, ids[h], w))
    && forall i: nat, f: nat :: i < |ids| && g.Leads(d, f, ids[i], v) ==> !Sooner(i, f, h, e)
  }

  ghost predicate LeavesBeforeReaching(g: View, d: Direction, ids: seq<string>, e: nat, v: string) {
    exists h: nat :: LeavesBefore(g, d, ids, h, e, v)
  }

  /**
   Each node but the start comes in the order in which edges of the nodes before it first reach it, and each edge used in
   the order in which it first leaves a listed node. When the last node fills the limit, the edges used are those that
   leave a listed node before that node is reached, or as it is.
   */
  ghost predicate InSearchOrder(g: View, d: Direction, limit: nat, ids: seq<string>, used: seq<nat>) {
    && (forall x, y :: 0 < x < y < |ids| ==> ReachedFirst(g, d, ids, ids[x], ids[y]))
    && (forall x, y :: 0 <= x < y < |used| ==> LeftFirst(g, d, ids, used[x], used[y]))
    && (|ids| == limit == 1 ==> used == [])
    && (|ids| == limit > 1 ==> forall e: nat :: e in used <==> LeavesBeforeReaching(g, d, ids, e, ids[|ids| - 1]))
  }

  // ---------------------------------------------------------------- the arc stream of a view

  lemma ArcLeads(g: View, d: Direction, near: seq<string>, q: nat) returns (h: nat, a: nat)
    requires q < |Stream(g.Arcs(d), near)|
    ensures h < |near| && a < |g.Arcs(d)(near[h])| && q == IndexOf(g.Arcs(d), near, h, a)
    ensures Stream(g.Arcs(d), near)[q] == g.Arcs(d)(near[h])[a]
    ensures var arc := Stream(g.Arcs(d), near)[q]; g.Leads(d, arc.edge, near[h], arc.node)
  {
    hide Stream, View.Adjacent, View.Leads;
    h, a := PlaceOfArc(g.Arcs(d), near, q);
    AdjacentCovers(g, d, near[h], g.Arcs(d)(near[h])[a]);
  }

  /** The stream holds an arc for every edge that leaves a listed node, in the order of places. */
  lemma ArcOfEdge(g: View, d: Direction, near: seq<string>, i: nat, f: nat, w: string) returns (m: nat, b: nat)
    requires i < |near| && g.Leads(d, f, near[i], w)
    ensures b < |g.Arcs(d)(near[i])| && m == IndexOf(g.Arcs(d), near, i, b) < |Stream(g.Arcs(d), near)|
    ensures Stream(g.Arcs(d), near)[m] == Arc(f, w) == g.Arcs(d)(near[i])[b]
  {
    hide Stream, View.Adjacent, View.Leads;
    AdjacentCovers(g, d, near[i], Arc(f, w));
    b :| 0 <= b < |g.Arcs(d)(near[i])| && g.Arcs(d)(near[i])[b] == Arc(f, w);
    ArcAtPlace(g.Arcs(d), near, i, b);
    m := IndexOf(g.Arcs(d), near, i, b);
  }

  /** Whatever does not come later than the q-th arc is found among the first arcs up to there. */
  lemma EarlierArc(g: View, d: Direction, near: seq<string>, q: nat, h: nat, a: nat, i: nat, f: nat, w: string) returns (m: nat)
    requires q < |Stream(g.Arcs(d), near)| && h < |near| && a < |g.Arcs(d)(near[h])| && q == IndexOf(g.Arcs(d), near, h, a)
    requires Stream(g.Arcs(d), near)[q] == g.Arcs(d)(near[h])[a]
    requires i < |near| && g.Leads(d, f, near[i], w) && !Sooner(h, Stream(g.Arcs(d), near)[q].edge, i, f)
    ensures m <= q && Stream(g.Arcs(d), near)[m] == Arc(f, w)
  {
    hide Stream, View.Adjacent, View.Leads, IndexOf;
    var arcs, e := Stream(g.Arcs(d), near), Stream(g.Arcs(d), near)[q].edge;
    var b;
    m, b := ArcOfEdge(g, d, near, i, f, w);
    AdjacentInOrder(g, d, near[h]);
    PlacesInOrder(g.Arcs(d), near, h, a, i, b);
    if q < m {
      assert i == h && a < b && f == e;
      AdjacentCovers(g, d, near[h], arcs[q]);
      LeadsToOne(g, d, e, near[h], arcs[q].node, w);
      m := q;
    }
  }

  // ---------------------------------------------------------------- neighbours

  /** What a search of p arcs has found, and the nodes whose arcs it goes through. */
  ghost predicate SearchFound(g: View, d: Direction, s: string, k: nat, limit: nat, p: nat, near: seq<string>, ids: seq<string>) {
    && near == Expanded(g.Arcs(d), s, k) && Scanned(g.Arcs(d), s, k) == Stream(g.Arcs(d), near)
    && p <= |Stream(g.Arcs(d), near)|
    && ids == Discover([s], Stream(g.Arcs(d), near)[..p])
    && Distinct(ids) && ids != [] && ids[0] == s
    && (forall h: nat :: h < |near| && h < |ids| ==> near[h] == ids[h])
    && (p < |Stream(g.Arcs(d), near)| ==> |ids| >= limit)
    && (p > 0 ==> |Discover([s], Stream(g.Arcs(d), near)[..p - 1])| < limit)
  }

  lemma FoundBySearch(g: View, d: Direction, s: string, k: nat, limit: nat, p: nat) returns (near: seq<string>, ids: seq<string>)
    requires limit >= 1 && ShortestScan(s, Scanned(g.Arcs(d), s, k), limit, p)
    ensures SearchFound(g, d, s, k, limit, p, near, ids)
    ensures ids == Take(Order(g.Arcs(d), s, k), limit)
  {
    hide View.Adjacent, Order, Discover, Stream, Scanned;
    var adj := g.Arcs(d);
    near := Expanded(adj, s, k);
    SearchStart(adj, s, k);
    LimitTruncates(s, Scanned(adj, s, k), limit, p);
    ScanGivesOrder(adj, s, k);
    ids := Discover([s], Scanned(adj, s, k)[..p]);
    SingletonDistinct(s);
    DiscoverKeeps([s], Scanned(adj, s, k)[..p]);
    assert ids[0] == [s][0];
    if k > 0 {
      OrderPrefix(adj, s, k - 1, k);
    }
  }

  /** A search only goes through arcs of nodes it has found. */
  lemma ExpandedAreFound(g: View, d: Direction, s: string, k: nat, limit: nat, p: nat, near: seq<string>, ids: seq<string>, q: nat, h: nat, a: nat)
    requires SearchFound(g, d, s, k, limit, p, near, ids) && q < p
    requires h < |near| && a < |g.Arcs(d)(near[h])| && q == IndexOf(g.Arcs(d), near, h, a)
    ensures h < |ids| && ids[h] == near[h]
  {
    hide View.Adjacent, Order, Discover, Stream, Scanned, Distinct, IndexOf;
    var adj := g.Arcs(d);
    var arcs := Stream(adj, near);
    if h > 0 {
      var i := ParentListedBefore(adj, s, k - 1, h);
      var arc :| arc in adj(near[i]) && arc.node == near[h];
      var b :| 0 <= b < |adj(near[i])| && adj(near[i])[b] == arc;
      ArcAtPlace(adj, near, i, b);
      PlacesInOrder(adj, near, i, b, h, a);
      var m := IndexOf(adj, near, i, b);
      assert arcs[..p][m] == arc;
      DiscoverMembers([s], arcs[..p], near[h]);
      assert near[h] in ids;
      PrefixPosition(g, d, s, k, p, near, ids, h);
    }
  }

  lemma PrefixPosition(g: View, d: Direction, s: string, k: nat, p: nat, near: seq<string>, ids: seq<string>, h: nat)
    requires near == Expanded(g.Arcs(d), s, k) && Scanned(g.Arcs(d), s, k) == Stream(g.Arcs(d), near) && p <= |Stream(g.Arcs(d), near)|
    requires ids == Discover([s], Stream(g.Arcs(d), near)[..p])
    requires h < |near| && near[h] in ids
    ensures h < |ids| && ids[h] == near[h]
  {
    hide View.Adjacent, Order, Discover, Stream, Scanned;
    var adj := g.Arcs(d);
    ScanGivesOrder(adj, s, k);
    SingletonDistinct(s);
    DiscoverPrefix([s], Stream(adj, near)[..p], Stream(adj, near));
    OrderGrows(adj, s, k);
    OrderPrefix(adj, s, k - 1, k);
    var all := Order(adj, s, k);
    var i :| 0 <= i < |ids| && ids[i] == near[h];
    assert all[i] == all[h];
  }

  /** Nodes come in the order in which edges of earlier nodes first reach them. */
  lemma NodeReachedFirst(g: View, d: Direction, s: string, k: nat, limit: nat, p: nat, near: seq<string>, ids: seq<string>, x: nat, y: nat)
    requires SearchFound(g, d, s, k, limit, p, near, ids) && 0 < x < y < |ids|
    ensures ReachedFirst(g, d, ids, ids[x], ids[y])
  {
    hide View.Adjacent, View.Leads, Discover, Stream, Scanned, Distinct, IndexOf, Order, Sooner;
    var arcs := Stream(g.Arcs(d), near);
    DiscoverInOrder(s, arcs[..p], x, y);
    var q :| 0 <= q < p && arcs[..p][q].node == ids[x] && forall m :: 0 <= m <= q ==> arcs[..p][m].node != ids[y];
    var h, a := ArcLeads(g, d, near, q);
    ExpandedAreFound(g, d, s, k, limit, p, near, ids, q, h, a);
    var e := arcs[q].edge;
    forall i: nat, f: nat | i < |ids| && g.Leads(d, f, ids[i], ids[y]) ensures Sooner(h, e, i, f) {
      if i >= |near| {
        SoonerNode(h, e, i, f);
      } else if !Sooner(h, e, i, f) {
        var m := EarlierArc(g, d, near, q, h, a, i, f, ids[y]);
      }
    }
    assert g.Leads(d, e, ids[h], ids[x]) && ReachedLater(g, d, ids, h, e, ids[y]);
  }

  lemma SoonerNode(h: nat, e: nat, i: nat, f: nat)
    requires h < i
    ensures Sooner(h, e, i, f)
  {
  }

  /** Edges come in the order in which they first leave a listed node. */
  lemma EdgeLeftFirst(g: View, d: Direction, s: string, k: nat, limit: nat, p: nat, near: seq<string>, ids: seq<string>, x: nat, y: nat)
    requires SearchFound(g, d, s, k, limit, p, near, ids)
    requires var used := EdgesUsed(Stream(g.Arcs(d), near)[..p]); x < y < |used|
    ensures var used := EdgesUsed(Stream(g.Arcs(d), near)[..p]); LeftFirst(g, d, ids, used[x], used[y])
  {
    hide View.Adjacent, View.Leads, Discover, Stream, Scanned, Distinct, IndexOf, Order, Sooner, EdgesUsed;
    var arcs := Stream(g.Arcs(d), near);
    var used := EdgesUsed(arcs[..p]);
    EdgesUsedInOrder(arcs[..p], x, y);
    var q :| 0 <= q < p && arcs[..p][q].edge == used[x] && forall m :: 0 <= m <= q ==> arcs[..p][m].edge != used[y];
    var h, a := ArcLeads(g, d, near, q);
    ExpandedAreFound(g, d, s, k, limit, p, near, ids, q, h, a);
    var e, f := used[x], used[y];
    forall i: nat, w | i < |ids| && g.Leads(d, f, ids[i], w) ensures Sooner(h, e, i, f) {
      if i >= |near| {
        SoonerNode(h, e, i, f);
      } else if !Sooner(h, e, i, f) {
        var m := EarlierArc(g, d, near, q, h, a, i, f, w);
      }
    }
    assert g.Leads(d, e, ids[h], arcs[q].node) && LeftLater(g, d, ids, h, e, f);
  }

  /** When the last node fills the limit, the edges used are those that leave a listed node before that node is reached, or as it is. */
  lemma EdgesUpToLast(g: View, d: Direction, s: string, k: nat, limit: nat, p: nat, near: seq<string>, ids: seq<string>, e: nat)
    requires SearchFound(g, d, s, k, limit, p, near, ids) && |ids| == limit > 1
    ensures e in EdgesUsed(Stream(g.Arcs(d), near)[..p])
            <==> LeavesBeforeReaching(g, d, ids, e, ids[|ids| - 1])
  {
    hide View.Adjacent, View.Leads, Discover, Stream, Scanned, Distinct, IndexOf, Order, Sooner, EdgesUsed, LeavesBefore;
    var arcs := Stream(g.Arcs(d), near);
    EdgesUsedMembers(arcs[..p], e);
    var last := ids[|ids| - 1];
    var z := LastArc(s, arcs, limit, p, ids);
    var lh, la := ArcLeads(g, d, near, z);
    ExpandedAreFound(g, d, s, k, limit, p, near, ids, z, lh, la);
    if arc :| arc in arcs[..p] && arc.edge == e {
      var q :| 0 <= q < p && arcs[..p][q] == arc;
      UsedLeaves(g, d, s, k, limit, p, near, ids, q);
    }
    if h: nat :| LeavesBefore(g, d, ids, h, e, last) {
      LeavingIsUsed(g, d, s, k, limit, p, near, ids, lh, la, h, e);
    }
  }

  /** The last arc of a search that fills its limit reaches the last node, and no arc before does. */
  lemma LastArc(s: string, arcs: seq<Arc<string>>, limit: nat, p: nat, ids: seq<string>) returns (z: nat)
    requires p <= |arcs| && ids == Discover([s], arcs[..p]) && Distinct(ids) && |ids| == limit > 1
    requires p > 0 ==> |Discover([s], arcs[..p - 1])| < limit
    ensures z == p - 1 && arcs[z].node == ids[|ids| - 1]
    ensures forall m :: 0 <= m < z ==> arcs[m].node != ids[|ids| - 1]
  {
    hide Discover;
    DiscoverEmpty(s);
    assert arcs[..0] == [];
    z := p - 1;
    ScanOneMore(s, arcs, z);
    var before := Discover([s], arcs[..z]);
    SingletonDistinct(s);
    forall m | 0 <= m < z ensures arcs[m].node != ids[|ids| - 1] {
      assert arcs[m] == arcs[..z][m] && arcs[m] in arcs[..z];
      DiscoverMembers([s], arcs[..z], arcs[m].node);
    }
  }

  lemma UsedLeaves(g: View, d: Direction, s: string, k: nat, limit: nat, p: nat, near: seq<string>, ids: seq<string>, q: nat)
    requires SearchFound(g, d, s, k, limit, p, near, ids) && |ids| == limit > 1 && q < p
    ensures LeavesBeforeReaching(g, d, ids, Stream(g.Arcs(d), near)[q].edge, ids[|ids| - 1])
  {
    hide View.Adjacent, View.Leads, Discover, Stream, Scanned, Distinct, IndexOf, Order;
    var arcs, last := Stream(g.Arcs(d), near), ids[|ids| - 1];
    var z := LastArc(s, arcs, limit, p, ids);
    var h, a := ArcLeads(g, d, near, q);
    var e := arcs[q].edge;
    ExpandedAreFound(g, d, s, k, limit, p, near, ids, q, h, a);
    forall i: nat, f: nat | i < |ids| && g.Leads(d, f, ids[i], last) ensures !Sooner(i, f, h, e) {
      if Sooner(i, f, h, e) {
        var m, b := ArcOfEdge(g, d, near, i, f, last);
        AdjacentInOrder(g, d, near[h]);
        PlacesInOrder(g.Arcs(d), near, i, b, h, a);
      }
    }
    assert LeavesBefore(g, d, ids, h, e, last);
  }

  lemma LeavingIsUsed(
      g: View, d: Direction, s: string, k: nat, limit: nat, p: nat, near: seq<string>, ids: seq<string>, lh: nat, la: nat, h: nat, e: nat)
    requires SearchFound(g, d, s, k, limit, p, near, ids) && |ids| == limit > 1 && p > 0
    requires lh < |near| && lh < |ids| && la < |g.Arcs(d)(near[lh])| && p - 1 == IndexOf(g.Arcs(d), near, lh, la)
    requires Stream(g.Arcs(d), near)[p - 1] == g.Arcs(d)(near[lh])[la]
    requires g.Leads(d, Stream(g.Arcs(d), near)[p - 1].edge, near[lh], ids[|ids| - 1])
    requires LeavesBefore(g, d, ids, h, e, ids[|ids| - 1])
    ensures exists arc :: arc in Stream(g.Arcs(d), near)[..p] && arc.edge == e
  {
    hide View.Adjacent, View.Leads, Discover, Stream, Scanned, Distinct, IndexOf, Order;
    var arcs, z := Stream(g.Arcs(d), near), p - 1;
    var w :| g.Leads(d, e, ids[h], w);
    assert !Sooner(lh, arcs[z].edge, h, e);
    var m := EarlierArc(g, d, near, z, lh, la, h, e, w);
    assert arcs[..p][m] == Arc(e, w);
  }

  /** The edges used run between found nodes. */
  lemma UsedInside(g: View, d: Direction, s: string, k: nat, limit: nat, p: nat, near: seq<string>, ids: seq<string>, e: nat)
    requires SearchFound(g, d, s, k, limit, p, near, ids) && e in EdgesUsed(Stream(g.Arcs(d), near)[..p])
    ensures e < |g.edges| && g.edges[e].source in ids && g.edges[e].target in ids
  {
    hide View.Adjacent, Discover, Stream, Scanned, Distinct, IndexOf, Order, EdgesUsed, View.Known;
    var arcs := Stream(g.Arcs(d), near);
    EdgesUsedMembers(arcs[..p], e);
    var arc :| arc in arcs[..p] && arc.edge == e;
    var q :| 0 <= q < p && arcs[..p][q] == arc;
    var h, a := ArcLeads(g, d, near, q);
    ExpandedAreFound(g, d, s, k, limit, p, near, ids, q, h, a);
    DiscoverMembers([s], arcs[..p], arc.node);
  }

  lemma SearchInOrder(g: View, d: Direction, s: string, k: nat, limit: nat, p: nat, near: seq<string>, ids: seq<string>)
    requires p <= |Stream(g.Arcs(d), near)| && SearchFound(g, d, s, k, limit, p, near, ids)
    ensures InSearchOrder(g, d, limit, ids, EdgesUsed(Stream(g.Arcs(d), near)[..p]))
  {
    hide View.Adjacent, Stream, EdgesUsed, SearchFound, ReachedFirst, LeftFirst, LeavesBeforeReaching;
    var used := EdgesUsed(Stream(g.Arcs(d), near)[..p]);
    forall x, y | 0 < x < y < |ids| ensures ReachedFirst(g, d, ids, ids[x], ids[y]) {
      NodeReachedFirst(g, d, s, k, limit, p, near, ids, x, y);
    }
    forall x, y | 0 <= x < y < |used| ensures LeftFirst(g, d, ids, used[x], used[y]) {
      EdgeLeftFirst(g, d, s, k, limit, p, near, ids, x, y);
    }
    if |ids| == limit > 1 {
      forall e: nat ensures e in used <==> LeavesBeforeReaching(g, d, ids, e, ids[|ids| - 1]) {
        EdgesUpToLast(g, d, s, k, limit, p, near, ids, e);
      }
    }
    if |ids| == limit == 1 {
      NoneUsed(g, d, s, k, p, near, ids);
    }
  }

  /** Closing drops none of the edges used. */
  lemma UsedKept(g: View, d: Direction, s: string, k: nat, limit: nat, p: nat, near: seq<string>, ids: seq<string>)
    requires p <= |Stream(g.Arcs(d), near)| && SearchFound(g, d, s, k, limit, p, near, ids)
    ensures var used := EdgesUsed(Stream(g.Arcs(d), near)[..p]);
            Distinct(used) && InRange(g, used) && Closed(g, ids, used) == used
  {
    hide View.Adjacent, Stream, EdgesUsed, SearchFound, Closed, Distinct;
    var used := EdgesUsed(Stream(g.Arcs(d), near)[..p]);
    EdgesUsedMembers(Stream(g.Arcs(d), near)[..p], 0);
    forall j | 0 <= j < |used| ensures used[j] < |g.edges| && g.edges[used[j]].source in ids && g.edges[used[j]].target in ids {
      UsedInside(g, d, s, k, limit, p, near, ids, used[j]);
    }
    ClosedKeepsAll(g, ids, used);
  }

  /** A neighbours answer, with or without a cut: the start, then nodes and edges in the order of the search, which fixes what a limit keeps. */
  lemma NeighborsInOrder(g: View, request: Request, d: Direction, r: Response) returns (used: seq<nat>)
    requires request.limit >= 1 && NeighborsAnswer(g, request, d, Answer(r))
    ensures r.nodes != [] && r.nodes[0].id == request.startNodeId
    ensures InSearchOrder(g, d, request.limit, IdsOf(r.nodes), used)
    ensures Distinct(used) && |r.edges| == Min(|used|, request.limit)
    ensures forall j :: 0 <= j < |r.edges| ==> used[j] < |g.edges| && r.edges[j] == g.edges[used[j]]
    ensures |r.nodes| < request.limit ==> forall e: nat :: e in used <==> LeavesNear(g, d, request.startNodeId, request.maxDepth, e)
  {
    hide View.Adjacent, View.Known, View.NodeById, Discover, Stream, Scanned, EdgesUsed, Order, ShortestScan, Closed, Distinct, InSearchOrder, LeavesNear;
    var s, k := request.startNodeId, request.maxDepth;
    var p: nat :| NeighborsFrom(g, request, s, Scanned(g.Arcs(d), s, k), p, r);
    var near, ids := FoundBySearch(g, d, s, k, request.limit, p);
    used := EdgesUsed(Stream(g.Arcs(d), near)[..p]);
    UsedKept(g, d, s, k, request.limit, p, near, ids);
    SearchInOrder(g, d, s, k, request.limit, p, near, ids);
    assert IdsOf(r.nodes) == ids;
    assert r.nodes[0].id == ids[0];
    if |ids| < request.limit {
      assert Stream(g.Arcs(d), near)[..p] == Stream(g.Arcs(d), near);
      forall e: nat ensures e in used <==> LeavesNear(g, d, s, k, e) {
        UsedWithoutCut(g, d, s, k, e);
      }
    }
  }

  /** Edge e leaves a node that is nearer than the depth. */
  ghost predicate LeavesNear(g: View, d: Direction, s: string, k: nat, e: nat) {
    k > 0 && exists u, v :: Within(g.Arcs(d), s, u, k - 1) && g.Leads(d, e, u, v)
  }

  lemma UsedWithoutCut(g: View, d: Direction, s: string, k: nat, e: nat)
    ensures e in EdgesUsed(Scanned(g.Arcs(d), s, k)) <==> LeavesNear(g, d, s, k, e)
  {
    hide View.Adjacent, View.Leads, EdgesUsed, Scanned;
    UntruncatedEdges(g.Arcs(d), s, k, e);
    forall u, v ensures Arc(e, v) in g.Arcs(d)(u) <==> g.Leads(d, e, u, v) {
      AdjacentCovers(g, d, u, Arc(e, v));
    }
  }

  lemma NoneUsed(g: View, d: Direction, s: string, k: nat, p: nat, near: seq<string>, ids: seq<string>)
    requires SearchFound(g, d, s, k, 1, p, near, ids)
    ensures EdgesUsed(Stream(g.Arcs(d), near)[..p]) == []
  {
    hide Stream, Discover;
    if p > 0 {
      SingletonDistinct(s);
      DiscoverKeeps([s], Stream(g.Arcs(d), near)[..p - 1]);
    }
  }

  // ---------------------------------------------------------------- paths

  /** A path of the graph from s to t that meets no node twice, of at most k edges. */
  ghost predicate IsPathWithin(g: View, d: Direction, s: string, t: string, k: nat, q: Path<string>) {
    && |q.nodes| == |q.edges| + 1 <= k + 1 && q.nodes[0] == s && q.nodes[|q.edges|] == t && Distinct(q.nodes)
    && forall j :: 0 <= j < |q.edges| ==> g.Leads(d, q.edges[j], q.nodes[j], q.nodes[j + 1])
  }

  lemma PathsOfGraph(g: View, d: Direction, s: string, t: string, k: nat, q: Path<string>)
    requires s != t
    ensures q in AllPaths(g.Arcs(d), s, t, k) <==> IsPathWithin(g, d, s, t, k, q)
  {
    hide View.Adjacent, View.Leads, AllPaths, Distinct;
    AllPathsMembers(g.Arcs(d), s, t, k, q);
    if |q.nodes| == |q.edges| + 1 {
      forall j | 0 <= j < |q.edges|
        ensures Arc(q.edges[j], q.nodes[j + 1]) in g.Arcs(d)(q.nodes[j]) <==> g.Leads(d, q.edges[j], q.nodes[j], q.nodes[j + 1])
      {
        AdjacentCovers(g, d, q.nodes[j], Arc(q.edges[j], q.nodes[j + 1]));
      }
    }
  }

  /** A listed path with its edges looked up. */
  ghost predicate Shows(g: View, q: Path<string>, shown: QueryPath) {
    && shown.nodeIds == q.nodes && |shown.edges| == |q.edges|
    && forall j :: 0 <= j < |q.edges| ==> q.edges[j] < |g.edges| && shown.edges[j] == g.edges[q.edges[j]]
  }

  /**
   A paths answer lists simple paths of the graph, shortest first and then by their edge indexes; any path it leaves out
   comes after all of them, and nothing is left out below the limit. The nodes are those of the listed paths and the
   edges the first `limit` of those on them, both in the order in which walking the listed paths first meets them.
   */
  lemma PathsInAnswer(g: View, request: Request, r: Response) returns (listed: seq<Path<string>>, used: seq<nat>)
    requires request.limit >= 1 && request.startNodeId != request.targetNodeId && PathsAnswer(g, request, Answer(r))
    ensures |r.paths| == |listed| <= request.limit && forall i :: 0 <= i < |listed| ==> Shows(g, listed[i], r.paths[i])
    ensures PathsInOrder(listed)
    ensures forall q :: q in listed ==> IsPathWithin(g, request.direction, request.startNodeId, request.targetNodeId, request.maxDepth, q)
    ensures forall q :: IsPathWithin(g, request.direction, request.startNodeId, request.targetNodeId, request.maxDepth, q) && q !in listed ==>
              |listed| == request.limit && forall i :: 0 <= i < |listed| ==> PathBefore(listed[i], q)
    ensures var ids := IdsOf(r.nodes);
            && (forall v :: v in ids <==> exists q :: q in listed && v in q.nodes)
            && (forall x, y :: 0 <= x < y < |ids| ==> NodeMetBefore(listed, ids[x], ids[y]))
    ensures forall e :: e in used <==> exists q :: q in listed && e in q.edges
    ensures forall x, y :: 0 <= x < y < |used| ==> EdgeMetBefore(listed, used[x], used[y])
    ensures |r.edges| == Min(|used|, request.limit) && forall j :: 0 <= j < |r.edges| ==> used[j] < |g.edges| && r.edges[j] == g.edges[used[j]]
  {
    hide View.Adjacent, View.Known, View.NodeById, AllPaths, NodesOn, EdgesOn, Closed, Distinct, IsPathWithin, PathBefore, EdgeMetBefore, NodeMetBefore;
    var s, t, d, k := request.startNodeId, request.targetNodeId, request.direction, request.maxDepth;
    var all := AllPaths(g.Arcs(d), s, t, k);
    listed := Take(all, request.limit);
    used := EdgesOn(listed);
    PathsMeaning(g, d, s, t, k, listed);
    NodesOnMembers(listed);
    EdgesOnMembers(listed);
    assert IdsOf(r.nodes) == NodesOn(listed);
    forall x, y | 0 <= x < y < |used| ensures EdgeMetBefore(listed, used[x], used[y]) {
      EdgesOnInOrder(listed, x, y);
    }
    forall x, y | 0 <= x < y < |NodesOn(listed)| ensures NodeMetBefore(listed, NodesOn(listed)[x], NodesOn(listed)[y]) {
      NodesOnInOrder(listed, x, y);
    }
    ViewArcsInOrder(g, d);
    AllPathsInOrder(g.Arcs(d), s, t, k);
    forall q ensures q in all <==> IsPathWithin(g, d, s, t, k, q) {
      PathsOfGraph(g, d, s, t, k, q);
    }
    assert forall i :: 0 <= i < |listed| ==> listed[i] == all[i];
    forall q | q in all && q !in listed ensures |listed| == request.limit && forall i :: 0 <= i < |listed| ==> PathBefore(listed[i], q) {
      var j :| 0 <= j < |all| && all[j] == q;
    }
  }

  /** From a node to itself there is one path, without edges. */
  lemma TrivialAnswer(g: View, request: Request, r: Response)
    requires request.limit >= 1 && request.startNodeId == request.targetNodeId && PathsAnswer(g, request, Answer(r))
    ensures r.paths == [QueryPath([request.startNodeId], [])] && r.edges == []
    ensures |r.nodes| == 1 && r.nodes[0].id == request.startNodeId
  {
    hide View.Known, View.NodeById, NodesOn, EdgesOn;
    TrivialPath(request.startNodeId);
  }

  lemma ViewArcsInOrder(g: View, d: Direction)
    ensures SimpleArcs(g.Arcs(d)) && ArcsInOrder(g.Arcs(d))
  {
    hide View.Adjacent, RepeatsOnlyLoops, InEdgeOrder;
    ArcsAreSimple(g, d);
    forall u ensures InEdgeOrder(g.Arcs(d)(u)) {
      AdjacentInOrder(g, d, u);
    }
  }
}
