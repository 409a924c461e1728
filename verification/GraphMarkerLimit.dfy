/** When a lookup by source reference or tag returns one node more than its limit. */
module GraphMarkerLimit {
  import opened Sequences
  import opened GraphView
  import opened GraphMarkers

  // ---------------------------------------------------------------- where a lookup stops

  /** Every lookup stops somewhere, */
  lemma StopExists(marks: seq<Mark>, limit: nat) returns (p: nat)
    ensures StopsAt(marks, limit, p)
  {
    hide Listed;
    p := 0;
    while p < |marks| && !(p > 0 && marks[p - 1].check && |Listed(marks[..p])| >= limit)
      invariant p <= |marks| && UnderLimit(marks, limit, p)
    {
      p := p + 1;
    }
  }

  /** and at one place only. */
  lemma StopUnique(marks: seq<Mark>, limit: nat, p: nat, q: nat)
    requires StopsAt(marks, limit, p) && StopsAt(marks, limit, q)
    ensures p == q
  {
    hide Listed;
  }

  /** The limit is exceeded exactly when an unchecked step fills the last slot and the next step lists a new node. */
  lemma OneOverExactly(marks: seq<Mark>, limit: nat, p: nat)
    requires limit >= 1 && ChecksFollow(marks) && StopsAt(marks, limit, p)
    ensures |Listed(marks[..p])| > limit <==>
            && p >= 2 && !marks[p - 2].check
            && |Listed(marks[..p - 1])| == limit && marks[p - 1].node !in Listed(marks[..p - 1])
  {
    hide Listed;
    NothingListed(marks);
    AtMostOneOver(marks, limit, p);
    if p >= 1 {
      ListedOneMore(marks, p - 1);
    }
    if p >= 2 {
      ListedOneMore(marks, p - 2);
      assert marks[p - 2].check ==> |Listed(marks[..p - 1])| < limit;
    }
  }

  // ---------------------------------------------------------------- the same on the graph

  /** The node the first edge pointing at the marker comes from. */
  function FirstSource(g: View, relation: string, marker: string): string
    requires PointingEdges(g, relation, marker, |g.edges|) != []
  {
    var pointing := PointingEdges(g, relation, marker, |g.edges|);
    assert pointing[0] in pointing;
    g.edges[pointing[0]].source
  }

  /**
   Marker k fills the last slot: limit - 1 nodes are listed by the markers before it and it is not one of them; and
   the first edge that points at it comes from yet another node.
   */
  ghost predicate Overflows(g: View, relation: string, markers: seq<string>, limit: nat, k: nat) {
    && k < |markers|
    && var before := Listed(Marks(g, relation, markers[..k]));
    && |before| == limit - 1 && markers[k] !in before
    && PointingEdges(g, relation, markers[k], |g.edges|) != []
    && FirstSource(g, relation, markers[k]) !in before + [markers[k]]
  }

  lemma {:induction false} ListedGrows(marks: seq<Mark>, p: nat, q: nat)
    requires p <= q <= |marks|
    ensures |Listed(marks[..p])| <= |Listed(marks[..q])|
    decreases q
  {
    hide Listed;
    if p < q {
      ListedGrows(marks, p, q - 1);
      ListedOneMore(marks, q - 1);
    }
  }

  /** An unchecked step is the first step of a marker that some edge points at. */
  lemma {:induction false} UncheckedStep(g: View, relation: string, markers: seq<string>, q: nat) returns (k: nat)
    requires q < |Marks(g, relation, markers)| && !Marks(g, relation, markers)[q].check
    ensures k < |markers| && q == |Marks(g, relation, markers[..k])|
    decreases |markers|
  {
    var n := |markers| - 1;
    var before := Marks(g, relation, markers[..n]);
    if q < |before| {
      k := UncheckedStep(g, relation, markers[..n], q);
      assert markers[..n][..k] == markers[..k];
    } else {
      k := n;
    }
  }

  /** The steps of marker k: where they sit, and what the first two of them are. */
  lemma StepsOfMarker(g: View, relation: string, markers: seq<string>, k: nat)
    requires k < |markers|
    ensures var all, q := Marks(g, relation, markers), |Marks(g, relation, markers[..k])|;
            var pointing := PointingEdges(g, relation, markers[k], |g.edges|);
            && q < |all| && all[..q] == Marks(g, relation, markers[..k])
            && all[q].node == markers[k] && (all[q].check <==> pointing == [])
            && (pointing != [] ==> q + 1 < |all| && all[q + 1].check && all[q + 1].node == FirstSource(g, relation, markers[k]))
  {
    hide Marks, PointingEdges;
    var before := Marks(g, relation, markers[..k]);
    var own := MarksOf(g, relation, markers[k]);
    MarksSplit(g, relation, markers, k);
    assert (before + own)[|before|] == own[0];
    assert |own| > 1 ==> (before + own)[|before| + 1] == own[1];
  }

  lemma OverflowIsReached(g: View, relation: string, markers: seq<string>, limit: nat, p: nat, k: nat)
    requires limit >= 1 && StopsAt(Marks(g, relation, markers), limit, p) && Overflows(g, relation, markers, limit, k)
    ensures |Listed(Marks(g, relation, markers)[..p])| > limit
  {
    hide Marks, Listed, PointingEdges, FirstSource;
    var all, q := Marks(g, relation, markers), |Marks(g, relation, markers[..k])|;
    StepsOfMarker(g, relation, markers, k);
    ListedOneMore(all, q);
    ListedOneMore(all, q + 1);
    if p <= q {
      ListedGrows(all, p, q);
    }
  }

  lemma OverflowIsNeeded(g: View, relation: string, markers: seq<string>, limit: nat, p: nat) returns (k: nat)
    requires limit >= 1 && StopsAt(Marks(g, relation, markers), limit, p)
    requires |Listed(Marks(g, relation, markers)[..p])| > limit
    ensures Overflows(g, relation, markers, limit, k)
  {
    hide Marks, Listed, PointingEdges, FirstSource;
    var all := Marks(g, relation, markers);
    MarksChecked(g, relation, markers);
    OneOverExactly(all, limit, p);
    var q := p - 2;
    k := UncheckedStep(g, relation, markers, q);
    StepsOfMarker(g, relation, markers, k);
    NothingListed(all);
    ListedOneMore(all, q);
    assert q > 0 ==> all[q - 1].check;
  }

  /** The lookup returns more nodes than its limit exactly when some marker overflows it. */
  lemma OneOverOnGraph(g: View, relation: string, markers: seq<string>, limit: nat, p: nat)
    requires limit >= 1 && StopsAt(Marks(g, relation, markers), limit, p)
    ensures |Listed(Marks(g, relation, markers)[..p])| > limit <==> exists k: nat :: Overflows(g, relation, markers, limit, k)
  {
    hide Marks, Listed, Overflows;
    if |Listed(Marks(g, relation, markers)[..p])| > limit {
      var k := OverflowIsNeeded(g, relation, markers, limit, p);
    }
    if k: nat :| Overflows(g, relation, markers, limit, k) {
      OverflowIsReached(g, relation, markers, limit, p, k);
    }
  }

  // ---------------------------------------------------------------- the bound is reached at every limit

  /** n times the letter a. */
  function Name(n: nat): string {
    seq(n, i => 'a')
  }

  function Tags(n: nat): seq<GraphNode> {
    seq(n, i requires 0 <= i < n => GraphNode(Name(i + 1), "v", "tag"))
  }

  function Names(n: nat): seq<string> {
    seq(n, i requires 0 <= i < n => Name(i + 1))
  }

  /** As many tags labelled v as the limit allows; one page carries the last of them. */
  function Crowd(limit: nat, allowed: set<string>): View {
    View(Tags(limit) + [GraphNode("p", "Page", "page")], [GraphEdge("p", Name(limit), "tagged")], allowed)
  }

  lemma {:induction false} TagsMatch(n: nat)
    ensures MatchMarkerIds(Tags(n), "v", "tag", "tag:") == Names(n)
    decreases n
  {
    if n > 0 {
      TagsMatch(n - 1);
      assert Tags(n)[..n - 1] == Tags(n - 1);
      assert Names(n) == Names(n - 1) + [Name(n)];
    }
  }

  lemma CrowdMatches(limit: nat, allowed: set<string>)
    ensures MatchMarkerIds(Crowd(limit, allowed).nodes, "v", "tag", "tag:") == Names(limit)
  {
    var nodes := Crowd(limit, allowed).nodes;
    TagsMatch(limit);
    assert nodes[..|nodes| - 1] == Tags(limit);
    assert "page"[0] != "tag"[0];
  }

  lemma NamesDiffer(m: nat, n: nat)
    ensures Name(m) == Name(n) ==> m == n
    ensures Name(m) != "p"
  {
    assert |Name(m)| == m && |Name(n)| == n;
    assert m > 0 ==> Name(m)[0] == 'a';
  }

  /** Only the last tag is carried by a page. */
  lemma CrowdEdges(limit: nat, allowed: set<string>, m: nat)
    requires 1 <= m <= limit
    ensures PointingEdges(Crowd(limit, allowed), "tagged", Name(m), 1) == if m == limit then [0] else []
  {
    var g := Crowd(limit, allowed);
    NamesDiffer(m, limit);
    assert g.nodes[limit].id == "p" && g.nodes[limit - 1].id == Name(limit);
    assert g.Known("p") && g.Known(Name(limit));
    assert PointingEdges(g, "tagged", Name(m), 0) == [];
    assert Points(g, "tagged", 0, Name(m)) <==> m == limit;
  }

  lemma {:induction false} TagsListed(limit: nat, allowed: set<string>, n: nat)
    requires n < limit
    ensures Listed(Marks(Crowd(limit, allowed), "tagged", Names(n))) == Names(n)
    decreases n
  {
    hide PointingEdges, View.Known, AddNew;
    var g := Crowd(limit, allowed);
    if n == 0 {
      NothingListed([]);
    } else {
      TagsListed(limit, allowed, n - 1);
      CrowdEdges(limit, allowed, n);
      assert Names(n)[..n - 1] == Names(n - 1);
      var all := Marks(g, "tagged", Names(n));
      assert all[..|all| - 1] == Marks(g, "tagged", Names(n - 1));
      assert all[..|all|] == all;
      ListedOneMore(all, |all| - 1);
      NewName(n);
      assert Names(n) == Names(n - 1) + [Name(n)];
    }
  }

  lemma NewName(n: nat)
    requires n > 0
    ensures Name(n) !in Names(n - 1) && "p" !in Names(n)
  {
    var before, names := Names(n - 1), Names(n);
    forall i | 0 <= i < |before| ensures before[i] != Name(n) {
      NamesDiffer(i + 1, n);
    }
    forall i | 0 <= i < |names| ensures names[i] != "p" {
      NamesDiffer(i + 1, n);
    }
  }

  /** The steps of a lookup of v in that graph. */
  function CrowdSteps(limit: nat, allowed: set<string>): seq<Mark> {
    var g := Crowd(limit, allowed);
    Marks(g, "tagged", MatchMarkerIds(g.nodes, "v", "tag", "tag:"))
  }

  /** For every limit there is a graph whose lookup stops in one place only, with limit + 1 nodes. */
  lemma OneOverIsReached(limit: nat, allowed: set<string>) returns (p: nat)
    requires limit >= 1
    ensures StopsAt(CrowdSteps(limit, allowed), limit, p) && |Listed(CrowdSteps(limit, allowed)[..p])| == limit + 1
    ensures forall q :: StopsAt(CrowdSteps(limit, allowed), limit, q) ==> q == p
  {
    hide Marks, Listed, PointingEdges, MatchMarkerIds, StopsAt;
    var g, markers := Crowd(limit, allowed), Names(limit);
    CrowdMatches(limit, allowed);
    var all := Marks(g, "tagged", markers);
    p := StopExists(all, limit);
    CrowdOverflows(limit, allowed);
    OverflowIsReached(g, "tagged", markers, limit, p, limit - 1);
    MarksChecked(g, "tagged", markers);
    AtMostOneOver(all, limit, p);
    forall q | StopsAt(all, limit, q) ensures q == p {
      StopUnique(all, limit, p, q);
    }
  }

  lemma CrowdOverflows(limit: nat, allowed: set<string>)
    requires limit >= 1
    ensures Overflows(Crowd(limit, allowed), "tagged", Names(limit), limit, limit - 1)
  {
    hide Marks, Listed, PointingEdges;
    TagsListed(limit, allowed, limit - 1);
    CrowdEdges(limit, allowed, limit);
    assert Names(limit)[..limit - 1] == Names(limit - 1);
    assert Names(limit) == Names(limit - 1) + [Name(limit)];
    NewName(limit);
  }
}
