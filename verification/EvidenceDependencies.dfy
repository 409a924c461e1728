/**
 The dependency check of the bundle validator: evidence ids are unique, dependencies stay inside a query, and a
 three-colour depth-first search rejects cycles.
 */
module EvidenceDependencies {
  import opened Sequences

  datatype EvidenceRef<I> = EvidenceRef(id: I, query: I, dependsOn: seq<I>)

  datatype Problem = DuplicateId | SelfDependency | UnknownDependency | OtherQuery | Cycle

  datatype Verdict = Accepted | Rejected(problem: Problem)

  function Ids<I>(refs: seq<EvidenceRef<I>>): seq<I> {
    seq(|refs|, k requires 0 <= k < |refs| => refs[k].id)
  }

  /** The id-uniqueness part of the row loader. */
  method CheckUniqueIds<I(==)>(refs: seq<EvidenceRef<I>>) returns (v: Verdict)
    ensures v == (if Distinct(Ids(refs)) then Accepted else Rejected(DuplicateId))
  {
    var seen: set<I> := {};
    for k := 0 to |refs|
      invariant seen == set j | 0 <= j < k :: refs[j].id
      invariant forall i, j :: 0 <= i < j < k ==> refs[i].id != refs[j].id
    {
      if refs[k].id in seen {
        ghost var j :| 0 <= j < k && refs[j].id == refs[k].id;
        assert Ids(refs)[j] == Ids(refs)[k];
        return Rejected(DuplicateId);
      }
      seen := seen + {refs[k].id};
    }
    v := Accepted;
  }

  // ---------------------------------------------------------------- cycles and topological orders

  /** Who depends on whom; every dependency is itself a key. */
  type Deps<I> = map<I, seq<I>>

  ghost predicate ClosedUnder<I(!new)>(deps: Deps<I>) {
    forall x, d :: x in deps && d in deps[x] ==> d in deps
  }

  ghost predicate IsChain<I>(deps: Deps<I>, c: seq<I>) {
    forall k :: 0 <= k < |c| - 1 ==> c[k] in deps && c[k + 1] in deps[c[k]]
  }

  ghost predicate IsCycle<I(!new)>(deps: Deps<I>, c: seq<I>) {
    IsChain(deps, c) && |c| >= 2 && c[0] == c[|c| - 1]
  }

  ghost predicate Acyclic<I(!new)>(deps: Deps<I>) {
    forall c :: !IsCycle(deps, c)
  }

  /** Everything listed depends only on what is listed before it. */
  ghost predicate Topological<I(!new)>(deps: Deps<I>, order: seq<I>) {
    && Distinct(order)
    && (forall k :: 0 <= k < |order| ==> order[k] in deps)
    && forall k, d :: 0 <= k < |order| && d in deps[order[k]] ==> d in order[..k]
  }

  lemma {:induction false} ChainDescends<I(!new)>(deps: Deps<I>, order: seq<I>, c: seq<I>, first: nat, k: nat) returns (rank: nat)
    requires Topological(deps, order) && IsChain(deps, c) && k < |c| && first < |order| && order[first] == c[0]
    ensures rank <= first && order[rank] == c[k] && (k > 0 ==> rank < first)
    decreases k
  {
    if k == 0 {
      rank := first;
    } else {
      var r := ChainDescends(deps, order, c, first, k - 1);
      assert c[k] in deps[c[k - 1]];
      assert c[k] in order[..r];
      rank :| 0 <= rank < r && order[..r][rank] == c[k];
    }
  }

  /** A complete topological order excludes cycles. */
  lemma TopologicalIsAcyclic<I(!new)>(deps: Deps<I>, order: seq<I>)
    requires Topological(deps, order) && forall x :: x in deps ==> x in order
    ensures Acyclic(deps)
  {
    forall c ensures !IsCycle(deps, c) {
      if IsCycle(deps, c) {
        assert c[0] in deps;
        var first :| 0 <= first < |order| && order[first] == c[0];
        var rank := ChainDescends(deps, order, c, first, |c| - 1);
      }
    }
  }

  // ---------------------------------------------------------------- the search

  ghost predicate Coloured<I(!new)>(deps: Deps<I>, state: map<I, int>, order: seq<I>, path: seq<I>) {
    && IsChain(deps, path)
    && (forall x :: x in state ==> x in deps && (state[x] == 1 || state[x] == 2))
    && (forall x :: x in state && state[x] == 1 <==> x in path)
    && (forall x :: x in state && state[x] == 2 <==> x in order)
    && Topological(deps, order)
  }

  lemma TurnGrey<I(!new)>(deps: Deps<I>, state: map<I, int>, order: seq<I>, path: seq<I>, x: I)
    requires Coloured(deps, state, order, path) && x in deps && x !in state
    requires path != [] ==> path[|path| - 1] in deps && x in deps[path[|path| - 1]]
    ensures Coloured(deps, state[x := 1], order, path + [x])
  {
    hide Topological;
  }

  lemma TurnBlack<I(!new)>(deps: Deps<I>, state: map<I, int>, order: seq<I>, path: seq<I>, x: I)
    requires Coloured(deps, state, order, path + [x]) && x !in path && x in deps && x !in order
    requires forall d :: d in deps[x] ==> d in order
    ensures Coloured(deps, state[x := 2], order + [x], path)
  {
    FinishIsTopological(deps, order, x);
    hide Topological;
    forall k | 0 <= k < |path| - 1 ensures path[k] in deps && path[k + 1] in deps[path[k]] {
      assert (path + [x])[k] == path[k] && (path + [x])[k + 1] == path[k + 1];
    }
  }

  /** `visit_state` with its colours: 1 on the current path, 2 done. */
  class Walk<I(==,!new)> {
    const deps: Deps<I>
    var visitState: map<I, int>
    ghost var order: seq<I>

    constructor (deps: Deps<I>)
      ensures this.deps == deps && visitState == map[] && order == []
    {
      this.deps := deps;
      visitState := map[];
      order := [];
    }

    /** The path holds the grey nodes; the finished ones are listed in topological order. */
    ghost predicate Valid(path: seq<I>)
      reads this
    {
      Coloured(deps, visitState, order, path)
    }

    /** `visit`: False stands for the raised error, and then there is a cycle. */
    method Visit(x: I, ghost path: seq<I>) returns (ok: bool)
      requires ClosedUnder(deps) && Valid(path) && x in deps
      requires path != [] ==> path[|path| - 1] in deps && x in deps[path[|path| - 1]]
      modifies this`visitState, this`order
      ensures !ok ==> exists c :: IsCycle(deps, c)
      ensures ok ==> Valid(path) && x in order && old(order) <= order && old(visitState.Keys) <= visitState.Keys
      decreases deps.Keys - visitState.Keys
    {
      hide Coloured, Topological, IsChain, ClosedUnder;
      ColouredState(deps, visitState, order, path, x);
      var state := if x in visitState then visitState[x] else 0;
      if state == 1 {
        GreyMeansCycle(deps, path, x);
        return false;
      }
      if state == 2 {
        return true;
      }
      TurnGrey(deps, visitState, order, path, x);
      visitState := visitState[x := 1];
      ghost var deeper := path + [x];
      var needs := deps[x];
      var k := 0;
      while k < |needs|
        invariant 0 <= k <= |needs|
        invariant Valid(deeper) && old(order) <= order
        invariant old(visitState.Keys) + {x} <= visitState.Keys
        invariant forall j :: 0 <= j < k ==> needs[j] in order
      {
        ghost var before := order;
        ClosedAt(deps, x, needs[k]);
        var deeperOk := Visit(needs[k], deeper);
        if !deeperOk {
          return false;
        }
        k := k + 1;
      }
      ColouredState(deps, visitState, order, deeper, x);
      TurnBlack(deps, visitState, order, path, x);
      visitState := visitState[x := 2];
      order := order + [x];
      ok := true;
    }
  }

  lemma ClosedAt<I(!new)>(deps: Deps<I>, x: I, d: I)
    requires ClosedUnder(deps) && x in deps && d in deps[x]
    ensures d in deps
  {
  }

  lemma ColouredState<I(!new)>(deps: Deps<I>, state: map<I, int>, order: seq<I>, path: seq<I>, x: I)
    requires Coloured(deps, state, order, path)
    ensures x in state ==> state[x] == 1 || state[x] == 2
    ensures x in state && state[x] == 1 <==> x in path
    ensures x in state && state[x] == 2 <==> x in order
    ensures x in path ==> x !in order
    ensures forall y :: y in state ==> y in deps
    ensures IsChain(deps, path)
  {
    hide Topological, IsChain;
  }

  lemma GreyMeansCycle<I(!new)>(deps: Deps<I>, path: seq<I>, x: I)
    requires IsChain(deps, path) && x in path && path[|path| - 1] in deps && x in deps[path[|path| - 1]]
    ensures exists c :: IsCycle(deps, c)
  {
    var k :| 0 <= k < |path| && path[k] == x;
    assert IsCycle(deps, path[k..] + [x]);
  }

  lemma FinishIsTopological<I(!new)>(deps: Deps<I>, order: seq<I>, x: I)
    requires Topological(deps, order) && x in deps && x !in order
    requires forall d :: d in deps[x] ==> d in order
    ensures Topological(deps, order + [x])
  {
    var more := order + [x];
    forall k, d | 0 <= k < |more| && d in deps[more[k]] ensures d in more[..k] {
      if k < |order| {
        assert more[..k] == order[..k];
      } else {
        assert more[..k] == order;
      }
    }
  }

  // ---------------------------------------------------------------- the check

  /** The dictionary of evidence by id, reduced to its dependencies. */
  function DepsOf<I(==,!new)>(refs: seq<EvidenceRef<I>>): (deps: Deps<I>)
    ensures forall x :: x in deps <==> x in Ids(refs)
  {
    if refs == [] then map[]
    else
      var n := |refs| - 1;
      assert Ids(refs) == Ids(refs[..n]) + [refs[n].id];
      DepsOf(refs[..n])[refs[n].id := refs[n].dependsOn]
  }

  lemma {:induction false} DepsOfRow<I(!new)>(refs: seq<EvidenceRef<I>>, k: nat)
    requires Distinct(Ids(refs)) && k < |refs|
    ensures refs[k].id in DepsOf(refs) && DepsOf(refs)[refs[k].id] == refs[k].dependsOn
    decreases |refs|
  {
    var n := |refs| - 1;
    if k < n {
      assert Ids(refs)[k] != Ids(refs)[n];
      assert Ids(refs[..n]) == Ids(refs)[..n];
      DepsOfRow(refs[..n], k);
    }
  }

  /** Dependency d of reference r is another evidence row of the same query. */
  ghost predicate DependencyOk<I>(refs: seq<EvidenceRef<I>>, r: EvidenceRef<I>, d: I) {
    d != r.id && exists k :: 0 <= k < |refs| && refs[k].id == d && refs[k].query == r.query
  }

  ghost predicate DependenciesOk<I>(refs: seq<EvidenceRef<I>>) {
    forall k, j :: 0 <= k < |refs| && 0 <= j < |refs[k].dependsOn| ==> DependencyOk(refs, refs[k], refs[k].dependsOn[j])
  }

  /** What is wrong with dependency d of reference r. */
  ghost predicate IsDefect<I>(refs: seq<EvidenceRef<I>>, r: EvidenceRef<I>, d: I, problem: Problem) {
    match problem
    case SelfDependency => d == r.id
    case UnknownDependency => d != r.id && forall i :: 0 <= i < |refs| ==> refs[i].id != d
    case OtherQuery => d != r.id && exists i :: 0 <= i < |refs| && refs[i].id == d && refs[i].query != r.query
    case _ => false
  }

  /** The first dependency, in file order, that is not another row of the same query has this defect. */
  ghost predicate FirstDefect<I>(refs: seq<EvidenceRef<I>>, k: nat, j: nat, problem: Problem) {
    && k < |refs| && j < |refs[k].dependsOn| && IsDefect(refs, refs[k], refs[k].dependsOn[j], problem)
    && forall i, m :: 0 <= i <= k && 0 <= m < |refs[i].dependsOn| && (i < k || m < j) ==> DependencyOk(refs, refs[i], refs[i].dependsOn[m])
  }

  method FindQuery<I(==)>(refs: seq<EvidenceRef<I>>, d: I) returns (found: bool, k: nat)
    requires Distinct(Ids(refs))
    ensures found <==> d in Ids(refs)
    ensures found ==> k < |refs| && refs[k].id == d
  {
    found, k := false, 0;
    while k < |refs|
      invariant k <= |refs| && !found
      invariant forall j :: 0 <= j < k ==> refs[j].id != d
    {
      if refs[k].id == d {
        assert Ids(refs)[k] == d;
        return true, k;
      }
      k := k + 1;
    }
  }

  /** The first loop: no self-reference, no unknown id, no other query. */
  method CheckReferences<I(==)>(refs: seq<EvidenceRef<I>>) returns (v: Verdict)
    requires Distinct(Ids(refs))
    ensures v == Accepted || v.problem in {SelfDependency, UnknownDependency, OtherQuery}
    ensures v == Accepted <==> DependenciesOk(refs)
    ensures v.Rejected? ==> exists k: nat, j: nat :: FirstDefect(refs, k, j, v.problem)
  {
    for k := 0 to |refs|
      invariant forall i, j :: 0 <= i < k && 0 <= j < |refs[i].dependsOn| ==> DependencyOk(refs, refs[i], refs[i].dependsOn[j])
    {
      var r := refs[k];
      for j := 0 to |r.dependsOn|
        invariant forall i :: 0 <= i < j ==> DependencyOk(refs, r, r.dependsOn[i])
      {
        var d := r.dependsOn[j];
        if d == r.id {
          assert !DependencyOk(refs, refs[k], refs[k].dependsOn[j]);
          assert FirstDefect(refs, k, j, SelfDependency);
          return Rejected(SelfDependency);
        }
        var found, at := FindQuery(refs, d);
        if !found {
          NotListed(refs, d);
          assert !DependencyOk(refs, refs[k], refs[k].dependsOn[j]);
          assert FirstDefect(refs, k, j, UnknownDependency);
          return Rejected(UnknownDependency);
        }
        if refs[at].query != r.query {
          OnlyOne(refs, at, d);
          assert !DependencyOk(refs, refs[k], refs[k].dependsOn[j]);
          assert FirstDefect(refs, k, j, OtherQuery);
          return Rejected(OtherQuery);
        }
      }
    }
    v := Accepted;
  }

  lemma NotListed<I>(refs: seq<EvidenceRef<I>>, d: I)
    requires d !in Ids(refs)
    ensures forall k :: 0 <= k < |refs| ==> refs[k].id != d
  {
    forall k | 0 <= k < |refs| ensures refs[k].id != d {
      assert Ids(refs)[k] == refs[k].id;
    }
  }

  lemma OnlyOne<I>(refs: seq<EvidenceRef<I>>, at: nat, d: I)
    requires Distinct(Ids(refs)) && at < |refs| && refs[at].id == d
    ensures forall k :: 0 <= k < |refs| && refs[k].id == d ==> k == at
  {
    forall k | 0 <= k < |refs| && refs[k].id == d ensures k == at {
      assert Ids(refs)[k] == Ids(refs)[at];
    }
  }

  lemma DependenciesClosed<I(!new)>(refs: seq<EvidenceRef<I>>)
    requires Distinct(Ids(refs)) && DependenciesOk(refs)
    ensures ClosedUnder(DepsOf(refs))
  {
    var deps := DepsOf(refs);
    forall x, d | x in deps && d in deps[x] ensures d in deps {
      var k :| 0 <= k < |refs| && Ids(refs)[k] == x;
      DepsOfRow(refs, k);
      var j :| 0 <= j < |refs[k].dependsOn| && refs[k].dependsOn[j] == d;
      assert DependencyOk(refs, refs[k], d);
      var i :| 0 <= i < |refs| && refs[i].id == d;
      assert Ids(refs)[i] == d;
    }
  }

  /**
   `_validate_evidence_dependencies`: accepted exactly when every dependency is another row of the same query
   and the dependency graph has no cycle.
   */
  method ValidateDependencies<I(==,!new)>(refs: seq<EvidenceRef<I>>) returns (v: Verdict)
    requires Distinct(Ids(refs))
    ensures v == Accepted <==> DependenciesOk(refs) && Acyclic(DepsOf(refs))
    ensures v == Rejected(Cycle) <==> DependenciesOk(refs) && !Acyclic(DepsOf(refs))
    ensures v.Rejected? && v.problem != Cycle ==> exists k: nat, j: nat :: FirstDefect(refs, k, j, v.problem)
    ensures v == Accepted ==> exists order :: Topological(DepsOf(refs), order) && forall x :: x in DepsOf(refs) ==> x in order
  {
    hide Acyclic, Topological, DependenciesOk, DepsOf, FirstDefect;
    v := CheckReferences(refs);
    if v != Accepted {
      return;
    }
    DependenciesClosed(refs);
    var walk := new Walk(DepsOf(refs));
    EmptyIsTopological(walk.deps);
    for k := 0 to |refs|
      invariant walk.Valid([])
      invariant forall j :: 0 <= j < k ==> refs[j].id in walk.order
    {
      assert Ids(refs)[k] == refs[k].id;
      var ok := walk.Visit(refs[k].id, []);
      if !ok {
        CycleIsNotAcyclic(walk.deps);
        return Rejected(Cycle);
      }
    }
    forall x | x in walk.deps ensures x in walk.order {
      var k :| 0 <= k < |refs| && Ids(refs)[k] == x;
    }
    TopologicalIsAcyclic(walk.deps, walk.order);
  }

  lemma EmptyIsTopological<I(!new)>(deps: Deps<I>)
    ensures Topological(deps, [])
  {
  }

  lemma CycleIsNotAcyclic<I(!new)>(deps: Deps<I>)
    requires exists c :: IsCycle(deps, c)
    ensures !Acyclic(deps)
  {
  }

  /** Along accepted dependencies one never leaves the query one started in. */
  lemma {:induction false} ChainStaysInQuery<I(!new)>(refs: seq<EvidenceRef<I>>, c: seq<I>, k: nat, a: nat, b: nat)
    requires Distinct(Ids(refs)) && DependenciesOk(refs) && IsChain(DepsOf(refs), c) && k < |c|
    requires a < |refs| && refs[a].id == c[0] && b < |refs| && refs[b].id == c[k]
    ensures refs[a].query == refs[b].query
    decreases k
  {
    if k == 0 {
      OnlyOne(refs, a, c[0]);
    } else {
      assert c[k - 1] in DepsOf(refs) && c[k] in DepsOf(refs)[c[k - 1]];
      var i :| 0 <= i < |refs| && Ids(refs)[i] == c[k - 1];
      DepsOfRow(refs, i);
      var j :| 0 <= j < |refs[i].dependsOn| && refs[i].dependsOn[j] == c[k];
      assert DependencyOk(refs, refs[i], refs[i].dependsOn[j]);
      OnlyOne(refs, b, c[k]);
      ChainStaysInQuery(refs, c, k - 1, a, i);
    }
  }
}
