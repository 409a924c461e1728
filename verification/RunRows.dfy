/**
 Loading run rows for the verified-source benchmark: what the uniqueness and contiguity checks establish, and why
 that makes the row-wise nDCG the nDCG of one duplicate-free ranking.
 */
module RunRows {
  import opened Sequences
  import opened Sorting

  datatype Row<I> = Row(run: I, query: I, rank: int, doc: I)

  datatype Loaded = Accepted | RankTooSmall | DuplicateRank | DuplicateDoc | NoRows | RanksNotContiguous

  predicate SameGroup<I(==)>(a: Row<I>, b: Row<I>) {
    a.run == b.run && a.query == b.query
  }

  /** The rows of one run and query, in file order. */
  function Group<I(==)>(rows: seq<Row<I>>, run: I, query: I): seq<Row<I>> {
    if rows == [] then []
    else
      var last := rows[|rows| - 1];
      Group(rows[..|rows| - 1], run, query) + (if last.run == run && last.query == query then [last] else [])
  }

  function Ranks<I>(rows: seq<Row<I>>): seq<int> {
    seq(|rows|, i requires 0 <= i < |rows| => rows[i].rank)
  }

  function RankedDocs<I>(rows: seq<Row<I>>): seq<I> {
    seq(|rows|, i requires 0 <= i < |rows| => rows[i].doc)
  }

  /** Every rank from 1 to the number of rows once, and no document twice. */
  ghost predicate WellRanked<I>(group: seq<Row<I>>) {
    && Distinct(RankedDocs(group))
    && Distinct(Ranks(group))
    && forall i :: 0 <= i < |group| ==> 1 <= group[i].rank <= |group|
  }

  ghost predicate AllWellRanked<I(!new)>(rows: seq<Row<I>>) {
    forall run, query :: WellRanked(Group(rows, run, query))
  }

  /** What the reading loop alone checks. */
  ghost predicate Clean<I>(rows: seq<Row<I>>) {
    && (forall i :: 0 <= i < |rows| ==> rows[i].rank >= 1)
    && (forall i, j :: 0 <= i < j < |rows| && SameGroup(rows[i], rows[j]) ==> rows[i].rank != rows[j].rank && rows[i].doc != rows[j].doc)
  }

  predicate AtMost(a: int, b: int) {
    a <= b
  }

  /** list(range(1, n + 1)) */
  function UpTo(n: nat): seq<int> {
    seq(n, i => i + 1)
  }

  // ---------------------------------------------------------------- contiguous ranks

  /** A duplicate-free list that fills its universe counts every member once. */
  lemma FullListCounts(s: seq<int>, n: nat)
    requires Distinct(s) && |s| == n && forall x :: x in s ==> 1 <= x <= n
    ensures multiset(s) == multiset(UpTo(n))
  {
    DistinctCounts(s);
    DistinctCounts(UpTo(n));
    UpToMembers(n);
    forall x ensures multiset(s)[x] == multiset(UpTo(n))[x] {
      if x in UpTo(n) && x !in s {
        RemoveOne(n, x);
        DistinctBounded(s, set y | y in UpTo(n) && y != x);
      }
      assert x in s <==> x in UpTo(n);
    }
  }

  lemma UpToMembers(n: nat)
    ensures forall x :: x in UpTo(n) <==> 1 <= x <= n
  {
    forall x | 1 <= x <= n ensures x in UpTo(n) {
      assert UpTo(n)[x - 1] == x;
    }
  }

  lemma RemoveOne(n: nat, x: int)
    requires 1 <= x <= n
    ensures |set y | y in UpTo(n) && y != x| < n
  {
    var s := UpTo(n)[..x - 1] + UpTo(n)[x..];
    forall y | y in UpTo(n) && y != x ensures y in s {
      var i :| 0 <= i < n && UpTo(n)[i] == y;
      if i < x - 1 { assert s[i] == y; } else { assert s[i - 1] == y; }
    }
    SetOfSeqSize(s, set y | y in UpTo(n) && y != x);
  }

  lemma {:induction false} SetOfSeqSize<T>(s: seq<T>, xs: set<T>)
    requires forall x :: x in xs ==> x in s
    ensures |xs| <= |s|
    decreases |s|
  {
    if s == [] {
      assert xs == {};
    } else {
      SetOfSeqSize(s[1..], xs - {s[0]});
      assert xs <= (xs - {s[0]}) + {s[0]};
    }
  }

  /** Comparing the sorted ranks with 1, 2, ..., n is the same as asking for distinct ranks within that range. */
  lemma ContiguousRanks(ranks: seq<int>)
    ensures Sort(ranks, AtMost) == UpTo(|ranks|) <==> Distinct(ranks) && forall x :: x in ranks ==> 1 <= x <= |ranks|
  {
    hide Sort;
    SortLaws(ranks, AtMost);
    if Sort(ranks, AtMost) == UpTo(|ranks|) {
      DistinctCounts(UpTo(|ranks|));
      DistinctCounts(ranks);
    }
    if Distinct(ranks) && forall x :: x in ranks ==> 1 <= x <= |ranks| {
      FullListCounts(ranks, |ranks|);
      SortedUnique(Sort(ranks, AtMost), UpTo(|ranks|), AtMost);
    }
  }

  // ---------------------------------------------------------------- groups

  lemma {:induction false} GroupMembers<I>(rows: seq<Row<I>>, run: I, query: I)
    ensures forall r :: r in Group(rows, run, query) <==> r in rows && r.run == run && r.query == query
    decreases |rows|
  {
    if rows != [] {
      GroupMembers(rows[..|rows| - 1], run, query);
      assert rows == rows[..|rows| - 1] + [rows[|rows| - 1]];
    }
  }

  lemma {:induction false} GroupIndex<I>(rows: seq<Row<I>>, run: I, query: I, i: nat) returns (k: nat)
    requires i < |Group(rows, run, query)|
    ensures k < |rows| && rows[k] == Group(rows, run, query)[i] && rows[k].run == run && rows[k].query == query
    decreases |rows|
  {
    var n := |rows| - 1;
    if i < |Group(rows[..n], run, query)| {
      k := GroupIndex(rows[..n], run, query, i);
    } else {
      k := n;
    }
  }

  lemma {:induction false} GroupOfPrefix<I>(rows: seq<Row<I>>, n: nat, run: I, query: I)
    requires n <= |rows|
    ensures Group(rows[..n], run, query) <= Group(rows, run, query)
    decreases |rows|
  {
    if n == |rows| {
      assert rows[..n] == rows;
    } else {
      assert rows[..|rows| - 1][..n] == rows[..n];
      GroupOfPrefix(rows[..|rows| - 1], n, run, query);
    }
  }

  lemma {:induction false} CleanGroups<I(!new)>(rows: seq<Row<I>>, run: I, query: I)
    requires Clean(rows)
    ensures CleanGroup(Group(rows, run, query))
    decreases |rows|
  {
    hide Group, CleanGroup;
    if rows == [] {
      EmptyGroup(run, query);
    } else {
      var n := |rows| - 1;
      var rest, last := rows[..n], rows[n];
      var before := Group(rest, run, query);
      CleanGroups(rest, run, query);
      assert rows[..n + 1] == rows;
      GroupGrows(rows, n, run, query);
      if last.run == run && last.query == query {
        forall i | 0 <= i < |before| ensures before[i].rank != last.rank && before[i].doc != last.doc {
          var k := GroupIndex(rest, run, query, i);
          assert SameGroup(rows[k], rows[n]);
        }
        ExtendGroup(before, last);
      } else {
        assert Group(rows, run, query) == before;
      }
    }
  }

  ghost predicate CleanGroup<I>(g: seq<Row<I>>) {
    Distinct(RankedDocs(g)) && Distinct(Ranks(g)) && forall i :: 0 <= i < |g| ==> g[i].rank >= 1
  }

  lemma ExtendGroup<I(!new)>(before: seq<Row<I>>, last: Row<I>)
    requires CleanGroup(before) && last.rank >= 1
    requires forall i :: 0 <= i < |before| ==> before[i].rank != last.rank && before[i].doc != last.doc
    ensures CleanGroup(before + [last])
  {
    assert RankedDocs(before + [last]) == RankedDocs(before) + [last.doc];
    assert Ranks(before + [last]) == Ranks(before) + [last.rank];
  }

  lemma GroupsClean<I(!new)>(rows: seq<Row<I>>)
    requires AllWellRanked(rows)
    ensures Clean(rows)
  {
    hide Group;
    forall i | 0 <= i < |rows| ensures rows[i].rank >= 1 {
      var g := Group(rows, rows[i].run, rows[i].query);
      GroupMembers(rows, rows[i].run, rows[i].query);
      assert WellRanked(g) && rows[i] in g;
    }
    forall i, j | 0 <= i < j < |rows| && SameGroup(rows[i], rows[j])
      ensures rows[i].rank != rows[j].rank && rows[i].doc != rows[j].doc
    {
      var run, query := rows[j].run, rows[j].query;
      assert WellRanked(Group(rows, run, query));
      GroupOfPrefix(rows, j + 1, run, query);
      GroupMembers(rows[..j], run, query);
      GroupStep(rows, j);
      assert rows[i] == rows[..j][i];
      var before := Group(rows[..j], run, query);
      var k :| 0 <= k < |before| && before[k] == rows[i];
      TwoApart(Group(rows, run, query), k, |before|);
    }
  }

  lemma GroupStep<I(!new)>(rows: seq<Row<I>>, j: nat)
    requires j < |rows|
    ensures Group(rows[..j + 1], rows[j].run, rows[j].query) == Group(rows[..j], rows[j].run, rows[j].query) + [rows[j]]
  {
    assert rows[..j + 1][..j] == rows[..j];
  }

  lemma TwoApart<I(!new)>(g: seq<Row<I>>, i: nat, j: nat)
    requires WellRanked(g) && i < j < |g|
    ensures g[i].rank != g[j].rank && g[i].doc != g[j].doc
  {
    assert Ranks(g)[i] != Ranks(g)[j] && RankedDocs(g)[i] != RankedDocs(g)[j];
  }

  /** The two checks together: clean rows whose sorted ranks count up from 1 in every group. */
  lemma CleanAndContiguous<I(!new)>(rows: seq<Row<I>>, run: I, query: I)
    requires Clean(rows)
    ensures WellRanked(Group(rows, run, query))
            <==> Sort(Ranks(Group(rows, run, query)), AtMost) == UpTo(|Group(rows, run, query)|)
  {
    hide Group, Sort;
    var g := Group(rows, run, query);
    CleanGroups(rows, run, query);
    ContiguousRanks(Ranks(g));
    if WellRanked(g) {
      assert forall x :: x in Ranks(g) ==> 1 <= x <= |g|;
    }
    if forall x :: x in Ranks(g) ==> 1 <= x <= |g| {
      assert forall i :: 0 <= i < |g| ==> Ranks(g)[i] == g[i].rank && Ranks(g)[i] in Ranks(g);
    }
  }

  // ---------------------------------------------------------------- loading

  /** The rows are accepted exactly when every run and query has a well-formed ranking. */
  method LoadRuns<I(==,!new)>(rows: seq<Row<I>>) returns (r: Loaded)
    ensures r == Accepted <==> rows != [] && AllWellRanked(rows)
    ensures r == RankTooSmall ==> exists i :: 0 <= i < |rows| && rows[i].rank < 1
    ensures r == DuplicateRank ==> exists i, j :: 0 <= i < j < |rows| && SameGroup(rows[i], rows[j]) && rows[i].rank == rows[j].rank
    ensures r == DuplicateDoc ==> exists i, j :: 0 <= i < j < |rows| && SameGroup(rows[i], rows[j]) && rows[i].doc == rows[j].doc
    ensures r == NoRows <==> rows == []
    ensures r == RanksNotContiguous ==> Clean(rows)
  {
    hide Group, AllWellRanked, AllContiguous;
    r := CheckRows(rows);
    if r != Accepted {
      if AllWellRanked(rows) {
        GroupsClean(rows);
      }
      return;
    }
    if rows == [] {
      return NoRows;
    }
    var contiguous := ValidateGroups(rows);
    BothChecks(rows);
    r := if contiguous then Accepted else RanksNotContiguous;
  }

  ghost predicate Contiguous<I>(rows: seq<Row<I>>, run: I, query: I) {
    Sort(Ranks(Group(rows, run, query)), AtMost) == UpTo(|Group(rows, run, query)|)
  }

  ghost predicate AllContiguous<I(!new)>(rows: seq<Row<I>>) {
    forall run, query :: Contiguous(rows, run, query)
  }

  lemma BothChecks<I(!new)>(rows: seq<Row<I>>)
    requires Clean(rows)
    ensures AllContiguous(rows) <==> AllWellRanked(rows)
  {
    hide Group, WellRanked, Sort;
    forall run, query ensures WellRanked(Group(rows, run, query)) <==> Contiguous(rows, run, query) {
      CleanAndContiguous(rows, run, query);
    }
    if AllWellRanked(rows) {
      forall run, query ensures Contiguous(rows, run, query) {
        assert WellRanked(Group(rows, run, query));
      }
    }
    if AllContiguous(rows) {
      forall run, query ensures WellRanked(Group(rows, run, query)) {
        assert Contiguous(rows, run, query);
      }
    }
  }

  /** The reading loop. */
  method CheckRows<I(==,!new)>(rows: seq<Row<I>>) returns (r: Loaded)
    ensures r == Accepted <==> Clean(rows)
    ensures r == Accepted || r == RankTooSmall || r == DuplicateRank || r == DuplicateDoc
    ensures r == RankTooSmall ==> exists i :: 0 <= i < |rows| && rows[i].rank < 1
    ensures r == DuplicateRank ==> exists i, j :: 0 <= i < j < |rows| && SameGroup(rows[i], rows[j]) && rows[i].rank == rows[j].rank
    ensures r == DuplicateDoc ==> exists i, j :: 0 <= i < j < |rows| && SameGroup(rows[i], rows[j]) && rows[i].doc == rows[j].doc
  {
    var seenRanks: set<(I, I, int)>, seenDocs: set<(I, I, I)> := {}, {};
    for n := 0 to |rows|
      invariant Clean(rows[..n])
      invariant forall run, query, rank ::
                  (run, query, rank) in seenRanks <==> exists i :: 0 <= i < n && rows[i].run == run && rows[i].query == query && rows[i].rank == rank
      invariant forall run, query, doc ::
                  (run, query, doc) in seenDocs <==> exists i :: 0 <= i < n && rows[i].run == run && rows[i].query == query && rows[i].doc == doc
    {
      var row := rows[n];
      if row.rank < 1 {
        return RankTooSmall;
      }
      if (row.run, row.query, row.rank) in seenRanks {
        ghost var i :| 0 <= i < n && rows[i].run == row.run && rows[i].query == row.query && rows[i].rank == row.rank;
        assert SameGroup(rows[i], rows[n]);
        return DuplicateRank;
      }
      seenRanks := seenRanks + {(row.run, row.query, row.rank)};
      if (row.run, row.query, row.doc) in seenDocs {
        ghost var i :| 0 <= i < n && rows[i].run == row.run && rows[i].query == row.query && rows[i].doc == row.doc;
        assert SameGroup(rows[i], rows[n]);
        return DuplicateDoc;
      }
      seenDocs := seenDocs + {(row.run, row.query, row.doc)};
    }
    assert rows[..|rows|] == rows;
    r := Accepted;
  }

  /** The rows grouped by run and query, in order of first appearance, then each group's sorted ranks compared with 1..n. */
  method ValidateGroups<I(==,!new)>(rows: seq<Row<I>>) returns (ok: bool)
    ensures ok <==> AllContiguous(rows)
  {
    hide Sort, Group;
    forall run, query ensures Group<I>([], run, query) == [] {
      EmptyGroup(run, query);
    }
    assert rows[..0] == [];
    var keys: seq<(I, I)>, grouped: map<(I, I), seq<Row<I>>> := [], map[];
    for n := 0 to |rows|
      invariant forall run, query :: (run, query) in keys <==> (run, query) in grouped
      invariant forall run, query :: (if (run, query) in grouped then grouped[(run, query)] else []) == Group(rows[..n], run, query)
    {
      var row := rows[n];
      var key := (row.run, row.query);
      forall run, query ensures Group(rows[..n + 1], run, query) == Group(rows[..n], run, query) + (if (run, query) == key then [row] else []) {
        GroupGrows(rows, n, run, query);
      }
      if key !in grouped {
        keys, grouped := keys + [key], grouped[key := []];
      }
      grouped := grouped[key := grouped[key] + [row]];
    }
    assert rows[..|rows|] == rows;
    for n := 0 to |keys|
      invariant forall i :: 0 <= i < n ==> Contiguous(rows, keys[i].0, keys[i].1)
    {
      var group := grouped[(keys[n].0, keys[n].1)];
      if Sort(Ranks(group), AtMost) != UpTo(|group|) {
        assert !Contiguous(rows, keys[n].0, keys[n].1);
        return false;
      }
    }
    forall run, query ensures Contiguous(rows, run, query) {
      if (run, query) !in keys {
        NoGroup(rows, run, query);
      }
    }
    ok := true;
  }

  lemma GroupGrows<I(!new)>(rows: seq<Row<I>>, n: nat, run: I, query: I)
    requires n < |rows|
    ensures Group(rows[..n + 1], run, query)
            == Group(rows[..n], run, query) + (if rows[n].run == run && rows[n].query == query then [rows[n]] else [])
  {
    assert rows[..n + 1][..n] == rows[..n];
  }

  lemma EmptyGroup<I(!new)>(run: I, query: I)
    ensures Group([], run, query) == [] && CleanGroup<I>([])
  {
  }

  lemma NoGroup<I(!new)>(rows: seq<Row<I>>, run: I, query: I)
    requires Group(rows, run, query) == []
    ensures Contiguous(rows, run, query)
  {
    assert Ranks(Group(rows, run, query)) == [] && UpTo(0) == [];
  }
}
