/**
 nDCG computed row by row in file order, with each row's own rank. On a well-ranked group it is the nDCG of the
 documents listed by rank, so it lies between 0 and 1.
 */
module RunRowNdcg {
  import opened Sequences
  import opened Sorting
  import opened Ndcg
  import opened RunRows

  // ---------------------------------------------------------------- the row-wise metric

  /** dcg_gain(relevance_by_doc.get(row.doc_id, 0), row.rank) */
  function RowGain<I(==)>(sc: Scoring, qrels: seq<Qrel<I>>, row: Row<I>): real
    requires row.rank >= 1
  {
    Times(sc.gain(Relevance(qrels, row.doc)), sc.discount(row.rank - 1))
  }

  /** Every row with a rank of at most k adds its gain; the order of the rows is not used. */
  function RowDcg<I(==)>(sc: Scoring, rows: seq<Row<I>>, qrels: seq<Qrel<I>>, k: nat): real
    requires forall i :: 0 <= i < |rows| ==> rows[i].rank >= 1
  {
    if rows == [] then 0.0
    else
      var last := rows[|rows| - 1];
      RowDcg(sc, rows[..|rows| - 1], qrels, k) + (if last.rank <= k then RowGain(sc, qrels, last) else 0.0)
  }

  function AllRelevances<I>(qrels: seq<Qrel<I>>): seq<real> {
    seq(|qrels|, i requires 0 <= i < |qrels| => qrels[i].relevance)
  }

  /** Here the ideal list keeps the documents judged irrelevant. */
  function RowIdeal<I>(sc: Scoring, qrels: seq<Qrel<I>>, k: nat): real {
    DcgOf(sc, Take(SortedDescending(AllRelevances(qrels)), k))
  }

  function RowNdcg<I(==)>(sc: Scoring, rows: seq<Row<I>>, qrels: seq<Qrel<I>>, k: nat): real
    requires forall i :: 0 <= i < |rows| ==> rows[i].rank >= 1
  {
    var ideal := RowIdeal(sc, qrels, k);
    if ideal != 0.0 then RowDcg(sc, rows, qrels, k) / ideal else 0.0
  }

  // ---------------------------------------------------------------- rows in rank order

  predicate ByRank<I>(a: Row<I>, b: Row<I>) {
    a.rank <= b.rank
  }

  /** The documents of a group, best rank first. */
  function Ranking<I>(group: seq<Row<I>>): seq<I> {
    RankedDocs(Sort(group, ByRank))
  }

  lemma {:induction false} RanksOfInsert<I(!new)>(s: seq<Row<I>>, x: Row<I>)
    ensures Ranks(Insert(s, x, ByRank)) == Insert(Ranks(s), x.rank, AtMost)
    decreases |s|
  {
    if s == [] || !ByRank(s[0], x) {
      assert Ranks([x] + s) == [x.rank] + Ranks(s);
    } else {
      RanksOfInsert(s[1..], x);
      assert Ranks(s)[1..] == Ranks(s[1..]);
      assert Ranks([s[0]] + Insert(s[1..], x, ByRank)) == [s[0].rank] + Ranks(Insert(s[1..], x, ByRank));
    }
  }

  /** Sorting the rows sorts their ranks. */
  lemma {:induction false} RanksOfSort<I(!new)>(s: seq<Row<I>>)
    ensures Ranks(Sort(s, ByRank)) == Sort(Ranks(s), AtMost)
    decreases |s|
  {
    hide Insert;
    if s == [] {
      assert Ranks(s) == [];
    } else {
      var n := |s| - 1;
      RanksOfSort(s[..n]);
      RanksOfInsert(Sort(s[..n], ByRank), s[n]);
      assert Ranks(s)[..n] == Ranks(s[..n]);
    }
  }

  /** In a well-ranked group, the row in place i has rank i + 1 and the documents stay distinct. */
  lemma RankOrder<I(!new)>(group: seq<Row<I>>)
    requires WellRanked(group)
    ensures var s := Sort(group, ByRank);
            |s| == |group| && (forall i :: 0 <= i < |s| ==> s[i].rank == i + 1) && Distinct(Ranking(group))
  {
    hide Sort;
    var s := Sort(group, ByRank);
    SortLaws(group, ByRank);
    RanksOfSort(group);
    assert forall x :: x in Ranks(group) ==> 1 <= x <= |group|;
    ContiguousRanks(Ranks(group));
    assert forall i :: 0 <= i < |s| ==> s[i].rank == Ranks(s)[i];
    DocsPermuted(s, group);
    DistinctCounts(RankedDocs(s));
    DistinctCounts(RankedDocs(group));
  }

  lemma {:induction false} DocsPermuted<I(!new)>(s: seq<Row<I>>, t: seq<Row<I>>)
    requires multiset(s) == multiset(t)
    ensures multiset(RankedDocs(s)) == multiset(RankedDocs(t))
    decreases |s|
  {
    if s == [] {
      SameElements(s, t);
      assert RankedDocs(s) == RankedDocs(t);
    } else {
      var n := |s| - 1;
      var a, b := TakeOutLast(s, t);
      DocsPermuted(s[..n], a + b);
      assert RankedDocs(s) == RankedDocs(s[..n]) + [s[n].doc];
      assert RankedDocs(t) == RankedDocs(a) + [s[n].doc] + RankedDocs(b);
      assert RankedDocs(a + b) == RankedDocs(a) + RankedDocs(b);
    }
  }

  /** The last element of s found in a permutation of s, and what is left on both sides. */
  lemma TakeOutLast<T(!new)>(s: seq<T>, t: seq<T>) returns (a: seq<T>, b: seq<T>)
    requires s != [] && multiset(s) == multiset(t)
    ensures t == a + [s[|s| - 1]] + b
    ensures multiset(s[..|s| - 1]) == multiset(a + b)
  {
    var n := |s| - 1;
    var last := s[n];
    SameElements(s, t);
    assert last in t;
    var k :| 0 <= k < |t| && t[k] == last;
    a, b := t[..k], t[k + 1..];
    assert t == a + [last] + b;
    assert s == s[..n] + [last] + [] && s[..n] + [] == s[..n];
    TakenOut(a, last, b);
    TakenOut(s[..n], last, []);
  }

  lemma TakenOut<T>(a: seq<T>, x: T, b: seq<T>)
    ensures multiset(a + b) == multiset(a + [x] + b) - multiset{x}
  {
    assert multiset(a + [x] + b) == multiset(a) + multiset{x} + multiset(b);
    assert multiset(a + b) == multiset(a) + multiset(b);
  }

  // ---------------------------------------------------------------- the order of the rows does not matter

  lemma {:induction false} RowDcgSplit<I(!new)>(sc: Scoring, a: seq<Row<I>>, x: Row<I>, b: seq<Row<I>>, qrels: seq<Qrel<I>>, k: nat)
    requires x.rank >= 1
    requires forall i :: 0 <= i < |a| ==> a[i].rank >= 1
    requires forall i :: 0 <= i < |b| ==> b[i].rank >= 1
    ensures RowDcg(sc, a + [x] + b, qrels, k) == RowDcg(sc, a + b, qrels, k) + (if x.rank <= k then RowGain(sc, qrels, x) else 0.0)
    decreases |b|
  {
    hide RowGain;
    if b == [] {
      assert a + [x] + b == a + [x] && (a + [x])[..|a|] == a && a + b == a;
    } else {
      var n := |b| - 1;
      assert (a + [x] + b)[..|a| + 1 + n] == a + [x] + b[..n];
      assert (a + b)[..|a| + n] == a + b[..n];
      RowDcgSplit(sc, a, x, b[..n], qrels, k);
    }
  }

  lemma {:induction false} RowDcgPermuted<I(!new)>(sc: Scoring, s: seq<Row<I>>, t: seq<Row<I>>, qrels: seq<Qrel<I>>, k: nat)
    requires multiset(s) == multiset(t)
    requires forall i :: 0 <= i < |s| ==> s[i].rank >= 1
    requires forall i :: 0 <= i < |t| ==> t[i].rank >= 1
    ensures RowDcg(sc, s, qrels, k) == RowDcg(sc, t, qrels, k)
    decreases |s|
  {
    hide RowGain;
    if s == [] {
      SameElements(s, t);
    } else {
      var n := |s| - 1;
      var a, b := TakeOutLast(s, t);
      forall i | 0 <= i < |a| ensures a[i].rank >= 1 { assert a[i] == t[i]; }
      forall i | 0 <= i < |b| ensures b[i].rank >= 1 { assert b[i] == t[|a| + 1 + i]; }
      RowDcgPermuted(sc, s[..n], a + b, qrels, k);
      RowDcgSplit(sc, a, s[n], b, qrels, k);
    }
  }

  /** On rows in rank order the row-wise sum is the discounted sum of the observed gains. */
  lemma {:induction false} RowDcgInOrder<I(!new)>(sc: Scoring, s: seq<Row<I>>, docs: seq<I>, qrels: seq<Qrel<I>>, k: nat, j: nat)
    requires docs == RankedDocs(s) && j <= |s| && forall i :: 0 <= i < |s| ==> s[i].rank == i + 1
    ensures RowDcg(sc, s[..j], qrels, k) == Discounted(Gains(sc, ObservedRelevances(docs, qrels, k)), sc.discount, Min(j, k))
    decreases j
  {
    hide Times, Relevance;
    if j > 0 {
      RowDcgInOrder(sc, s, docs, qrels, k, j - 1);
      assert s[..j][..j - 1] == s[..j - 1];
    }
  }

  // ---------------------------------------------------------------- the ideal

  lemma {:induction false} InsertBeforeZeros(p: seq<real>, z: seq<real>, x: real)
    requires x > 0.0 && forall i :: 0 <= i < |z| ==> z[i] == 0.0
    ensures Insert(p + z, x, AtLeast) == Insert(p, x, AtLeast) + z
    decreases |p|
  {
    if p == [] {
      assert p + z == z && [x] + z == [x] + p + z;
    } else if AtLeast(p[0], x) {
      InsertBeforeZeros(p[1..], z, x);
      assert (p + z)[1..] == p[1..] + z;
    } else {
      assert [x] + (p + z) == [x] + p + z;
    }
  }

  lemma {:induction false} InsertZero(s: seq<real>)
    requires forall i :: 0 <= i < |s| ==> s[i] >= 0.0
    ensures Insert(s, 0.0, AtLeast) == s + [0.0]
    decreases |s|
  {
    if s != [] {
      InsertZero(s[1..]);
      assert s == [s[0]] + s[1..];
    }
  }

  /** Irrelevant judgements only add zeros at the end of the ideal list. */
  lemma {:induction false} IdealWithZeros<I(!new)>(qrels: seq<Qrel<I>>) returns (z: seq<real>)
    requires forall i :: 0 <= i < |qrels| ==> qrels[i].relevance >= 0.0
    ensures SortedDescending(AllRelevances(qrels)) == SortedDescending(PositiveRelevances(qrels)) + z
    ensures forall i :: 0 <= i < |z| ==> z[i] == 0.0
    decreases |qrels|
  {
    hide Insert;
    if qrels == [] {
      z := [];
    } else {
      var n := |qrels| - 1;
      var rest, r := qrels[..n], qrels[n].relevance;
      z := IdealWithZeros(rest);
      assert AllRelevances(qrels)[..n] == AllRelevances(rest);
      var p := PositiveRelevances(rest);
      var sorted := SortedDescending(p);
      if r > 0.0 {
        assert PositiveRelevances(qrels)[..|p|] == p;
        InsertBeforeZeros(sorted, z, r);
      } else {
        PositiveSortedPositive(rest);
        InsertZero(sorted + z);
        z := z + [0.0];
        assert PositiveRelevances(qrels) == p;
        assert sorted + z[..|z| - 1] + [0.0] == sorted + z;
      }
    }
  }

  /** So both ideals are the same number. */
  lemma SameIdeal<I(!new)>(sc: Scoring, qrels: seq<Qrel<I>>, k: nat)
    requires sc.Valid() && QrelsOk(qrels)
    ensures RowIdeal(sc, qrels, k) == DcgOf(sc, IdealRelevances(qrels, k))
  {
    hide Discounted, Sort, AllRelevances, PositiveRelevances;
    var z := IdealWithZeros(qrels);
    var p := SortedDescending(PositiveRelevances(qrels));
    var a, b := Gains(sc, Take(p + z, k)), Gains(sc, Take(p, k));
    forall i: nat | i < k ensures PlaceOf(a, i) == PlaceOf(b, i) {
      if |p| <= i < |a| {
        assert Take(p + z, k)[i] == z[i - |p|];
      }
    }
    DiscountedAgree(a, b, sc.discount, k);
    DiscountedPadded(a, sc.discount, k);
    DiscountedPadded(b, sc.discount, k);
  }

  // ---------------------------------------------------------------- agreement

  lemma RowDcgIsDcg<I(!new)>(sc: Scoring, group: seq<Row<I>>, qrels: seq<Qrel<I>>, k: nat)
    requires WellRanked(group)
    ensures RowDcg(sc, group, qrels, k) == DcgOf(sc, ObservedRelevances(Ranking(group), qrels, k))
  {
    hide RowDcg, Discounted, Sort;
    var s := Sort(group, ByRank);
    SortLaws(group, ByRank);
    RankOrder(group);
    RowDcgPermuted(sc, group, s, qrels, k);
    assert s[..|s|] == s;
    RowDcgInOrder(sc, s, Ranking(group), qrels, k, |s|);
  }

  /** On every accepted group both benchmarks compute the same number, and it lies between 0 and 1. */
  lemma RowNdcgIsNdcg<I(!new)>(sc: Scoring, group: seq<Row<I>>, qrels: seq<Qrel<I>>, k: nat)
    requires sc.Valid() && QrelsOk(qrels) && WellRanked(group)
    ensures Distinct(Ranking(group)) && RowNdcg(sc, group, qrels, k) == NdcgAt(sc, Ranking(group), qrels, k)
    ensures 0.0 <= RowNdcg(sc, group, qrels, k) <= 1.0
  {
    hide RowDcg, DcgOf, RowIdeal, Scoring.Valid, OneEach, Ranking;
    RankOrder(group);
    RowDcgIsDcg(sc, group, qrels, k);
    SameIdeal(sc, qrels, k);
    IdealNonNegative(sc, qrels, k);
    NdcgBounded(sc, Ranking(group), qrels, k);
  }

  lemma IdealNonNegative<I(!new)>(sc: Scoring, qrels: seq<Qrel<I>>, k: nat)
    requires sc.Valid() && QrelsOk(qrels)
    ensures DcgOf(sc, IdealRelevances(qrels, k)) >= 0.0
  {
    ObservedNonNegative(sc, [], qrels, k);
    DcgBelowIdeal(sc, [], qrels, k);
  }
}
