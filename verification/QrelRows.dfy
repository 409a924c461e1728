/** Reading relevance judgements: what the row check accepts is exactly what nDCG needs of every query's judgements. */
module QrelRows {
  import opened Sequences
  import opened Ndcg

  datatype QrelRow<I> = QrelRow(query: I, doc: I, relevance: real)

  datatype Checked = Accepted | DuplicateQrel | NegativeRelevance

  /** The judgements of one query, in file order. */
  function QrelsOf<I(==)>(rows: seq<QrelRow<I>>, query: I): seq<Qrel<I>> {
    if rows == [] then []
    else
      var last := rows[|rows| - 1];
      QrelsOf(rows[..|rows| - 1], query) + (if last.query == query then [Qrel(last.doc, last.relevance)] else [])
  }

  ghost predicate Usable<I>(rows: seq<QrelRow<I>>, query: I) {
    QrelsOk(QrelsOf(rows, query))
  }

  ghost predicate AllUsable<I(!new)>(rows: seq<QrelRow<I>>) {
    forall query :: Usable(rows, query)
  }

  lemma QrelsOfStep<I(!new)>(rows: seq<QrelRow<I>>, n: nat, query: I)
    requires n < |rows|
    ensures QrelsOf(rows[..n + 1], query)
            == QrelsOf(rows[..n], query) + (if rows[n].query == query then [Qrel(rows[n].doc, rows[n].relevance)] else [])
  {
    assert rows[..n + 1][..n] == rows[..n];
  }

  lemma {:induction false} QrelIndex<I(!new)>(rows: seq<QrelRow<I>>, query: I, doc: I)
    ensures doc in Docs(QrelsOf(rows, query)) <==> exists i :: 0 <= i < |rows| && rows[i].query == query && rows[i].doc == doc
    decreases |rows|
  {
    if rows != [] {
      var n := |rows| - 1;
      QrelIndex(rows[..n], query, doc);
      var q := Qrel(rows[n].doc, rows[n].relevance);
      DocsAppend(QrelsOf(rows[..n], query), if rows[n].query == query then [q] else []);
      assert Docs([q]) == [q.doc] && Docs<I>([]) == [];
      if i :| 0 <= i < n && rows[..n][i].query == query && rows[..n][i].doc == doc {
        assert rows[i].query == query && rows[i].doc == doc;
      }
      if i :| 0 <= i < |rows| && rows[i].query == query && rows[i].doc == doc {
        if i < n {
          assert rows[..n][i].query == query && rows[..n][i].doc == doc;
        }
      }
    }
  }

  lemma DocsAppend<I>(a: seq<Qrel<I>>, b: seq<Qrel<I>>)
    ensures Docs(a + b) == Docs(a) + Docs(b)
  {
  }

  /** One more judgement keeps a query's judgements in order exactly when its document is new and its relevance is not negative. */
  lemma OneMoreQrel<I(!new)>(before: seq<Qrel<I>>, q: Qrel<I>)
    ensures QrelsOk(before + [q]) <==> QrelsOk(before) && q.doc !in Docs(before) && q.relevance >= 0.0
  {
    var after := before + [q];
    DocsAppend(before, [q]);
    assert Docs(after) == Docs(before) + [q.doc];
    assert forall k :: 0 <= k < |before| ==> after[k] == before[k] && Docs(after)[k] == Docs(before)[k];
    assert after[|before|] == q;
    if QrelsOk(after) {
      assert forall k :: 0 <= k < |before| ==> Docs(after)[k] != Docs(after)[|before|];
    }
  }

  lemma QrelsOkPrefix<I(!new)>(rows: seq<QrelRow<I>>, n: nat)
    requires n < |rows| && AllUsable(rows[..n])
    ensures AllUsable(rows[..n + 1]) <==> rows[n].doc !in Docs(QrelsOf(rows[..n], rows[n].query)) && rows[n].relevance >= 0.0
  {
    hide QrelsOk, QrelsOf, Docs;
    var row, now := rows[n], rows[..n + 1];
    forall query ensures Usable(now, query)
                         <==> query != row.query || (row.doc !in Docs(QrelsOf(rows[..n], row.query)) && row.relevance >= 0.0)
    {
      assert Usable(rows[..n], query);
      QrelsOfStep(rows, n, query);
      if query == row.query {
        OneMoreQrel(QrelsOf(rows[..n], query), Qrel(row.doc, row.relevance));
      } else {
        assert QrelsOf(rows[..n + 1], query) == QrelsOf(rows[..n], query);
      }
    }
    assert Usable(now, row.query) <==> row.doc !in Docs(QrelsOf(rows[..n], row.query)) && row.relevance >= 0.0;
  }

  /** A defect in a prefix stays. */
  lemma {:induction false} BadPrefix<I(!new)>(rows: seq<QrelRow<I>>, n: nat)
    requires n <= |rows| && !AllUsable(rows[..n])
    ensures !AllUsable(rows)
    decreases |rows| - n
  {
    if n == |rows| {
      assert rows[..n] == rows;
    } else {
      var query :| !Usable(rows[..n], query);
      QrelsOfStep(rows, n, query);
      var before := QrelsOf(rows[..n], query);
      if rows[n].query == query {
        OneMoreQrel(before, Qrel(rows[n].doc, rows[n].relevance));
      } else {
        assert QrelsOf(rows[..n + 1], query) == before;
      }
      assert !Usable(rows[..n + 1], query);
      BadPrefix(rows, n + 1);
    }
  }

  /** The n-th row judges a document that an earlier row of the same query has judged. */
  ghost predicate Repeats<I>(rows: seq<QrelRow<I>>, n: nat)
    requires n < |rows|
  {
    exists i :: 0 <= i < n && rows[i].query == rows[n].query && rows[i].doc == rows[n].doc
  }

  /** The rows are accepted exactly when every query's judgements are usable. */
  method CheckQrels<I(==,!new)>(rows: seq<QrelRow<I>>) returns (r: Checked)
    ensures r == Accepted <==> AllUsable(rows)
    ensures r == DuplicateQrel ==> exists n: nat :: n < |rows| && AllUsable(rows[..n]) && Repeats(rows, n)
    ensures r == NegativeRelevance ==> exists n: nat :: n < |rows| && AllUsable(rows[..n]) && !Repeats(rows, n) && rows[n].relevance < 0.0
  {
    hide AllUsable, QrelsOf, Docs;
    var seenPairs: set<(I, I)> := {};
    NoQrels<I>();
    assert rows[..0] == [];
    for n := 0 to |rows|
      invariant AllUsable(rows[..n])
      invariant forall query, doc :: (query, doc) in seenPairs <==> exists i :: 0 <= i < n && rows[..n][i].query == query && rows[..n][i].doc == doc
    {
      var row := rows[n];
      assert (row.query, row.doc) in seenPairs <==> Repeats(rows, n);
      QrelIndex(rows[..n], row.query, row.doc);
      QrelsOkPrefix(rows, n);
      if (row.query, row.doc) in seenPairs {
        BadPrefix(rows, n + 1);
        return DuplicateQrel;
      }
      seenPairs := seenPairs + {(row.query, row.doc)};
      if row.relevance < 0.0 {
        BadPrefix(rows, n + 1);
        return NegativeRelevance;
      }
      assert forall i :: 0 <= i < n ==> rows[..n + 1][i] == rows[..n][i];
      assert rows[..n + 1][n] == row;
    }
    assert rows[..|rows|] == rows;
    r := Accepted;
  }

  lemma NoQrels<I(!new)>()
    ensures AllUsable<I>([])
  {
  }

  /** Accepted judgements and a duplicate-free ranking give an nDCG between 0 and 1, for every query. */
  lemma AcceptedNdcgBounded<I(!new)>(sc: Scoring, rows: seq<QrelRow<I>>, query: I, ranked: seq<I>, k: nat)
    requires sc.Valid() && AllUsable(rows) && Distinct(ranked)
    ensures 0.0 <= NdcgAt(sc, ranked, QrelsOf(rows, query), k) <= 1.0
  {
    hide Scoring.Valid, QrelsOf, NdcgAt;
    assert Usable(rows, query);
    NdcgBounded(sc, ranked, QrelsOf(rows, query), k);
  }
}
