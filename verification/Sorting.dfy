/** A stable sort by a total preorder, as Python's sorted. */
module Sorting {
  import opened Sequences

  ghost predicate TotalPreorder<T(!new)>(le: (T, T) -> bool) {
    && (forall a, b :: le(a, b) || le(b, a))
    && (forall a, b, c :: le(a, b) && le(b, c) ==> le(a, c))
  }

  ghost predicate IsSorted<T>(s: seq<T>, le: (T, T) -> bool) {
    forall i, j :: 0 <= i < j < |s| ==> le(s[i], s[j])
  }

  /** x goes behind everything it does not precede. */
  function Insert<T>(s: seq<T>, x: T, le: (T, T) -> bool): seq<T> {
    if s == [] || !le(s[0], x) then [x] + s else [s[0]] + Insert(s[1..], x, le)
  }

  function Sort<T>(s: seq<T>, le: (T, T) -> bool): seq<T> {
    if s == [] then [] else Insert(Sort(s[..|s| - 1], le), s[|s| - 1], le)
  }

  /** Where x lands. */
  lemma {:induction false} InsertPosition<T(!new)>(s: seq<T>, x: T, le: (T, T) -> bool) returns (p: nat)
    requires TotalPreorder(le) && IsSorted(s, le)
    ensures p <= |s| && Insert(s, x, le) == s[..p] + [x] + s[p..]
    ensures forall i :: 0 <= i < p ==> le(s[i], x)
    ensures forall i :: p <= i < |s| ==> le(x, s[i])
    decreases |s|
  {
    if s == [] || !le(s[0], x) {
      p := 0;
    } else {
      var q := InsertPosition(s[1..], x, le);
      p := q + 1;
      assert s[..p] == [s[0]] + s[1..][..q];
      assert s[p..] == s[1..][q..];
      assert forall i :: 0 < i < p ==> s[i] == s[1..][i - 1];
      assert forall i :: p <= i < |s| ==> s[i] == s[1..][i - 1];
    }
  }

  lemma InsertLaws<T(!new)>(s: seq<T>, x: T, le: (T, T) -> bool)
    requires TotalPreorder(le) && IsSorted(s, le)
    ensures IsSorted(Insert(s, x, le), le)
    ensures multiset(Insert(s, x, le)) == multiset(s) + multiset{x}
  {
    hide Insert;
    var p := InsertPosition(s, x, le);
    var a, b := s[..p], s[p..];
    assert s == a + b;
    assert multiset(a + [x] + b) == multiset(a) + multiset{x} + multiset(b);
  }

  /** The sort is an ordered permutation. */
  lemma {:induction false} SortLaws<T(!new)>(s: seq<T>, le: (T, T) -> bool)
    requires TotalPreorder(le)
    ensures IsSorted(Sort(s, le), le) && multiset(Sort(s, le)) == multiset(s)
    ensures |Sort(s, le)| == |s| && forall x :: x in Sort(s, le) <==> x in s
    decreases |s|
  {
    hide Insert, TotalPreorder;
    if s != [] {
      var n := |s| - 1;
      SortLaws(s[..n], le);
      InsertLaws(Sort(s[..n], le), s[n], le);
      assert s == s[..n] + [s[n]];
    }
    SameElements(Sort(s, le), s);
  }

  lemma SameElements<T(!new)>(s: seq<T>, t: seq<T>)
    requires multiset(s) == multiset(t)
    ensures |s| == |t| && forall x :: x in s <==> x in t
  {
    assert |multiset(s)| == |s| && |multiset(t)| == |t|;
    forall x ensures x in s <==> x in t {
      assert x in multiset(s) <==> x in s;
      assert x in multiset(t) <==> x in t;
    }
  }

  /** Duplicate-free means that no element counts twice. */
  lemma {:induction false} DistinctCounts<T(!new)>(s: seq<T>)
    ensures Distinct(s) <==> forall x :: multiset(s)[x] <= 1
    decreases |s|
  {
    if s != [] {
      var n := |s| - 1;
      var rest, last := s[..n], s[n];
      assert s == rest + [last];
      DistinctCounts(rest);
      if last in rest {
        var k :| 0 <= k < n && rest[k] == last;
        assert s[k] == s[n];
        assert multiset(s)[last] >= 2;
      } else {
        assert Distinct(s) <==> Distinct(rest) by {
          if Distinct(s) {
            assert rest == s[..n];
          }
        }
        assert multiset(s) == multiset(rest) + multiset{last};
        if !Distinct(rest) {
          var x :| multiset(rest)[x] > 1;
          assert multiset(s)[x] > 1;
        }
      }
    }
  }

  /** Nothing equals two different elements. */
  ghost predicate Antisymmetric<T(!new)>(le: (T, T) -> bool) {
    forall a, b :: le(a, b) && le(b, a) ==> a == b
  }

  /** A total order leaves no choice: the ordered permutation is unique. */
  lemma {:induction false} SortedUnique<T(!new)>(s: seq<T>, t: seq<T>, le: (T, T) -> bool)
    requires Antisymmetric(le)
    requires IsSorted(s, le) && IsSorted(t, le) && multiset(s) == multiset(t)
    ensures s == t
    decreases |s|
  {
    hide Antisymmetric;
    SameElements(s, t);
    if s != [] {
      SortedHeads(s, t, le);
      WithoutHead(s);
      WithoutHead(t);
      SortedUnique(s[1..], t[1..], le);
      assert s == [s[0]] + s[1..] && t == [t[0]] + t[1..];
    }
  }

  lemma SortedHeads<T(!new)>(s: seq<T>, t: seq<T>, le: (T, T) -> bool)
    requires Antisymmetric(le) && IsSorted(s, le) && IsSorted(t, le)
    requires s != [] && t != [] && s[0] in t && t[0] in s
    ensures s[0] == t[0]
  {
  }

  lemma WithoutHead<T>(s: seq<T>)
    requires s != []
    ensures multiset(s[1..]) == multiset(s) - multiset{s[0]}
  {
    assert s == [s[0]] + s[1..];
  }
}
