/** Facts about sequences that several modules share. */
module Sequences {

  ghost predicate Distinct<T>(s: seq<T>) {
    forall i, j :: 0 <= i < j < |s| ==> s[i] != s[j]
  }

  function Min(a: nat, b: nat): nat {
    if a <= b then a else b
  }

  /** Python's s[:n]. */
  function Take<T>(s: seq<T>, n: nat): seq<T> {
    s[..Min(n, |s|)]
  }

  lemma SingletonDistinct<T>(x: T)
    ensures Distinct([x])
  {
  }

  lemma DistinctConcat<T>(a: seq<T>, b: seq<T>)
    requires Distinct(a) && Distinct(b)
    requires forall x :: x in a ==> x !in b
    ensures Distinct(a + b)
  {
    forall i, j | 0 <= i < j < |a + b| ensures (a + b)[i] != (a + b)[j] {
      if i < |a| <= j {
        assert a[i] in a && b[j - |a|] in b;
      }
    }
  }

  /** A duplicate-free sequence over a finite set is no longer than the set. */
  lemma DistinctBounded<T>(s: seq<T>, universe: set<T>)
    requires Distinct(s)
    requires forall x :: x in s ==> x in universe
    ensures |s| <= |universe|
  {
    if s != [] {
      var last := s[|s| - 1];
      var rest := s[..|s| - 1];
      assert forall x :: x in rest ==> x in universe - {last};
      DistinctBounded(rest, universe - {last});
    }
  }

  lemma {:induction false} SubsetSize<T>(a: set<T>, b: set<T>)
    requires a <= b
    ensures |a| <= |b|
    decreases a
  {
    if a != {} {
      var x :| x in a;
      SubsetSize(a - {x}, b - {x});
    }
  }

  /** list followed by the elements of more that are not listed yet, each once, in order. */
  function AddNew<T(==)>(list: seq<T>, more: seq<T>): seq<T> {
    if more == [] then list
    else
      var before := AddNew(list, more[..|more| - 1]);
      if more[|more| - 1] in before then before else before + [more[|more| - 1]]
  }

  method AppendNew<T(==)>(list: seq<T>, more: seq<T>) returns (r: seq<T>)
    ensures r == AddNew(list, more)
  {
    r := list;
    assert more[..0] == [];
    for i := 0 to |more|
      invariant r == AddNew(list, more[..i])
    {
      assert more[..i + 1][..i] == more[..i];
      if more[i] !in r {
        r := r + [more[i]];
      }
    }
    assert more[..|more|] == more;
  }

  lemma {:induction false} AddNewLaws<T>(list: seq<T>, more: seq<T>)
    requires Distinct(list)
    ensures Distinct(AddNew(list, more)) && list <= AddNew(list, more)
    ensures forall x :: x in AddNew(list, more) <==> x in list || x in more
    ensures |AddNew(list, more)| <= |list| + |more|
    decreases |more|
  {
    if more != [] {
      AddNewLaws(list, more[..|more| - 1]);
      assert more == more[..|more| - 1] + [more[|more| - 1]];
    }
  }

  lemma {:induction false} AddNewAppend<T>(list: seq<T>, a: seq<T>, b: seq<T>)
    ensures AddNew(list, a + b) == AddNew(AddNew(list, a), b)
    decreases |b|
  {
    if b == [] {
      assert a + b == a;
    } else {
      assert (a + b)[..|a + b| - 1] == a + b[..|b| - 1];
      AddNewAppend(list, a, b[..|b| - 1]);
    }
  }

  /** x occurs in s, and y does not occur up to there. */
  ghost predicate MetBefore<T>(s: seq<T>, x: T, y: T) {
    exists k :: 0 <= k < |s| && s[k] == x && y !in s[..k] && x != y
  }

  lemma MetEarlier<T>(s: seq<T>, n: nat, x: T, y: T)
    requires n <= |s|
    ensures MetBefore(s[..n], x, y) ==> MetBefore(s, x, y)
    ensures x in s[..n] && y !in s[..n] ==> MetBefore(s, x, y)
  {
    if k :| 0 <= k < n && s[..n][k] == x && y !in s[..n][..k] && x != y {
      assert s[k] == x && s[..k] == s[..n][..k];
    }
    if x in s[..n] && y !in s[..n] {
      var k :| 0 <= k < n && s[..n][k] == x;
      assert s[k] == x && s[..k] == s[..n][..k];
    }
  }

  /** What is added comes behind the list, in order of first occurrence. */
  lemma {:induction false} AddNewInOrder<T(!new)>(list: seq<T>, more: seq<T>, i: nat, j: nat)
    requires Distinct(list) && i < j < |AddNew(list, more)| && |list| <= j
    ensures var all := AddNew(list, more);
            all[j] !in list && (i < |list| || MetBefore(more, all[i], all[j]))
    decreases |more|
  {
    hide MetBefore;
    AddNewLaws(list, more);
    var n, all := |more| - 1, AddNew(list, more);
    var before := AddNew(list, more[..n]);
    AddNewLaws(list, more[..n]);
    NotInPrefix(all, list, j);
    if i >= |list| {
      NotInPrefix(all, list, i);
      MetEarlier(more, n, all[i], all[j]);
      if j < |before| {
        AddNewInOrder(list, more[..n], i, j);
      } else {
        assert all[i] == before[i] && all[i] in before;
        assert all[j] !in before;
      }
    }
  }

  lemma NotInPrefix<T>(s: seq<T>, p: seq<T>, i: nat)
    requires Distinct(s) && p <= s && |p| <= i < |s|
    ensures s[i] !in p
  {
  }
}
