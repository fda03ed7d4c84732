/**
  A stable insertion sort parameterised by a "goes no later than" relation,
  the model of Python's `list.sort(key=..., reverse=...)` (which is stable,
  also when reversed) and of the plain `list.sort()` on strings.
*/
module Sorting {

  ghost predicate Total<T(!new)>(le: (T, T) -> bool) {
    forall a, b :: le(a, b) || le(b, a)
  }

  ghost predicate Transitive<T(!new)>(le: (T, T) -> bool) {
    forall a, b, c :: le(a, b) && le(b, c) ==> le(a, c)
  }

  /** The relations a sort key induces: every pair comparable, chains compose. */
  ghost predicate TotalPreorder<T(!new)>(le: (T, T) -> bool) {
    Total(le) && Transitive(le)
  }

  predicate SortedBy<T>(s: seq<T>, le: (T, T) -> bool) {
    forall i, j :: 0 <= i < j < |s| ==> le(s[i], s[j])
  }

  /** x and y have equal sort keys. */
  predicate Tied<T>(le: (T, T) -> bool, x: T, y: T) {
    le(x, y) && le(y, x)
  }

  /** The elements of s whose key equals z's, in the order they appear in s. */
  function TiesOf<T>(s: seq<T>, z: T, le: (T, T) -> bool): (r: seq<T>)
    ensures |r| <= |s|
    ensures forall i :: 0 <= i < |r| ==> Tied(le, r[i], z)
  {
    if |s| == 0 then []
    else (if Tied(le, s[0], z) then [s[0]] else []) + TiesOf(s[1..], z, le)
  }

  /** Places x in front of the first element it may precede. */
  function Insert<T>(x: T, s: seq<T>, le: (T, T) -> bool): (r: seq<T>)
    ensures multiset(r) == multiset(s) + multiset{x}
  {
    if |s| == 0 then [x]
    else if le(x, s[0]) then [x] + s
    else
      assert s == [s[0]] + s[1..];
      [s[0]] + Insert(x, s[1..], le)
  }

  /** Insertion sort: each element is inserted into the sorted rest of the list. */
  function SortBy<T>(s: seq<T>, le: (T, T) -> bool): (r: seq<T>)
    ensures multiset(r) == multiset(s)
    ensures |r| == |s|
  {
    if |s| == 0 then []
    else
      assert s == [s[0]] + s[1..];
      Insert(s[0], SortBy(s[1..], le), le)
  }

  lemma {:induction false} InsertSorted<T(!new)>(x: T, s: seq<T>, le: (T, T) -> bool)
    requires TotalPreorder(le)
    requires SortedBy(s, le)
    ensures SortedBy(Insert(x, s, le), le)
  {
    if |s| > 0 && !le(x, s[0]) {
      InsertSorted(x, s[1..], le);
      assert le(s[0], x);
      forall k | 0 <= k < |s[1..]|
        ensures le(s[0], s[1..][k])
      {
        assert s[1..][k] == s[k + 1];
      }
      InsertKeepsLowerBound(s[0], x, s[1..], le);
    }
  }

  /** An element that may precede x and every element of s may precede all of Insert(x, s). */
  lemma {:induction false} InsertKeepsLowerBound<T>(a: T, x: T, s: seq<T>, le: (T, T) -> bool)
    requires le(a, x)
    requires forall k :: 0 <= k < |s| ==> le(a, s[k])
    ensures forall k :: 0 <= k < |Insert(x, s, le)| ==> le(a, Insert(x, s, le)[k])
  {
    if |s| > 0 && !le(x, s[0]) {
      forall k | 0 <= k < |s[1..]|
        ensures le(a, s[1..][k])
      {
        assert s[1..][k] == s[k + 1];
      }
      InsertKeepsLowerBound(a, x, s[1..], le);
    }
  }

  /** The sorted list is ordered by le. */
  lemma {:induction false} SortByIsSorted<T(!new)>(s: seq<T>, le: (T, T) -> bool)
    requires TotalPreorder(le)
    ensures SortedBy(SortBy(s, le), le)
  {
    if |s| > 0 {
      SortByIsSorted(s[1..], le);
      InsertSorted(s[0], SortBy(s[1..], le), le);
    }
  }

  /** Inserting never reorders x against a later element with an equal key. */
  lemma {:induction false} InsertStable<T(!new)>(x: T, s: seq<T>, z: T, le: (T, T) -> bool)
    requires TotalPreorder(le)
    ensures TiesOf(Insert(x, s, le), z, le) == TiesOf([x] + s, z, le)
  {
    if |s| > 0 && !le(x, s[0]) {
      var y, tail := s[0], s[1..];
      var ty := if Tied(le, y, z) then [y] else [];
      var tx := if Tied(le, x, z) then [x] else [];
      InsertStable(x, tail, z, le);
      assert Insert(x, s, le) == [y] + Insert(x, tail, le);
      TiesOfCons(y, Insert(x, tail, le), z, le);
      TiesOfCons(x, tail, z, le);
      TiesOfCons(x, s, z, le);
      assert s == [y] + tail;
      TiesOfCons(y, tail, z, le);
      NotBothTied(x, y, z, le);
      SwapAroundEmpty(ty, tx, TiesOf(tail, z, le));
    }
  }

  lemma SwapAroundEmpty<T>(a: seq<T>, b: seq<T>, c: seq<T>)
    requires a == [] || b == []
    ensures a + (b + c) == b + (a + c)
  {
    if a == [] {
      assert a + (b + c) == b + c;
      assert a + c == c;
    } else {
      assert b + c == c;
      assert b + (a + c) == a + c;
    }
  }

  lemma TiesOfCons<T>(a: T, s: seq<T>, z: T, le: (T, T) -> bool)
    ensures TiesOf([a] + s, z, le) == (if Tied(le, a, z) then [a] else []) + TiesOf(s, z, le)
  {
    assert ([a] + s)[1..] == s;
  }

  /** Two elements with different keys cannot both tie with a third. */
  lemma NotBothTied<T(!new)>(x: T, y: T, z: T, le: (T, T) -> bool)
    requires TotalPreorder(le)
    requires !le(x, y)
    ensures !(Tied(le, x, z) && Tied(le, y, z))
  {
  }

  /** Stability: among elements with equal keys the input order survives the sort. */
  lemma {:induction false} SortByIsStable<T(!new)>(s: seq<T>, z: T, le: (T, T) -> bool)
    requires TotalPreorder(le)
    ensures TiesOf(SortBy(s, le), z, le) == TiesOf(s, z, le)
  {
    if |s| > 0 {
      SortByIsStable(s[1..], z, le);
      InsertStable(s[0], SortBy(s[1..], le), z, le);
      assert ([s[0]] + SortBy(s[1..], le))[1..] == SortBy(s[1..], le);
    }
  }

  /** Sorting a list that is already ordered leaves it exactly as it is. */
  lemma {:induction false} SortByOfSorted<T(!new)>(s: seq<T>, le: (T, T) -> bool)
    requires SortedBy(s, le)
    ensures SortBy(s, le) == s
  {
    if |s| > 0 {
      assert SortedBy(s[1..], le) by {
        forall i, j | 0 <= i < j < |s[1..]|
          ensures le(s[1..][i], s[1..][j])
        {
          assert s[1..][i] == s[i + 1] && s[1..][j] == s[j + 1];
        }
      }
      SortByOfSorted(s[1..], le);
      if |s| > 1 {
        assert le(s[0], s[1]);
      }
      assert s == [s[0]] + s[1..];
    }
  }
}
