/** Stable sorting by a pair of integer keys, first then second. */
module Sorting {

  type Key = (int, int)

  predicate Before(a: Key, b: Key) { a.0 < b.0 || (a.0 == b.0 && a.1 <= b.1) }

  ghost predicate SortedBy<T>(key: T -> Key, s: seq<T>) {
    forall i, j :: 0 <= i < j < |s| ==> Before(key(s[i]), key(s[j]))
  }

  /** Puts x behind everything that does not come after it. */
  function Insert<T>(key: T -> Key, x: T, s: seq<T>): seq<T> {
    if s == [] then [x]
    else if Before(key(s[|s| - 1]), key(x)) then s + [x]
    else Insert(key, x, s[..|s| - 1]) + [s[|s| - 1]]
  }

  function Sort<T>(key: T -> Key, s: seq<T>): seq<T> {
    if s == [] then [] else Insert(key, s[|s| - 1], Sort(key, s[..|s| - 1]))
  }

  lemma AppendLast<T>(key: T -> Key, s: seq<T>, last: T)
    requires SortedBy(key, s) && forall y :: y in s ==> Before(key(y), key(last))
    ensures SortedBy(key, s + [last])
  {
    forall i, j | 0 <= i < j < |s + [last]| ensures Before(key((s + [last])[i]), key((s + [last])[j])) {
      if j == |s| { assert s[i] in s; }
    }
  }

  lemma {:induction false} InsertKeeps<T>(key: T -> Key, x: T, s: seq<T>)
    requires SortedBy(key, s)
    ensures SortedBy(key, Insert(key, x, s))
    ensures multiset(Insert(key, x, s)) == multiset(s) + multiset{x}
  {
    if s == [] {
    } else if Before(key(s[|s| - 1]), key(x)) {
      LastIsGreatest(key, s);
      AppendLast(key, s, x);
    } else {
      var front, last := s[..|s| - 1], s[|s| - 1];
      assert s == front + [last];
      InsertKeeps(key, x, front);
      LastIsGreatest(key, s);
      forall y | y in Insert(key, x, front) ensures Before(key(y), key(last)) {
        InsertedMember(x, front, Insert(key, x, front), y);
      }
      AppendLast(key, Insert(key, x, front), last);
    }
  }

  lemma LastIsGreatest<T>(key: T -> Key, s: seq<T>)
    requires SortedBy(key, s) && s != []
    ensures forall y :: y in s ==> Before(key(y), key(s[|s| - 1]))
  {
    forall y | y in s ensures Before(key(y), key(s[|s| - 1])) {
      var i :| 0 <= i < |s| && s[i] == y;
    }
  }

  lemma InsertedMember<T>(x: T, s: seq<T>, t: seq<T>, y: T)
    requires multiset(t) == multiset(s) + multiset{x} && y in t
    ensures y in s || y == x
  {
    assert y in multiset(t);
  }

  /** The result is in order and has the same elements, each as often. */
  lemma {:induction false} SortSorts<T>(key: T -> Key, s: seq<T>)
    ensures SortedBy(key, Sort(key, s)) && multiset(Sort(key, s)) == multiset(s) && |Sort(key, s)| == |s|
  {
    if s != [] {
      var front, last := s[..|s| - 1], s[|s| - 1];
      SortSorts(key, front);
      InsertKeeps(key, last, Sort(key, front));
      assert s == front + [last];
    }
    assert |multiset(Sort(key, s))| == |multiset(s)|;
  }

  // ----- sorting numbers

  ghost predicate Increasing(s: seq<int>) { forall i, j :: 0 <= i < j < |s| ==> s[i] < s[j] }

  lemma IncreasingFront(s: seq<int>)
    requires Increasing(s) && s != []
    ensures var front, last := s[..|s| - 1], s[|s| - 1];
            s == front + [last] && Increasing(front) && forall x :: x in front ==> x < last
  {}

  lemma IncreasingAppend(s: seq<int>, x: int)
    requires Increasing(s) && forall y :: y in s ==> y < x
    ensures Increasing(s + [x])
  {
    forall i, j | 0 <= i < j < |s + [x]| ensures (s + [x])[i] < (s + [x])[j] {
      if j == |s| { assert s[i] in s; }
    }
  }

  function IntKey(x: int): Key { (x, 0) }

  lemma {:induction false} SortOfIncreasing(s: seq<int>)
    requires Increasing(s)
    ensures Sort(IntKey, s) == s
  {
    if s != [] {
      var front, last := s[..|s| - 1], s[|s| - 1];
      SortOfIncreasing(front);
      InsertLast(last, front);
      assert s == front + [last];
    }
  }

  lemma InsertLast(x: int, s: seq<int>)
    requires s != [] ==> s[|s| - 1] < x
    ensures Insert(IntKey, x, s) == s + [x]
  {
    assert s != [] ==> Before(IntKey(s[|s| - 1]), IntKey(x));
  }

  /** Drops what equals its predecessor. */
  function Unique(s: seq<int>): seq<int> {
    if |s| <= 1 then s
    else if s[|s| - 2] == s[|s| - 1] then Unique(s[..|s| - 1])
    else Unique(s[..|s| - 1]) + [s[|s| - 1]]
  }

  lemma {:induction false} UniqueOfIncreasing(s: seq<int>)
    requires Increasing(s)
    ensures Unique(s) == s
  {
    if |s| > 1 { UniqueOfIncreasing(s[..|s| - 1]); }
  }

  /** Of a sorted list one of each element remains. */
  lemma {:induction false} UniqueOfSorted(s: seq<int>)
    requires SortedBy(IntKey, s)
    ensures Increasing(Unique(s)) && (forall x :: x in Unique(s) <==> x in s)
    ensures s != [] ==> Unique(s) != [] && Unique(s)[|Unique(s)| - 1] == s[|s| - 1]
  {
    if |s| > 1 {
      UniqueOfSorted(s[..|s| - 1]);
      assert s == s[..|s| - 1] + [s[|s| - 1]];
      assert Before(IntKey(s[|s| - 2]), IntKey(s[|s| - 1]));
    }
  }

  lemma NothingToSort(s: seq<int>)
    requires Increasing(s)
    ensures Unique(Sort(IntKey, s)) == s
  {
    SortOfIncreasing(s);
    UniqueOfIncreasing(s);
  }
}
