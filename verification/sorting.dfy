/** A stable functional insertion sort, standing in for Python's `sorted`
    (which is also stable) wherever the backend sorts. */
module Sorting {

  ghost predicate Total<T(!new)>(le: (T, T) -> bool) {
    forall a, b :: le(a, b) || le(b, a)
  }

  ghost predicate Transitive<T(!new)>(le: (T, T) -> bool) {
    forall a, b, c :: le(a, b) && le(b, c) ==> le(a, c)
  }

  /** A total preorder: the shape of every sort key the backend uses. */
  ghost predicate TotalPreorder<T(!new)>(le: (T, T) -> bool) {
    Total(le) && Transitive(le)
  }

  predicate SortedBy<T>(s: seq<T>, le: (T, T) -> bool) {
    forall i, j :: 0 <= i < j < |s| ==> le(s[i], s[j])
  }

  /** Inserts `x` before the first element it is `le`; an element that
      compares equal to `x` and is already in `s` stays behind `x`, which keeps
      `SortBy` stable for the front-to-back insertion it performs. */
  function InsertBy<T>(x: T, s: seq<T>, le: (T, T) -> bool): (r: seq<T>)
    ensures multiset(r) == multiset(s) + multiset{x}
    ensures |r| == |s| + 1
  {
    if s == [] || le(x, s[0]) then [x] + s
    else
      assert s == [s[0]] + s[1..];
      [s[0]] + InsertBy(x, s[1..], le)
  }

  /** Python's `sorted(s, key=...)`, with `le` comparing the keys. */
  function SortBy<T>(s: seq<T>, le: (T, T) -> bool): (r: seq<T>)
    ensures multiset(r) == multiset(s)
    ensures |r| == |s|
  {
    if s == [] then []
    else
      assert s == [s[0]] + s[1..];
      InsertBy(s[0], SortBy(s[1..], le), le)
  }

  lemma {:induction false} InsertBySorted<T(!new)>(x: T, s: seq<T>, le: (T, T) -> bool)
    requires TotalPreorder(le)
    requires SortedBy(s, le)
    ensures SortedBy(InsertBy(x, s, le), le)
  {
    if s == [] || le(x, s[0]) {
    } else {
      var tail := InsertBy(x, s[1..], le);
      InsertBySorted(x, s[1..], le);
      assert le(s[0], x);
      forall k | 0 <= k < |tail|
        ensures le(s[0], tail[k])
      {
        assert tail[k] in multiset(s[1..]) + multiset{x};
      }
    }
  }

  /** The result of `SortBy` is ordered and (by its contract) a permutation. */
  lemma {:induction false} SortBySorted<T(!new)>(s: seq<T>, le: (T, T) -> bool)
    requires TotalPreorder(le)
    ensures SortedBy(SortBy(s, le), le)
  {
    if s != [] {
      SortBySorted(s[1..], le);
      InsertBySorted(s[0], SortBy(s[1..], le), le);
    }
  }

  /** Every element of the sorted sequence comes from the input and conversely. */
  lemma SortByMembers<T>(s: seq<T>, le: (T, T) -> bool)
    ensures forall x :: x in SortBy(s, le) <==> x in s
  {
    var r := SortBy(s, le);
    forall x
      ensures x in r <==> x in s
    {
      assert x in r <==> x in multiset(r);
      assert x in s <==> x in multiset(s);
    }
  }

  // ------------------------------------------------------------------ stability

  /** x and a compare equal under `le`. */
  predicate Tied<T>(le: (T, T) -> bool, x: T, a: T) {
    le(x, a) && le(a, x)
  }

  /** The elements of s that compare equal to a, in their order in s. */
  function TieClass<T>(s: seq<T>, le: (T, T) -> bool, a: T): (r: seq<T>)
    ensures forall x :: x in r ==> x in s && Tied(le, x, a)
    ensures |r| <= |s|
  {
    if s == [] then []
    else (if Tied(le, s[0], a) then [s[0]] else []) + TieClass(s[1..], le, a)
  }

  /** Inserting x puts it in front of every element it ties with: an
      element tied with x is never passed over. */
  lemma {:induction false} InsertByTies<T(!new)>(x: T, s: seq<T>, le: (T, T) -> bool, a: T)
    requires Transitive(le)
    ensures TieClass(InsertBy(x, s, le), le, a) == (if Tied(le, x, a) then [x] else []) + TieClass(s, le, a)
  {
    var r := InsertBy(x, s, le);
    if s == [] || le(x, s[0]) {
      assert r == [x] + s;
      assert r[1..] == s;
    } else {
      var tail := InsertBy(x, s[1..], le);
      assert r == [s[0]] + tail;
      assert r[1..] == tail;
      InsertByTies(x, s[1..], le, a);
      if Tied(le, x, a) {
        assert !Tied(le, s[0], a);
      }
    }
  }

  /** `SortBy` is stable: the elements that compare equal to any given value
      come out in the order they went in. */
  lemma {:induction false} SortByStable<T(!new)>(s: seq<T>, le: (T, T) -> bool, a: T)
    requires Transitive(le)
    ensures TieClass(SortBy(s, le), le, a) == TieClass(s, le, a)
  {
    if s != [] {
      SortByStable(s[1..], le, a);
      InsertByTies(s[0], SortBy(s[1..], le), le, a);
    }
  }

  lemma {:induction false} TieClassAll<T>(s: seq<T>, le: (T, T) -> bool, a: T)
    requires forall x :: x in s ==> Tied(le, x, a)
    ensures TieClass(s, le, a) == s
  {
    if s != [] {
      assert s[0] in s;
      assert forall x :: x in s[1..] ==> x in s;
      TieClassAll(s[1..], le, a);
    }
  }

  /** When all elements compare equal, sorting changes nothing. */
  lemma SortByAllTied<T(!new)>(s: seq<T>, le: (T, T) -> bool)
    requires Transitive(le)
    requires forall x, y :: x in s && y in s ==> le(x, y)
    ensures SortBy(s, le) == s
  {
    if s != [] {
      var a := s[0];
      var r := SortBy(s, le);
      SortByMembers(s, le);
      TieClassAll(s, le, a);
      TieClassAll(r, le, a);
      SortByStable(s, le, a);
    }
  }
}
