/** Array.prototype.toSorted: a stable sort by a comparator. */
module Sorting {

  function InsertBy<T>(compare: (T, T) -> int, x: T, s: seq<T>): seq<T> {
    if s == [] || compare(x, s[0]) < 0 then [x] + s else [s[0]] + InsertBy(compare, x, s[1..])
  }

  function SortBy<T>(compare: (T, T) -> int, s: seq<T>): seq<T> {
    if s == [] then [] else InsertBy(compare, s[|s| - 1], SortBy(compare, s[..|s| - 1]))
  }

  lemma {:induction false} InsertByPermutes<T>(compare: (T, T) -> int, x: T, s: seq<T>)
    ensures multiset(InsertBy(compare, x, s)) == multiset(s) + multiset{x}
  {
    if s == [] || compare(x, s[0]) < 0 {
    } else {
      InsertByPermutes(compare, x, s[1..]);
      assert s == [s[0]] + s[1..];
    }
  }

  lemma {:induction false} SortByPermutes<T>(compare: (T, T) -> int, s: seq<T>)
    ensures multiset(SortBy(compare, s)) == multiset(s)
  {
    if s != [] {
      SortByPermutes(compare, s[..|s| - 1]);
      InsertByPermutes(compare, s[|s| - 1], SortBy(compare, s[..|s| - 1]));
      assert s == s[..|s| - 1] + [s[|s| - 1]];
    }
  }

  lemma SortedMembers<T>(compare: (T, T) -> int, s: seq<T>)
    ensures forall x :: x in SortBy(compare, s) <==> x in s
  {
    SortByPermutes(compare, s);
    assert forall x :: x in SortBy(compare, s) <==> x in multiset(SortBy(compare, s));
  }

  /** Sorting keeps a sequence free of repetitions. */
  lemma DistinctBySort<T>(compare: (T, T) -> int, s: seq<T>, i: nat, j: nat)
    requires forall i, j :: 0 <= i < j < |s| ==> s[i] != s[j]
    requires i < j < |SortBy(compare, s)|
    ensures SortBy(compare, s)[i] != SortBy(compare, s)[j]
  {
    var t := SortBy(compare, s);
    if t[i] == t[j] {
      SortByPermutes(compare, s);
      assert t == t[..i] + [t[i]] + t[i + 1..j] + [t[j]] + t[j + 1..];
      assert multiset(t)[t[i]] >= 2;
      AtMostOnce(s, t[i]);
    }
  }

  lemma {:induction false} AtMostOnce<T>(s: seq<T>, x: T)
    requires forall i, j :: 0 <= i < j < |s| ==> s[i] != s[j]
    ensures multiset(s)[x] <= 1
  {
    if s != [] {
      assert s == s[..|s| - 1] + [s[|s| - 1]];
      AtMostOnce(s[..|s| - 1], x);
      if x == s[|s| - 1] {
        assert x !in s[..|s| - 1];
        assert x !in multiset(s[..|s| - 1]);
      }
    }
  }

  // ---- the result is in order ----

  /** A strict weak order: elements may tie, and ties are an equivalence. */
  ghost predicate IsWeakOrder<T(!new)>(compare: (T, T) -> int) {
    && (forall x, y :: compare(x, y) < 0 ==> compare(y, x) >= 0)
    && (forall x, y, z :: compare(y, x) >= 0 && compare(z, y) >= 0 ==> compare(z, x) >= 0)
  }

  /** No element comes before an earlier one. */
  ghost predicate IsOrdered<T>(compare: (T, T) -> int, s: seq<T>) {
    forall i, j :: 0 <= i < j < |s| ==> compare(s[j], s[i]) >= 0
  }

  lemma {:induction false} InsertByOrders<T(!new)>(compare: (T, T) -> int, x: T, s: seq<T>)
    requires IsWeakOrder(compare) && IsOrdered(compare, s)
    ensures IsOrdered(compare, InsertBy(compare, x, s))
  {
    if s == [] {
    } else if compare(x, s[0]) < 0 {
      forall j | 0 <= j < |s| ensures compare(s[j], x) >= 0 {
        assert j > 0 ==> compare(s[j], s[0]) >= 0;
      }
    } else {
      InsertByOrders(compare, x, s[1..]);
      var rest := InsertBy(compare, x, s[1..]);
      forall j | 0 <= j < |rest| ensures compare(rest[j], s[0]) >= 0 {
        InsertByMember(compare, x, s[1..], rest[j]);
      }
    }
  }

  lemma InsertByMember<T>(compare: (T, T) -> int, x: T, s: seq<T>, y: T)
    requires y in InsertBy(compare, x, s)
    ensures y == x || y in s
  {
    InsertByPermutes(compare, x, s);
    assert y in multiset(InsertBy(compare, x, s));
  }

  /** Sorting by a weak order puts the elements in order. */
  lemma {:induction false} SortByOrders<T(!new)>(compare: (T, T) -> int, s: seq<T>)
    requires IsWeakOrder(compare)
    ensures IsOrdered(compare, SortBy(compare, s))
  {
    if s != [] {
      SortByOrders(compare, s[..|s| - 1]);
      InsertByOrders(compare, s[|s| - 1], SortBy(compare, s[..|s| - 1]));
    }
  }

  // ---- ties keep their order ----

  /** The elements of s that tie with y, in order. */
  function Ties<T>(compare: (T, T) -> int, s: seq<T>, y: T): seq<T> {
    if s == [] then []
    else (if compare(s[0], y) >= 0 && compare(y, s[0]) >= 0 then [s[0]] else []) + Ties(compare, s[1..], y)
  }

  lemma {:induction false} TiesAppend<T>(compare: (T, T) -> int, s: seq<T>, t: seq<T>, y: T)
    ensures Ties(compare, s + t, y) == Ties(compare, s, y) + Ties(compare, t, y)
  {
    if s == [] {
      assert s + t == t;
    } else {
      assert (s + t)[1..] == s[1..] + t;
      TiesAppend(compare, s[1..], t, y);
    }
  }

  lemma {:induction false} NoTiesAbove<T(!new)>(compare: (T, T) -> int, s: seq<T>, x: T, y: T)
    requires IsWeakOrder(compare) && compare(x, y) >= 0 && compare(y, x) >= 0
    requires forall z :: z in s ==> compare(x, z) < 0
    ensures Ties(compare, s, y) == []
  {
    if s != [] {
      assert s[0] in s;
      NoTiesAbove(compare, s[1..], x, y);
    }
  }

  /** An element is inserted behind those it ties with. */
  lemma {:induction false} InsertByIsStable<T(!new)>(compare: (T, T) -> int, x: T, s: seq<T>, y: T)
    requires IsWeakOrder(compare) && IsOrdered(compare, s)
    ensures Ties(compare, InsertBy(compare, x, s), y) == Ties(compare, s + [x], y)
  {
    hide IsWeakOrder, Ties;
    TiesAppend(compare, s, [x], y);
    if s == [] {
      assert s + [x] == [x] == [x] + s;
    } else if compare(x, s[0]) < 0 {
      TiesAppend(compare, [x], s, y);
      OneTie(compare, x, y);
      if compare(x, y) >= 0 && compare(y, x) >= 0 {
        AllAbove(compare, x, s);
        NoTiesAbove(compare, s, x, y);
      }
    } else {
      InsertByIsStable(compare, x, s[1..], y);
      TiesAppend(compare, s[1..], [x], y);
      TiesAppend(compare, [s[0]], InsertBy(compare, x, s[1..]), y);
      TiesAppend(compare, [s[0]], s[1..], y);
      assert [s[0]] + s[1..] == s;
    }
  }

  lemma OneTie<T>(compare: (T, T) -> int, x: T, y: T)
    ensures Ties(compare, [x], y) == if compare(x, y) >= 0 && compare(y, x) >= 0 then [x] else []
  {
  }

  lemma AllAbove<T(!new)>(compare: (T, T) -> int, x: T, s: seq<T>)
    requires IsWeakOrder(compare) && IsOrdered(compare, s) && s != [] && compare(x, s[0]) < 0
    ensures forall z :: z in s ==> compare(x, z) < 0
  {
    forall z | z in s ensures compare(x, z) < 0 {
      var j :| 0 <= j < |s| && s[j] == z;
      assert j > 0 ==> compare(s[j], s[0]) >= 0;
    }
  }

  /** The sort is stable: elements that tie keep their order. */
  lemma {:induction false} SortByIsStable<T(!new)>(compare: (T, T) -> int, s: seq<T>, y: T)
    requires IsWeakOrder(compare)
    ensures Ties(compare, SortBy(compare, s), y) == Ties(compare, s, y)
  {
    hide IsWeakOrder, Ties;
    if s != [] {
      var rest, x := s[..|s| - 1], s[|s| - 1];
      SortByIsStable(compare, rest, y);
      SortByOrders(compare, rest);
      InsertByIsStable(compare, x, SortBy(compare, rest), y);
      TiesAppend(compare, SortBy(compare, rest), [x], y);
      TiesAppend(compare, rest, [x], y);
      assert rest + [x] == s;
    }
  }

  /** A comparator that orders the elements of s strictly and totally. */
  ghost predicate IsTotalOn<T(!new)>(compare: (T, T) -> int, s: seq<T>) {
    && (forall x, y :: x in s && y in s && x != y ==> compare(x, y) < 0 || compare(y, x) < 0)
    && (forall x, y, z :: x in s && y in s && z in s && compare(x, y) < 0 && compare(y, z) < 0 ==> compare(x, z) < 0)
  }

  /** The first element of the sorted sequence comes before every other element. */
  lemma {:induction false} HeadIsLeast<T(!new)>(compare: (T, T) -> int, s: seq<T>)
    requires s != [] && IsTotalOn(compare, s)
    ensures var head := SortBy(compare, s); head != [] && head[0] in s && forall y :: y in s && y != head[0] ==> compare(head[0], y) < 0
  {
    var rest, x := s[..|s| - 1], s[|s| - 1];
    assert s == rest + [x];
    if rest != [] {
      HeadIsLeast(compare, rest);
    }
  }
}
