/** Result values and the few sequence functions the models share. */
module Sequences {

  datatype Option<+T> = None | Some(value: T)

  datatype Result<+T, +E> = Success(value: T) | Failure(error: E)

  /** A path, as its segments. */
  type Path = seq<string>

  /** Map.get with a default for a missing key. */
  function Lookup<K(==), V>(m: map<K, V>, key: K, default: V): V {
    if key in m then m[key] else default
  }

  function Filter<T>(keep: T -> bool, s: seq<T>): seq<T> {
    if s == [] then []
    else Filter(keep, s[..|s| - 1]) + if keep(s[|s| - 1]) then [s[|s| - 1]] else []
  }

  function Map<T, U>(f: T -> U, s: seq<T>): (r: seq<U>)
    ensures |r| == |s|
    ensures forall i :: 0 <= i < |s| ==> r[i] == f(s[i])
  {
    seq(|s|, i requires 0 <= i < |s| => f(s[i]))
  }

  function Front<T>(s: seq<T>): seq<T>
    requires s != []
  {
    s[..|s| - 1]
  }

  function Last<T>(s: seq<T>): T
    requires s != []
  {
    s[|s| - 1]
  }

  function Flatten<T>(s: seq<seq<T>>): seq<T> {
    if s == [] then [] else s[0] + Flatten(s[1..])
  }

  lemma {:induction false} FilterCount<T>(keep: T -> bool, s: seq<T>, x: T)
    ensures multiset(Filter(keep, s))[x] == if keep(x) then multiset(s)[x] else 0
  {
    if s != [] {
      assert s == s[..|s| - 1] + [s[|s| - 1]];
      FilterCount(keep, s[..|s| - 1], x);
    }
  }

  lemma {:induction false} FlattenAppend<T>(s: seq<seq<T>>, t: seq<seq<T>>)
    ensures Flatten(s + t) == Flatten(s) + Flatten(t)
  {
    if s == [] {
      assert s + t == t;
    } else {
      assert (s + t)[1..] == s[1..] + t;
      FlattenAppend(s[1..], t);
    }
  }

  lemma {:induction false} FlattenUpdate<T>(s: seq<seq<T>>, i: nat, more: seq<T>)
    requires i < |s|
    ensures multiset(Flatten(s[i := s[i] + more])) == multiset(Flatten(s)) + multiset(more)
  {
    if i == 0 {
      assert s[0 := s[0] + more][1..] == s[1..];
    } else {
      assert s[i := s[i] + more][1..] == s[1..][i - 1 := s[1..][i - 1] + more];
      FlattenUpdate(s[1..], i - 1, more);
    }
  }

  lemma {:induction false} FlattenMember<T>(s: seq<seq<T>>, i: nat, x: T)
    requires i < |s| && x in s[i]
    ensures multiset(Flatten(s))[x] >= multiset(s[i])[x] >= 1
  {
    assert x in multiset(s[i]);
    if i > 0 {
      FlattenMember(s[1..], i - 1, x);
    }
  }

  /** Two different blocks contribute separately to the count of an element. */
  lemma {:induction false} FlattenTwoMembers<T>(s: seq<seq<T>>, i: nat, j: nat, x: T)
    requires i < j < |s| && x in s[i] && x in s[j]
    ensures multiset(Flatten(s))[x] >= 2
  {
    if i == 0 {
      assert x in multiset(s[0]);
      FlattenMember(s[1..], j - 1, x);
    } else {
      FlattenTwoMembers(s[1..], i - 1, j - 1, x);
    }
  }

  lemma {:induction false} FlattenFind<T>(s: seq<seq<T>>, x: T) returns (i: nat)
    requires x in Flatten(s)
    ensures i < |s| && x in s[i]
  {
    if x in s[0] {
      i := 0;
    } else {
      i := FlattenFind(s[1..], x);
      i := i + 1;
    }
  }
}
