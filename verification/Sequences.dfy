/**
 Sequence operations shared by the scheduler's lists and its protocol model.
 */
module Sequences {

  datatype Option<+T> = None | Some(value: T)

  ghost predicate Distinct<T>(s: seq<T>) {
    forall i, j :: 0 <= i < j < |s| ==> s[i] != s[j]
  }

  /** The index of the first occurrence of `x`, or `|s|` when there is none. */
  function IndexOf<T(==)>(s: seq<T>, x: T): (i: nat)
    ensures i <= |s|
    ensures i < |s| ==> s[i] == x
    ensures x !in s[..i]
    ensures i == |s| <==> x !in s
  {
    if s == [] then 0 else if s[0] == x then 0 else
      var r := IndexOf(s[1..], x);
      assert s[..r + 1] == [s[0]] + s[1..][..r];
      r + 1
  }

  /** Drops the first occurrence of `x`, if there is one. */
  function RemoveFirst<T(==)>(s: seq<T>, x: T): (r: seq<T>)
    ensures |r| == if x in s then |s| - 1 else |s|
  {
    var i := IndexOf(s, x);
    if i == |s| then s else s[..i] + s[i + 1..]
  }

  lemma RemoveFirstMembers<T>(s: seq<T>, x: T)
    ensures forall y :: y in RemoveFirst(s, x) ==> y in s
    ensures forall y :: y in s && y != x ==> y in RemoveFirst(s, x)
  {
    var i := IndexOf(s, x);
    if i < |s| {
      assert s == s[..i] + [x] + s[i + 1..];
    }
  }

  lemma RemoveFirstDistinct<T(!new)>(s: seq<T>, x: T)
    requires Distinct(s)
    ensures Distinct(RemoveFirst(s, x))
    ensures forall y :: y in RemoveFirst(s, x) <==> y in s && y != x
  {
    RemoveFirstMembers(s, x);
    var i := IndexOf(s, x);
    if i < |s| {
      assert x !in s[i + 1..];
    }
  }

  /** What follows the first occurrence of `x`, if anything does. */
  function Successor<T(==)>(s: seq<T>, x: T): (r: Option<T>) {
    var i := IndexOf(s, x);
    if i + 1 < |s| then Some(s[i + 1]) else None
  }

  lemma {:induction false} IndexOfIs<T>(s: seq<T>, x: T, i: nat)
    requires i < |s| && s[i] == x && x !in s[..i]
    ensures IndexOf(s, x) == i
  {
    if i > 0 {
      assert s[0] in s[..i] && s[..i] == [s[0]] + s[1..][..i - 1];
      IndexOfIs(s[1..], x, i - 1);
    }
  }

  lemma RemoveAt<T>(before: seq<T>, x: T, after: seq<T>)
    requires x !in before
    ensures IndexOf(before + [x] + after, x) == |before|
    ensures RemoveFirst(before + [x] + after, x) == before + after
  {
    assert (before + [x] + after)[..|before|] == before;
    IndexOfIs(before + [x] + after, x, |before|);
  }

  lemma RemoveHead<T>(x: T, rest: seq<T>)
    ensures RemoveFirst([x] + rest, x) == rest
  {
    RemoveAt([], x, rest);
    assert [] + [x] + rest == [x] + rest;
  }

  /** A sequence of distinct numbers below `n` is no longer than `n`. */
  lemma {:induction false} Pigeonhole(s: seq<nat>, n: nat)
    requires Distinct(s)
    requires forall i :: 0 <= i < |s| ==> s[i] < n
    ensures |s| <= n
  {
    if n == 0 {
      assert |s| == 0;
    } else {
      var k := IndexOf(s, n - 1);
      if k == |s| {
        forall i | 0 <= i < |s| ensures s[i] < n - 1 { assert s[i] in s; }
        Pigeonhole(s, n - 1);
      } else {
        Pigeonhole(s[..k] + s[k + 1..], n - 1);
      }
    }
  }
}
