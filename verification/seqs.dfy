/** Sequence facts shared by the tokenizer, the vocabulary and the ranking. */
module Seqs {

  /** No element occurs twice. */
  ghost predicate Distinct<T>(s: seq<T>) {
    forall i, j :: 0 <= i < j < |s| ==> s[i] != s[j]
  }

  function ToSet<T>(s: seq<T>): set<T> {
    set x | x in s
  }

  /** The distinct elements of `s`, each at the place where it is first seen. */
  function FirstSeen<T(==,!new)>(s: seq<T>): (r: seq<T>)
    ensures Distinct(r)
    ensures forall x :: x in r <==> x in s
  {
    if s == [] then []
    else
      var prefix := FirstSeen(s[..|s| - 1]);
      assert s == s[..|s| - 1] + [s[|s| - 1]];
      if s[|s| - 1] in prefix then prefix else prefix + [s[|s| - 1]]
  }

  /** The position of the first occurrence of `x` in `s`. */
  function FirstIndex<T(==)>(s: seq<T>, x: T): (i: nat)
    requires x in s
    ensures i < |s| && s[i] == x
    ensures forall k :: 0 <= k < i ==> s[k] != x
  {
    if s[0] == x then 0 else 1 + FirstIndex(s[1..], x)
  }

  lemma {:induction false} FirstIndexOfPrefix<T>(p: seq<T>, q: seq<T>, x: T)
    requires x in p
    ensures FirstIndex(p + q, x) == FirstIndex(p, x)
  {
    var i := FirstIndex(p, x);
    var k := FirstIndex(p + q, x);
    assert (p + q)[i] == x;
    assert k <= i;
    assert p[k] == x;
  }

  /** FirstSeen lists elements in the order of their first occurrences. */
  lemma {:induction false} FirstSeenOrder<T(!new)>(s: seq<T>, i: nat, j: nat)
    requires i < j < |FirstSeen(s)|
    ensures FirstSeen(s)[i] in s && FirstSeen(s)[j] in s
    ensures FirstIndex(s, FirstSeen(s)[i]) < FirstIndex(s, FirstSeen(s)[j])
  {
    var p := s[..|s| - 1];
    var x := s[|s| - 1];
    assert s == p + [x];
    var r := FirstSeen(s);
    var rp := FirstSeen(p);
    if j < |rp| {
      assert r[i] == rp[i] && r[j] == rp[j];
      FirstSeenOrder(p, i, j);
      FirstIndexOfPrefix(p, [x], rp[i]);
      FirstIndexOfPrefix(p, [x], rp[j]);
    } else {
      assert r == rp + [x] && r[j] == x && x !in rp;
      assert r[i] == rp[i] && rp[i] in p;
      FirstIndexOfPrefix(p, [x], rp[i]);
      var k := FirstIndex(s, x);
      assert k == |p|;
    }
  }

  /** A sequence without repetition has as many elements as its set. */
  lemma {:induction false} DistinctCardinality<T>(s: seq<T>)
    requires Distinct(s)
    ensures |ToSet(s)| == |s|
  {
    if s != [] {
      var p := s[..|s| - 1];
      var x := s[|s| - 1];
      assert s == p + [x];
      assert Distinct(p);
      DistinctCardinality(p);
      assert ToSet(s) == ToSet(p) + {x};
      assert x !in ToSet(p);
    }
  }

  /** All strings of `ss` joined end to end. */
  function Concat(ss: seq<string>): string {
    if ss == [] then [] else ss[0] + Concat(ss[1..])
  }

  /** The elements of `s` that satisfy `keep`, in order. */
  function Filter<T(!new)>(keep: T -> bool, s: seq<T>): (r: seq<T>)
    ensures |r| <= |s|
    ensures forall x :: x in r <==> x in s && keep(x)
  {
    if s == [] then []
    else if keep(s[0]) then [s[0]] + Filter(keep, s[1..])
    else Filter(keep, s[1..])
  }

  /** Filtering keeps every occurrence of a kept element. */
  lemma {:induction false} FilterCount<T(!new)>(keep: T -> bool, s: seq<T>)
    ensures forall x :: keep(x) ==> multiset(Filter(keep, s))[x] == multiset(s)[x]
  {
    if s != [] {
      FilterCount(keep, s[1..]);
      assert s == [s[0]] + s[1..];
    }
  }

}
