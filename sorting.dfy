/**
 `sort.Strings`: sorts a slice of strings in place into ascending byte-wise
 order. Also the canonical order of a set of keys, which is what the sorted
 slice of a map's keys always equals.
 */
module Sorting {
  import opened ByteStrings

  predicate Sorted(s: seq<Bytes>) {
    forall i, j :: 0 <= i < j < |s| ==> LessEq(s[i], s[j])
  }

  predicate StrictlySorted(s: seq<Bytes>) {
    forall i, j :: 0 <= i < j < |s| ==> Less(s[i], s[j])
  }

  predicate Distinct(s: seq<Bytes>) {
    forall i, j :: 0 <= i < j < |s| ==> s[i] != s[j]
  }

  /** `k` is the least element of `s`. */
  predicate IsMin(k: Bytes, s: set<Bytes>) {
    k in s && forall j :: j in s ==> LessEq(k, j)
  }

  /** Every non-empty finite set of strings has a least element. */
  lemma {:induction false} MinExists(s: set<Bytes>)
    requires s != {}
    ensures exists k :: IsMin(k, s)
    decreases |s|
  {
    var x :| x in s;
    LessIrreflexive(x);
    if s == {x} {
      assert IsMin(x, s);
    } else {
      MinExists(s - {x});
      var y :| IsMin(y, s - {x});
      if LessEq(y, x) {
        assert IsMin(y, s);
      } else {
        forall j | j in s - {x} ensures LessEq(x, j) {
          LessAsymmetric(x, y);
          LessEqTransitive(x, y, j);
        }
        assert IsMin(x, s);
      }
    }
  }

  /** The keys of a set in ascending order: the canonical order of the encoding. */
  ghost function SortedKeys(s: set<Bytes>): (r: seq<Bytes>)
    ensures StrictlySorted(r)
    ensures Elems(r) == s
    decreases |s|
  {
    if s == {} then []
    else
      MinExists(s);
      var k :| IsMin(k, s);
      var rest := SortedKeys(s - {k});
      forall j | 0 <= j < |rest| ensures Less(k, rest[j]) {
        assert rest[j] in Elems(rest);
        LessEqDistinct(k, rest[j]);
      }
      [k] + rest
  }

  /** A strictly sorted sequence is determined by its elements. */
  lemma {:induction false} StrictlySortedUnique(a: seq<Bytes>, b: seq<Bytes>)
    requires StrictlySorted(a) && StrictlySorted(b)
    requires Elems(a) == Elems(b)
    ensures a == b
    decreases |a|
  {
    if a != [] {
      assert a[0] in Elems(a);
    }
    if b != [] {
      assert b[0] in Elems(b);
    }
    if a != [] && b != [] {
      assert a[0] in Elems(b) && b[0] in Elems(a);
      if a[0] != b[0] {
        var i :| 0 <= i < |a| && a[i] == b[0];
        var j :| 0 <= j < |b| && b[j] == a[0];
        assert i > 0 && j > 0;
        assert Less(a[0], b[0]) && Less(b[0], a[0]);
        LessAsymmetric(a[0], b[0]);
      }
      forall x ensures x in Elems(a[1..]) <==> x in Elems(b[1..]) {
        if x in Elems(a[1..]) {
          var i :| 1 <= i < |a| && a[i] == x;
          LessIrreflexive(a[0]);
          assert x != a[0] && x in Elems(b);
        }
        if x in Elems(b[1..]) {
          var j :| 1 <= j < |b| && b[j] == x;
          LessIrreflexive(b[0]);
          assert x != b[0] && x in Elems(a);
        }
      }
      StrictlySortedUnique(a[1..], b[1..]);
      assert a == [a[0]] + a[1..] && b == [b[0]] + b[1..];
    }
  }

  /** A sequence without repetitions holds each element at most once. */
  lemma {:induction false} DistinctMultiplicity(q: seq<Bytes>, x: Bytes)
    requires Distinct(q)
    ensures multiset(q)[x] <= 1
    decreases |q|
  {
    if q != [] {
      assert q == [q[0]] + q[1..];
      DistinctMultiplicity(q[1..], x);
      if q[0] == x {
        assert x !in q[1..];
      }
    }
  }

  /** An element held at two positions occurs twice in the multiset. */
  lemma TwiceInMultiset(p: seq<Bytes>, i: int, j: int)
    requires 0 <= i < j < |p| && p[i] == p[j]
    ensures multiset(p)[p[i]] >= 2
  {
    assert p == p[..i] + [p[i]] + p[i + 1..j] + [p[j]] + p[j + 1..];
  }

  /**
   Sorting a slice of distinct keys yields the canonical order of its key set:
   the sorted permutation is strictly sorted and has the same elements.
   */
  lemma SortedPermutationIsCanonical(p: seq<Bytes>, q: seq<Bytes>)
    requires Sorted(p) && multiset(p) == multiset(q) && Distinct(q)
    ensures p == SortedKeys(Elems(q))
  {
    forall i, j | 0 <= i < j < |p| ensures Less(p[i], p[j]) {
      if p[i] == p[j] {
        TwiceInMultiset(p, i, j);
        DistinctMultiplicity(q, p[i]);
      }
      LessEqDistinct(p[i], p[j]);
    }
    forall x ensures x in Elems(p) <==> x in Elems(q) {
      assert x in p <==> x in multiset(p);
      assert x in q <==> x in multiset(q);
    }
    StrictlySortedUnique(p, SortedKeys(Elems(q)));
  }

  /**
   `sort.Strings(a)`, modelled by an insertion sort by adjacent swaps. Only
   its result, a sorted permutation, is relied on; for distinct keys that
   result is unique.
   */
  method SortStrings(a: array<Bytes>)
    modifies a
    ensures Sorted(a[..])
    ensures multiset(a[..]) == old(multiset(a[..]))
  {
    if a.Length == 0 {
      return;
    }
    var i := 1;
    while i < a.Length
      invariant 1 <= i <= a.Length
      invariant forall k, l :: 0 <= k < l < i ==> LessEq(a[k], a[l])
      invariant multiset(a[..]) == old(multiset(a[..]))
    {
      var j := i;
      while j > 0 && Less(a[j], a[j - 1])
        invariant 0 <= j <= i
        invariant forall k, l :: 0 <= k < l <= i && l != j ==> LessEq(a[k], a[l])
        invariant multiset(a[..]) == old(multiset(a[..]))
      {
        LessAsymmetric(a[j], a[j - 1]);
        a[j - 1], a[j] := a[j], a[j - 1];
        j := j - 1;
      }
      forall k | 0 <= k < j ensures LessEq(a[k], a[j]) {
        if k < j - 1 {
          LessEqTransitive(a[k], a[j - 1], a[j]);
        }
      }
      i := i + 1;
    }
  }
}
