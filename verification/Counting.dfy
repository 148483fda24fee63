/** Cardinality facts used by several proofs. */
module Counting {

  function Range(lo: nat, hi: nat): (r: set<nat>)
    ensures forall x :: x in r <==> lo <= x < hi
  {
    if lo >= hi then {} else Range(lo, hi - 1) + {hi - 1}
  }

  lemma CardSubset<T>(a: set<T>, b: set<T>)
    requires a <= b
    ensures |a| <= |b|
  {
    assert b == a + (b - a);
  }

  lemma {:induction false} RangeCard(lo: nat, hi: nat)
    requires lo <= hi
    ensures |Range(lo, hi)| == hi - lo
  {
    if lo == hi {
      assert Range(lo, hi) == {};
    } else {
      RangeCard(lo, hi - 1);
      assert Range(lo, hi) == Range(lo, hi - 1) + {hi - 1};
    }
  }

  function Members(s: seq<nat>): set<nat> {
    set x | x in s
  }

  ghost predicate Distinct<T(!new)>(s: seq<T>) {
    forall i, j :: 0 <= i < j < |s| ==> s[i] != s[j]
  }

  ghost predicate Increasing(s: seq<nat>) {
    forall i, j :: 0 <= i < j < |s| ==> s[i] < s[j]
  }

  lemma {:induction false} MembersCard(s: seq<nat>)
    requires Distinct(s)
    ensures |Members(s)| == |s|
  {
    if s == [] {
      assert Members(s) == {};
    } else {
      var t, x := s[..|s| - 1], s[|s| - 1];
      MembersCard(t);
      assert s == t + [x];
      assert Members(s) == Members(t) + {x};
    }
  }

  /** Distinct values between two bounds are no more than the bounds are apart. */
  lemma Pigeonhole(s: seq<nat>, lo: nat, hi: nat)
    requires Distinct(s) && lo <= hi && forall i :: 0 <= i < |s| ==> lo <= s[i] < hi
    ensures |s| <= hi - lo
  {
    MembersCard(s);
    RangeCard(lo, hi);
    assert Members(s) <= Range(lo, hi);
    CardSubset(Members(s), Range(lo, hi));
  }

  /** A map whose keys are 0 .. n - 1 has n entries. */
  lemma PrefixKeys<V>(m: map<nat, V>, n: nat)
    requires forall v: nat :: v in m <==> v < n
    ensures |m| == n
  {
    assert m.Keys == Range(0, n);
    RangeCard(0, n);
    assert |m| == |m.Keys|;
  }

  /** The elements of a set in some order. */
  method Enumerate(x: set<nat>) returns (r: seq<nat>)
    ensures Distinct(r) && Members(r) == x && |r| == |x|
  {
    r := [];
    var left := x;
    while left != {}
      invariant Distinct(r) && left <= x && Members(r) == x - left
    {
      var y :| y in left;
      assert Members(r + [y]) == Members(r) + {y};
      assert y !in Members(r);
      r, left := r + [y], left - {y};
    }
    MembersCard(r);
  }
}
