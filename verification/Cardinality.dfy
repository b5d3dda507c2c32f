/** Sizes of finite sets of row numbers: ranges, images and the pigeonhole. */
module Cardinality {
  import opened Ordering

  /** The numbers from, from + 1, ..., from + count - 1. */
  ghost function Interval(from: nat, count: nat): (r: set<nat>)
    ensures forall x :: x in r <==> from <= x < from + count
    ensures |r| == count
  {
    if count == 0 then {} else Interval(from, count - 1) + {from + count - 1}
  }

  lemma SubsetCardinality<T>(a: set<T>, b: set<T>)
    requires a <= b
    ensures |a| <= |b|
    ensures |a| == |b| ==> a == b
  {
    assert b == a + (b - a);
    assert a !! (b - a);
  }

  ghost function Elements<T>(s: seq<T>): set<T> {
    set x | x in s
  }

  lemma {:induction false} DistinctCardinality<T>(s: seq<T>)
    requires Distinct(s)
    ensures |Elements(s)| == |s|
  {
    if s != [] {
      var last := |s| - 1;
      DistinctCardinality(s[..last]);
      assert s == s[..last] + [s[last]];
      assert Elements(s) == Elements(s[..last]) + {s[last]};
    }
  }

  lemma Pigeonhole(s: seq<nat>, n: nat)
    requires Distinct(s) && forall i :: 0 <= i < |s| ==> s[i] < n
    ensures |s| <= n
  {
    DistinctCardinality(s);
    SubsetCardinality(Elements(s), Interval(0, n));
  }

  /** Distinct values drawn from 1..n, n of them, are all of 1..n. */
  lemma OntoRange(s: seq<nat>)
    requires Distinct(s) && forall i :: 0 <= i < |s| ==> 1 <= s[i] <= |s|
    ensures forall x: nat :: 1 <= x <= |s| ==> x in s
  {
    DistinctCardinality(s);
    SubsetCardinality(Elements(s), Interval(1, |s|));
    forall x: nat | 1 <= x <= |s| ensures x in s {
      assert x in Elements(s);
    }
  }

  ghost function Image(a: set<nat>, f: seq<nat>): set<nat>
    requires forall x :: x in a ==> x < |f|
  {
    set x | x in a :: f[x]
  }

  lemma {:induction false} ImageCardinality(a: set<nat>, f: seq<nat>)
    requires Distinct(f) && forall x :: x in a ==> x < |f|
    ensures |Image(a, f)| == |a|
    decreases |a|
  {
    if a != {} {
      var x :| x in a;
      ImageCardinality(a - {x}, f);
      assert Image(a, f) == Image(a - {x}, f) + {f[x]} by {
        forall y | y in a ensures f[y] in Image(a - {x}, f) + {f[x]} {
          if y != x { assert y in a - {x}; }
        }
      }
    }
  }
}
