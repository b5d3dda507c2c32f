/** R's stable `order`/`sort` and its `findInterval`, as verified functions,
    together with the counting facts that let a sorted search stand for a count
    over the unsorted rows. */
module Ordering {

  ghost predicate TotalPreorder<T(!new)>(le: (T, T) -> bool) {
    && (forall a, b :: le(a, b) || le(b, a))
    && (forall a, b, c :: le(a, b) && le(b, c) ==> le(a, c))
  }

  /** No two different values tie. */
  ghost predicate Strict<T(!new)>(le: (T, T) -> bool) {
    forall a, b :: le(a, b) && le(b, a) ==> a == b
  }

  ghost predicate SortedBy<T>(s: seq<T>, le: (T, T) -> bool) {
    forall i, j :: 0 <= i < j < |s| ==> le(s[i], s[j])
  }

  ghost predicate Distinct<T>(s: seq<T>) {
    forall i, j :: 0 <= i < j < |s| ==> s[i] != s[j]
  }

  function Insert<T>(x: T, s: seq<T>, le: (T, T) -> bool): seq<T> {
    if s == [] || le(x, s[0]) then [x] + s else [s[0]] + Insert(x, s[1..], le)
  }

  /** The stable sort: equal elements keep their order of appearance. */
  function Sort<T>(s: seq<T>, le: (T, T) -> bool): seq<T> {
    if s == [] then [] else Insert(s[0], Sort(s[1..], le), le)
  }

  lemma {:induction false} InsertMultiset<T>(x: T, s: seq<T>, le: (T, T) -> bool)
    ensures multiset(Insert(x, s, le)) == multiset{x} + multiset(s)
  {
    if s != [] && !le(x, s[0]) {
      InsertMultiset(x, s[1..], le);
      assert s == [s[0]] + s[1..];
    }
  }

  lemma {:induction false} SortMultiset<T>(s: seq<T>, le: (T, T) -> bool)
    ensures multiset(Sort(s, le)) == multiset(s)
    ensures |Sort(s, le)| == |s|
  {
    if s != [] {
      SortMultiset(s[1..], le);
      InsertMultiset(s[0], Sort(s[1..], le), le);
      assert s == [s[0]] + s[1..];
    }
    assert |multiset(Sort(s, le))| == |multiset(s)|;
  }

  lemma {:induction false} InsertSorted<T(!new)>(x: T, s: seq<T>, le: (T, T) -> bool)
    requires TotalPreorder(le) && SortedBy(s, le)
    ensures SortedBy(Insert(x, s, le), le)
  {
    if s == [] || le(x, s[0]) {
    } else {
      InsertSorted(x, s[1..], le);
      var rest := Insert(x, s[1..], le);
      InsertMultiset(x, s[1..], le);
      forall j | 0 <= j < |rest| ensures le(s[0], rest[j]) {
        assert rest[j] in multiset(rest);
        assert rest[j] == x || rest[j] in s[1..];
      }
    }
  }

  lemma {:induction false} SortSorted<T(!new)>(s: seq<T>, le: (T, T) -> bool)
    requires TotalPreorder(le)
    ensures SortedBy(Sort(s, le), le)
  {
    if s != [] {
      SortSorted(s[1..], le);
      InsertSorted(s[0], Sort(s[1..], le), le);
    }
  }

  lemma SortMembers<T(!new)>(s: seq<T>, le: (T, T) -> bool)
    ensures forall x :: x in Sort(s, le) <==> x in s
  {
    SortMultiset(s, le);
    forall x ensures x in Sort(s, le) <==> x in s {
      assert x in multiset(Sort(s, le)) <==> x in multiset(s);
    }
  }

  function Filter<T>(s: seq<T>, p: T -> bool): (r: seq<T>) {
    if s == [] then []
    else if p(s[0]) then [s[0]] + Filter(s[1..], p)
    else Filter(s[1..], p)
  }

  lemma {:induction false} FilterMembers<T(!new)>(s: seq<T>, p: T -> bool)
    ensures forall x :: x in Filter(s, p) <==> x in s && p(x)
  {
    if s != [] {
      FilterMembers(s[1..], p);
      assert s == [s[0]] + s[1..];
    }
  }

  lemma {:induction false} FilterAppend<T(!new)>(x: T, s: seq<T>, p: T -> bool)
    ensures Filter([x] + s, p) == (if p(x) then [x] else []) + Filter(s, p)
  {
    assert ([x] + s)[1..] == s;
  }

  lemma InsertBeforeAll<T(!new)>(x: T, s: seq<T>, le: (T, T) -> bool, f: seq<T>)
    requires TotalPreorder(le) && SortedBy(s, le)
    requires s != [] && le(x, s[0])
    requires forall y :: y in f ==> y in s
    ensures Insert(x, f, le) == [x] + f
  {
    if f != [] {
      assert f[0] in s;
      var j :| 0 <= j < |s| && s[j] == f[0];
      assert j == 0 || le(s[0], s[j]);
    }
  }

  lemma {:induction false} InsertFilter<T(!new)>(x: T, s: seq<T>, le: (T, T) -> bool, p: T -> bool)
    requires TotalPreorder(le) && SortedBy(s, le)
    ensures Filter(Insert(x, s, le), p)
         == if p(x) then Insert(x, Filter(s, p), le) else Filter(s, p)
  {
    if s == [] {
      FilterAppend(x, s, p);
    } else if le(x, s[0]) {
      FilterAppend(x, s, p);
      FilterMembers(s, p);
      InsertBeforeAll(x, s, le, Filter(s, p));
    } else {
      var rest := s[1..];
      InsertFilter(x, rest, le, p);
      FilterAppend(s[0], Insert(x, rest, le), p);
      if p(s[0]) {
        assert ([s[0]] + Filter(rest, p))[1..] == Filter(rest, p);
      }
    }
  }

  /** A stable sort commutes with keeping a subset of the rows. */
  lemma {:induction false} SortFilter<T(!new)>(s: seq<T>, le: (T, T) -> bool, p: T -> bool)
    requires TotalPreorder(le)
    ensures Filter(Sort(s, le), p) == Sort(Filter(s, p), le)
  {
    if s != [] {
      SortFilter(s[1..], le, p);
      SortSorted(s[1..], le);
      InsertFilter(s[0], Sort(s[1..], le), le, p);
      if p(s[0]) {
        assert ([s[0]] + Filter(s[1..], p))[1..] == Filter(s[1..], p);
      }
    }
  }

  /** `findInterval`: how many leading keys satisfy "at most", by binary search. */
  function FindInterval<T>(keys: seq<T>, atMost: T -> bool): (k: nat)
    requires forall i, j :: 0 <= i < j < |keys| && atMost(keys[j]) ==> atMost(keys[i])
    ensures k <= |keys|
    ensures forall i :: 0 <= i < k ==> atMost(keys[i])
    ensures forall i :: k <= i < |keys| ==> !atMost(keys[i])
  {
    Bisect(keys, atMost, 0, |keys|)
  }

  function Bisect<T>(keys: seq<T>, atMost: T -> bool, low: nat, high: nat): (k: nat)
    requires low <= high <= |keys|
    requires forall i, j :: 0 <= i < j < |keys| && atMost(keys[j]) ==> atMost(keys[i])
    requires forall i :: 0 <= i < low ==> atMost(keys[i])
    requires forall i :: high <= i < |keys| ==> !atMost(keys[i])
    ensures k <= |keys|
    ensures forall i :: 0 <= i < k ==> atMost(keys[i])
    ensures forall i :: k <= i < |keys| ==> !atMost(keys[i])
    decreases high - low
  {
    if low == high then low
    else
      var middle := low + (high - low) / 2;
      if atMost(keys[middle]) then Bisect(keys, atMost, middle + 1, high)
      else Bisect(keys, atMost, low, middle)
  }

  // ---- counting --------------------------------------------------------

  /** How many elements satisfy `p`. */
  ghost function Count<T>(s: seq<T>, p: T -> bool): (n: nat)
    ensures n <= |s|
  {
    if s == [] then 0 else (if p(s[0]) then 1 else 0) + Count(s[1..], p)
  }

  lemma {:induction false} CountSnoc<T>(s: seq<T>, x: T, p: T -> bool)
    ensures Count(s + [x], p) == Count(s, p) + if p(x) then 1 else 0
  {
    if s == [] {
      assert s + [x] == [x];
    } else {
      CountSnoc(s[1..], x, p);
      assert (s + [x])[1..] == s[1..] + [x];
    }
  }

  lemma {:induction false} CountInsert<T>(x: T, s: seq<T>, le: (T, T) -> bool, p: T -> bool)
    ensures Count(Insert(x, s, le), p) == (if p(x) then 1 else 0) + Count(s, p)
  {
    if s == [] || le(x, s[0]) {
      assert ([x] + s)[1..] == s;
    } else {
      CountInsert(x, s[1..], le, p);
      assert ([s[0]] + Insert(x, s[1..], le))[1..] == Insert(x, s[1..], le);
    }
  }

  lemma {:induction false} CountSort<T>(s: seq<T>, le: (T, T) -> bool, p: T -> bool)
    ensures Count(Sort(s, le), p) == Count(s, p)
  {
    if s != [] {
      CountSort(s[1..], le, p);
      CountInsert(s[0], Sort(s[1..], le), le, p);
    }
  }

  lemma {:induction false} CountPrefix<T>(s: seq<T>, p: T -> bool, k: nat)
    requires k <= |s|
    requires forall i :: 0 <= i < k ==> p(s[i])
    requires forall i :: k <= i < |s| ==> !p(s[i])
    ensures Count(s, p) == k
  {
    if s != [] {
      CountPrefix(s[1..], p, if k > 0 then k - 1 else 0);
    }
  }

  lemma {:induction false} CountMonotone<T>(s: seq<T>, p: T -> bool, q: T -> bool)
    requires forall i :: 0 <= i < |s| && p(s[i]) ==> q(s[i])
    ensures Count(s, p) <= Count(s, q)
  {
    if s != [] { CountMonotone(s[1..], p, q); }
  }

  /** A weaker bound finds at least as many keys. */
  lemma FindIntervalMonotone<T>(keys: seq<T>, p: T -> bool, q: T -> bool)
    requires forall i, j :: 0 <= i < j < |keys| && p(keys[j]) ==> p(keys[i])
    requires forall i, j :: 0 <= i < j < |keys| && q(keys[j]) ==> q(keys[i])
    requires forall i :: 0 <= i < |keys| && p(keys[i]) ==> q(keys[i])
    ensures FindInterval(keys, p) <= FindInterval(keys, q)
  {
    CountMonotone(keys, p, q);
    CountPrefix(keys, p, FindInterval(keys, p));
    CountPrefix(keys, q, FindInterval(keys, q));
  }

  /** The rows whose key satisfies `p`, as a set of row numbers. */
  ghost function Hits<T>(s: seq<T>, p: T -> bool): set<nat> {
    set j: nat | j < |s| && p(s[j])
  }

  lemma {:induction false} CountIsCardinality<T>(s: seq<T>, p: T -> bool)
    ensures Count(s, p) == |Hits(s, p)|
    decreases |s|
  {
    if s == [] {
      assert Hits(s, p) == {};
    } else {
      var rest := s[1..];
      CountIsCardinality(rest, p);
      var shifted := set j: nat | j in Hits(rest, p) :: j + 1;
      ShiftCardinality(Hits(rest, p));
      assert shifted == Shift(Hits(rest, p));
      if p(s[0]) {
        assert Hits(s, p) == {0} + shifted by {
          forall j: nat | j in Hits(s, p) ensures j in {0} + shifted {
            if j > 0 { assert rest[j - 1] == s[j]; assert j - 1 in Hits(rest, p); }
          }
        }
      } else {
        assert Hits(s, p) == shifted by {
          forall j: nat | j in Hits(s, p) ensures j in shifted {
            assert rest[j - 1] == s[j]; assert j - 1 in Hits(rest, p);
          }
        }
      }
    }
  }

  ghost function Shift(a: set<nat>): set<nat> { set j: nat | j in a :: j + 1 }

  lemma {:induction false} ShiftCardinality(a: set<nat>)
    ensures |Shift(a)| == |a|
    decreases |a|
  {
    if a != {} {
      var x :| x in a;
      ShiftCardinality(a - {x});
      assert Shift(a) == Shift(a - {x}) + {x + 1} by {
        forall y: nat | y in Shift(a) ensures y in Shift(a - {x}) + {x + 1} {
          if y != x + 1 { assert y - 1 in a - {x}; }
        }
      }
    }
  }

  /** `findInterval` over the sorted keys counts the qualifying unsorted rows. */
  lemma FindIntervalCounts<T(!new)>(s: seq<T>, le: (T, T) -> bool, atMost: T -> bool)
    requires TotalPreorder(le)
    requires forall a, b :: le(a, b) && atMost(b) ==> atMost(a)
    ensures SortedBy(Sort(s, le), le)
    ensures FindInterval(Sort(s, le), atMost) == |Hits(s, atMost)|
  {
    SortSorted(s, le);
    var keys := Sort(s, le);
    CountPrefix(keys, atMost, FindInterval(keys, atMost));
    CountSort(s, le, atMost);
    CountIsCardinality(s, atMost);
  }

  // ---- ranks -------------------------------------------------------------

  /** `unique`: first appearances, in order. */
  function Unique<T(==)>(s: seq<T>): (r: seq<T>)
    ensures Distinct(r)
    ensures forall i :: 0 <= i < |s| ==> s[i] in r
    ensures forall i :: 0 <= i < |r| ==> r[i] in s
  {
    if s == [] then []
    else
      var front, last := s[..|s| - 1], s[|s| - 1];
      var rest := Unique(front);
      assert s == front + [last];
      if last in rest then rest else rest + [last]
  }

  /** `match(x, s)`, zero-based, for a value that is present. */
  function Position<T(==)>(s: seq<T>, x: T): (k: nat)
    requires x in s
    ensures k < |s| && s[k] == x
  {
    if s[0] == x then 0 else Position(s[1..], x) + 1
  }

  lemma SortDistinct<T>(s: seq<T>, le: (T, T) -> bool)
    requires Distinct(s)
    ensures Distinct(Sort(s, le))
  {
    SortMultiset(s, le);
    DistinctOnce(s);
    OnceDistinct(Sort(s, le));
  }

  lemma {:induction false} DistinctOnce<T>(s: seq<T>)
    requires Distinct(s)
    ensures forall i :: 0 <= i < |s| ==> multiset(s)[s[i]] == 1
  {
    if s != [] {
      var front, last := s[..|s| - 1], s[|s| - 1];
      DistinctOnce(front);
      assert s == front + [last];
      assert last !in front;
      assert multiset(s)[last] == 1;
      forall i | 0 <= i < |s| ensures multiset(s)[s[i]] == 1 {
        if i < |front| { assert front[i] == s[i]; }
      }
    }
  }

  lemma OnceDistinct<T>(s: seq<T>)
    requires forall x :: x in s ==> multiset(s)[x] == 1
    ensures Distinct(s)
  {
    forall i, j | 0 <= i < j < |s| ensures s[i] != s[j] {
      var low, high := s[..j], s[j..];
      assert s == low + high;
      assert low[i] == s[i] && high[0] == s[j];
      assert multiset(low)[s[i]] >= 1 && multiset(high)[s[j]] >= 1;
      assert multiset(s)[s[j]] == multiset(low)[s[j]] + multiset(high)[s[j]];
    }
  }

  predicate IntLe(a: int, b: int) { a <= b }

  lemma IntOrder()
    ensures TotalPreorder(IntLe) && Strict(IntLe)
  {
  }

  ghost predicate Ascending(s: seq<int>) { forall i, j :: 0 <= i < j < |s| ==> s[i] < s[j] }

  /** `sort(unique(s))`. */
  function SortUnique(s: seq<int>): (r: seq<int>)
    ensures Ascending(r) && forall x :: x in r <==> x in s
  {
    var u := Unique(s);
    SortSorted(u, IntLe);
    SortDistinct(u, IntLe);
    SortMembers(u, IntLe);
    Sort(u, IntLe)
  }

  /** In a sorted sequence without ties, positions compare like values. */
  lemma PositionOrder<T(!new)>(s: seq<T>, le: (T, T) -> bool, x: T, y: T)
    requires SortedBy(s, le) && Distinct(s) && Strict(le) && TotalPreorder(le) && x in s && y in s
    ensures Position(s, x) <= Position(s, y) <==> le(x, y)
  {
    assert x == y ==> le(x, y);
  }

  // ---- assignment ----------------------------------------------------------

  /** `base[places] <- values`, at distinct places. */
  method AssignAt<T>(base: seq<T>, places: seq<nat>, values: seq<T>) returns (out: seq<T>)
    requires |places| == |values| && Distinct(places) && forall k :: 0 <= k < |places| ==> places[k] < |base|
    ensures |out| == |base|
    ensures forall v: nat :: v < |base| && v !in places ==> out[v] == base[v]
    ensures forall k: nat :: k < |places| ==> out[places[k]] == values[k]
  {
    out := base;
    for k := 0 to |places|
      invariant |out| == |base|
      invariant forall v: nat :: v < |base| && v !in places ==> out[v] == base[v]
      invariant forall j: nat :: j < k ==> out[places[j]] == values[j]
    {
      assert places[k] in places;
      out := out[places[k] := values[k]];
    }
  }

  // ---- filtering -----------------------------------------------------------

  function Range(n: nat): (r: seq<nat>)
    ensures |r| == n && forall i :: 0 <= i < n ==> r[i] == i
  {
    seq(n, i requires 0 <= i < n => i)
  }

  lemma {:induction false} FilterConcat<T(!new)>(a: seq<T>, b: seq<T>, p: T -> bool)
    ensures Filter(a + b, p) == Filter(a, p) + Filter(b, p)
  {
    if a == [] {
      assert a + b == b;
    } else {
      FilterConcat(a[1..], b, p);
      assert (a + b)[1..] == a[1..] + b;
    }
  }

  lemma {:induction false} FilterNone<T(!new)>(s: seq<T>, p: T -> bool)
    requires forall i :: 0 <= i < |s| ==> !p(s[i])
    ensures Filter(s, p) == []
  {
    if s != [] { FilterNone(s[1..], p); }
  }

  lemma {:induction false} FilterAll<T(!new)>(s: seq<T>, p: T -> bool)
    requires forall i :: 0 <= i < |s| ==> p(s[i])
    ensures Filter(s, p) == s
  {
    if s != [] { FilterAll(s[1..], p); }
  }

  lemma {:induction false} FilterTwice<T(!new)>(s: seq<T>, q: T -> bool, p: T -> bool)
    requires forall x :: p(x) ==> q(x)
    ensures Filter(Filter(s, q), p) == Filter(s, p)
  {
    if s != [] { FilterTwice(s[1..], q, p); }
  }

  lemma {:induction false} FilterSwap<T(!new)>(s: seq<T>, q: T -> bool, p: T -> bool)
    ensures Filter(Filter(s, q), p) == Filter(Filter(s, p), q)
  {
    if s != [] {
      FilterSwap(s[1..], q, p);
      if q(s[0]) { FilterAppend(s[0], Filter(s[1..], q), p); }
      if p(s[0]) { FilterAppend(s[0], Filter(s[1..], p), q); }
    }
  }

  lemma {:induction false} FilterDistinct<T(!new)>(s: seq<T>, p: T -> bool)
    requires Distinct(s)
    ensures Distinct(Filter(s, p))
  {
    if s != [] {
      FilterDistinct(s[1..], p);
      FilterMembers(s[1..], p);
      forall x | x in Filter(s[1..], p) ensures x != s[0] { assert x in s[1..]; }
    }
  }

  /** What is kept stays in order. */
  lemma {:induction false} FilterKeepsOrder<T(!new)>(s: seq<T>, p: T -> bool, j: nat, k: nat) returns (x: nat, y: nat)
    requires j < k < |s| && p(s[j]) && p(s[k])
    ensures x < y < |Filter(s, p)| && Filter(s, p)[x] == s[j] && Filter(s, p)[y] == s[k]
  {
    if j == 0 {
      FilterMembers(s[1..], p);
      assert s[1..][k - 1] in s[1..];
      var z: nat :| z < |Filter(s[1..], p)| && Filter(s[1..], p)[z] == s[k];
      x, y := 0, z + 1;
    } else {
      x, y := FilterKeepsOrder(s[1..], p, j - 1, k - 1);
      if p(s[0]) { x, y := x + 1, y + 1; }
    }
  }

  /** A block of qualifying elements in the middle is what the filter keeps. */
  lemma {:induction false} FilterIsSlice<T(!new)>(s: seq<T>, p: T -> bool, from: nat, to: nat)
    requires from <= to <= |s|
    requires forall i :: 0 <= i < |s| ==> (p(s[i]) <==> from <= i < to)
    ensures Filter(s, p) == s[from..to]
  {
    if s != [] {
      var f, t := if from > 0 then from - 1 else 0, if to > 0 then to - 1 else 0;
      FilterIsSlice(s[1..], p, f, t);
      if to == 0 {
        assert s[from..to] == [];
      } else if from > 0 {
        assert s[1..][f..t] == s[f + 1..t + 1];
      } else {
        assert s[..to] == [s[0]] + s[1..][..t];
      }
    }
  }

  lemma {:induction false} SortConstant<T(!new)>(s: seq<T>, le: (T, T) -> bool)
    requires forall x, y :: x in s && y in s ==> le(x, y)
    ensures Sort(s, le) == s
  {
    if s != [] {
      SortConstant(s[1..], le);
      if |s| > 1 { assert s[1] in s && s[0] in s; }
    }
  }

  lemma {:induction false} FilterSnoc<T>(s: seq<T>, x: T, p: T -> bool)
    ensures Filter(s + [x], p) == Filter(s, p) + if p(x) then [x] else []
  {
    if s == [] {
      assert s + [x] == [x];
    } else {
      assert (s + [x])[1..] == s[1..] + [x];
      FilterSnoc(s[1..], x, p);
    }
  }

  lemma {:induction false} FilterSame<T>(s: seq<T>, p: T -> bool, q: T -> bool)
    requires forall i :: 0 <= i < |s| ==> (p(s[i]) <==> q(s[i]))
    ensures Filter(s, p) == Filter(s, q)
  {
    if s != [] { FilterSame(s[1..], p, q); }
  }

  lemma {:induction false} CountConcat<T>(a: seq<T>, b: seq<T>, p: T -> bool)
    ensures Count(a + b, p) == Count(a, p) + Count(b, p)
  {
    if a == [] {
      assert a + b == b;
    } else {
      assert (a + b)[1..] == a[1..] + b;
      CountConcat(a[1..], b, p);
    }
  }
}
