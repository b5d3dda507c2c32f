/** `ledgr_fact_status_unrelated_overlap`: decides whether an unrelated clash exists
    by comparing two counts instead of pairing rows. */
module OverlapCount {
  import opened Wrappers
  import opened Ordering
  import opened Cardinality
  import opened MixedRadix
  import opened Forest

  /** Rows reduced to small integers: scope group, state index and bound ranks. */
  datatype Ranked = Ranked(scope: seq<nat>, state: seq<nat>, start: seq<nat>, end: seq<nat>, levels: nat, width: nat)

  ghost predicate ValidRow(k: Ranked, i: nat)
    requires i < |k.scope| == |k.state| == |k.start| == |k.end|
  {
    && k.scope[i] >= 1
    && 1 <= k.state[i] <= k.levels
    && 1 <= k.start[i] < k.end[i] < k.width
  }

  ghost predicate Valid(k: Ranked) {
    && |k.scope| == |k.state| == |k.start| == |k.end|
    && forall i: nat :: i < |k.scope| ==> ValidRow(k, i)
  }

  predicate Opposed(k: Ranked, i: nat, j: nat)
    requires |k.scope| == |k.state| == |k.start| == |k.end|
  {
    && i < |k.scope| && j < |k.scope|
    && k.scope[i] == k.scope[j]
    && k.state[i] != k.state[j]
    && k.start[i] < k.end[j]
    && k.start[j] < k.end[i]
  }

  // ---- integer keys ----------------------------------------------------

  function Group(k: Ranked, scope: nat, state: nat): int {
    (scope - 1) * k.levels + state
  }

  function Key(k: Ranked, scope: nat, state: nat, rank: nat): int {
    Group(k, scope, state) * k.width + rank
  }

  function AtMost(x: real): int -> bool {
    (key: int) => key as real <= x
  }

  /** `findInterval(x, keys)`. */
  function KeysAtMost(keys: seq<int>, x: real): nat
    requires SortedBy(keys, IntLe)
  {
    FindInterval(keys, AtMost(x))
  }

  function Keys(k: Ranked, rank: seq<nat>): seq<int>
    requires Valid(k) && |rank| == |k.scope|
  {
    seq(|rank|, i requires 0 <= i < |rank| && |k.scope| == |k.state| == |rank| =>
      Key(k, k.scope[i], k.state[i], rank[i]))
  }

  lemma SameGroup(k: Ranked, s: nat, t: nat, s': nat, t': nat)
    requires s >= 1 && s' >= 1 && 1 <= t <= k.levels && 1 <= t' <= k.levels
    ensures Group(k, s, t) == Group(k, s', t') <==> s == s' && t == t'
  {
    Lexicographic(k.levels, s - 1, t, s' - 1, t');
  }

  /** Rows of one scope and state whose rank is below `e`. */
  ghost function RanksBelow(k: Ranked, rank: seq<nat>, scope: nat, state: nat, e: nat): set<nat>
    requires Valid(k) && |rank| == |k.scope|
  {
    set j: nat | j < |rank| && k.scope[j] == scope && k.state[j] == state && rank[j] < e
  }

  ghost predicate RanksInWidth(k: Ranked, rank: seq<nat>) {
    |rank| == |k.scope| && forall j :: 0 <= j < |rank| ==> 1 <= rank[j] < k.width
  }

  function SortedKeys(k: Ranked, rank: seq<nat>): seq<int>
    requires Valid(k) && |rank| == |k.scope|
  {
    Sort(Keys(k, rank), IntLe)
  }

  /** Rows of earlier blocks. */
  ghost function EarlierBlocks(k: Ranked, group: int): set<nat>
    requires Valid(k)
  {
    set j: nat | j < |k.scope| && Group(k, k.scope[j], k.state[j]) < group
  }

  /** A bound that admits the earlier blocks and the ranks below `e` of this one. */
  ghost predicate CutsAt(k: Ranked, rank: seq<nat>, scope: nat, state: nat, e: nat, bound: real)
    requires Valid(k) && |rank| == |k.scope|
  {
    forall j: nat :: j < |rank| ==>
      (AtMost(bound)(Keys(k, rank)[j])
       <==> j in EarlierBlocks(k, Group(k, scope, state)) + RanksBelow(k, rank, scope, state, e))
  }

  lemma CutCount(k: Ranked, rank: seq<nat>, scope: nat, state: nat, e: nat, bound: real)
    requires Valid(k) && |rank| == |k.scope| && scope >= 1 && 1 <= state <= k.levels
    requires CutsAt(k, rank, scope, state, e, bound)
    ensures SortedBy(SortedKeys(k, rank), IntLe)
    ensures KeysAtMost(SortedKeys(k, rank), bound)
         == |EarlierBlocks(k, Group(k, scope, state))| + |RanksBelow(k, rank, scope, state, e)|
  {
    var raw := Keys(k, rank);
    IntOrder();
    FindIntervalCounts(raw, IntLe, AtMost(bound));
    var low, here := EarlierBlocks(k, Group(k, scope, state)), RanksBelow(k, rank, scope, state, e);
    assert low !! here;
    assert Hits(raw, AtMost(bound)) == low + here;
  }

  method SearchAt(k: Ranked, keys: seq<int>, rank: seq<nat>, ghost scope: nat, ghost state: nat, ghost e: nat,
                  bound: real)
    returns (c: nat)
    requires Valid(k) && |rank| == |k.scope| && scope >= 1 && 1 <= state <= k.levels && keys == SortedKeys(k, rank)
    requires CutsAt(k, rank, scope, state, e, bound)
    ensures c == |EarlierBlocks(k, Group(k, scope, state))| + |RanksBelow(k, rank, scope, state, e)|
  {
    CutCount(k, rank, scope, state, e, bound);
    c := KeysAtMost(keys, bound);
  }

  lemma SearchBlockStartCuts(k: Ranked, rank: seq<nat>, scope: nat, state: nat, e: nat, bound: real)
    requires Valid(k) && RanksInWidth(k, rank) && scope >= 1 && 1 <= state <= k.levels && 1 <= e < k.width
    requires bound == (Group(k, scope, state) * k.width) as real + 0.5
    ensures CutsAt(k, rank, scope, state, 0, bound)
  {
    var g := Group(k, scope, state);
    forall j: nat | j < |rank|
      ensures AtMost(bound)(Keys(k, rank)[j])
         <==> j in EarlierBlocks(k, g) + RanksBelow(k, rank, scope, state, 0)
    {
      assert ValidRow(k, j);
      SameGroup(k, k.scope[j], k.state[j], scope, state);
      Window(k.width, Group(k, k.scope[j], k.state[j]), rank[j], g, e);
    }
  }

  /** Keys of the blocks before this one. */
  method SearchBlockStart(k: Ranked, keys: seq<int>, rank: seq<nat>, scope: nat, state: nat, e: nat) returns (c: nat)
    requires Valid(k) && RanksInWidth(k, rank) && keys == SortedKeys(k, rank)
    requires scope >= 1 && 1 <= state <= k.levels && 1 <= e < k.width
    ensures c == |EarlierBlocks(k, Group(k, scope, state))| + |RanksBelow(k, rank, scope, state, 0)|
  {
    var bound := (Group(k, scope, state) * k.width) as real + 0.5;
    SearchBlockStartCuts(k, rank, scope, state, e, bound);
    c := SearchAt(k, keys, rank, scope, state, 0, bound);
  }

  lemma SearchBelowCuts(k: Ranked, rank: seq<nat>, scope: nat, state: nat, e: nat, bound: real)
    requires Valid(k) && RanksInWidth(k, rank) && scope >= 1 && 1 <= state <= k.levels && 1 <= e < k.width
    requires bound == (Group(k, scope, state) * k.width + e) as real - 0.5
    ensures CutsAt(k, rank, scope, state, e, bound)
  {
    var g := Group(k, scope, state);
    forall j: nat | j < |rank|
      ensures AtMost(bound)(Keys(k, rank)[j])
         <==> j in EarlierBlocks(k, g) + RanksBelow(k, rank, scope, state, e)
    {
      assert ValidRow(k, j);
      SameGroup(k, k.scope[j], k.state[j], scope, state);
      Window(k.width, Group(k, k.scope[j], k.state[j]), rank[j], g, e);
    }
  }

  /** Keys up to the rank just below `e` in this block. */
  method SearchBelow(k: Ranked, keys: seq<int>, rank: seq<nat>, scope: nat, state: nat, e: nat) returns (c: nat)
    requires Valid(k) && RanksInWidth(k, rank) && keys == SortedKeys(k, rank)
    requires scope >= 1 && 1 <= state <= k.levels && 1 <= e < k.width
    ensures c == |EarlierBlocks(k, Group(k, scope, state))| + |RanksBelow(k, rank, scope, state, e)|
  {
    var bound := (Group(k, scope, state) * k.width + e) as real - 0.5;
    SearchBelowCuts(k, rank, scope, state, e, bound);
    c := SearchAt(k, keys, rank, scope, state, e, bound);
  }

  lemma SearchUpToCuts(k: Ranked, rank: seq<nat>, scope: nat, state: nat, e: nat, cut: nat, bound: real)
    requires Valid(k) && RanksInWidth(k, rank) && scope >= 1 && 1 <= state <= k.levels && 1 <= e < k.width
    requires cut == e + 1 && bound == (Group(k, scope, state) * k.width + e) as real
    ensures CutsAt(k, rank, scope, state, cut, bound)
  {
    var g := Group(k, scope, state);
    forall j: nat | j < |rank|
      ensures AtMost(bound)(Keys(k, rank)[j])
         <==> j in EarlierBlocks(k, g) + RanksBelow(k, rank, scope, state, cut)
    {
      assert ValidRow(k, j);
      SameGroup(k, k.scope[j], k.state[j], scope, state);
      Window(k.width, Group(k, k.scope[j], k.state[j]), rank[j], g, e);
    }
  }

  /** Keys up to rank `e` in this block. */
  method SearchUpTo(k: Ranked, keys: seq<int>, rank: seq<nat>, scope: nat, state: nat, e: nat) returns (c: nat)
    requires Valid(k) && RanksInWidth(k, rank) && keys == SortedKeys(k, rank)
    requires scope >= 1 && 1 <= state <= k.levels && 1 <= e < k.width
    ensures c == |EarlierBlocks(k, Group(k, scope, state))| + |RanksBelow(k, rank, scope, state, e + 1)|
  {
    var bound := (Group(k, scope, state) * k.width + e) as real;
    ghost var cut := e + 1;
    SearchUpToCuts(k, rank, scope, state, e, cut, bound);
    c := SearchAt(k, keys, rank, scope, state, cut, bound);
  }

  // ---- all opposing pairs ------------------------------------------------

  /** Rows of the queried row's scope with state `other` that overlap it. */
  ghost function Partners(k: Ranked, q: nat, other: nat): set<nat>
    requires Valid(k) && q < |k.scope|
  {
    set j: nat | j < |k.scope| && k.scope[j] == k.scope[q] && k.state[j] == other
                 && k.start[j] < k.end[q] && k.start[q] < k.end[j]
  }

  /** Those that begin in time, less those already over: exactly the partners. */
  lemma BegunMinusEnded(k: Ranked, q: nat, other: nat)
    requires Valid(k) && q < |k.scope|
    ensures |RanksBelow(k, k.start, k.scope[q], other, k.end[q])|
          - |RanksBelow(k, k.end, k.scope[q], other, k.start[q] + 1)| == |Partners(k, q, other)|
  {
    var begun := RanksBelow(k, k.start, k.scope[q], other, k.end[q]);
    var ended := RanksBelow(k, k.end, k.scope[q], other, k.start[q] + 1);
    assert ValidRow(k, q);
    forall j | j in ended ensures j in begun { assert ValidRow(k, j); }
    assert Partners(k, q, other) == begun - ended;
  }

  lemma RanksFit(k: Ranked)
    requires Valid(k)
    ensures RanksInWidth(k, k.start) && RanksInWidth(k, k.end)
  {
    forall j: nat | j < |k.scope| ensures 1 <= k.start[j] < k.width && 1 <= k.end[j] < k.width {
      assert ValidRow(k, j);
    }
  }

  /** How many rows of one scope and state have a rank below `e`. */
  method CountBelow(k: Ranked, keys: seq<int>, rank: seq<nat>, scope: nat, state: nat, e: nat) returns (c: int)
    requires Valid(k) && RanksInWidth(k, rank) && keys == SortedKeys(k, rank)
    requires scope >= 1 && 1 <= state <= k.levels && 1 <= e < k.width
    ensures c == |RanksBelow(k, rank, scope, state, e)|
  {
    var upTo := SearchBelow(k, keys, rank, scope, state, e);
    var before := SearchBlockStart(k, keys, rank, scope, state, e);
    assert RanksBelow(k, rank, scope, state, 0) == {};
    c := upTo - before;
  }

  /** How many rows of one scope and state have rank `e` at most. */
  method CountUpTo(k: Ranked, keys: seq<int>, rank: seq<nat>, scope: nat, state: nat, e: nat) returns (c: int)
    requires Valid(k) && RanksInWidth(k, rank) && keys == SortedKeys(k, rank)
    requires scope >= 1 && 1 <= state <= k.levels && 1 <= e < k.width
    ensures c == |RanksBelow(k, rank, scope, state, e + 1)|
  {
    var upTo := SearchUpTo(k, keys, rank, scope, state, e);
    var before := SearchBlockStart(k, keys, rank, scope, state, e);
    assert RanksBelow(k, rank, scope, state, 0) == {};
    c := upTo - before;
  }

  method CountPartners(k: Ranked, startKeys: seq<int>, endKeys: seq<int>, q: nat, other: nat) returns (c: int)
    requires Valid(k) && q < |k.scope| && 1 <= other <= k.levels
    requires startKeys == SortedKeys(k, k.start) && endKeys == SortedKeys(k, k.end)
    ensures c == |Partners(k, q, other)|
  {
    assert ValidRow(k, q);
    RanksFit(k);
    var begun := CountBelow(k, startKeys, k.start, k.scope[q], other, k.end[q]);
    var ended := CountUpTo(k, endKeys, k.end, k.scope[q], other, k.start[q]);
    BegunMinusEnded(k, q, other);
    c := begun - ended;
  }

  /** The opposing pairs counted after the states below `other` and, for `other`, the rows below `q`. */
  ghost function CountedPairs(k: Ranked, other: nat, q: nat): set<(nat, nat)>
    requires Valid(k)
  {
    set i: nat, j: nat | i < |k.scope| && j < |k.scope| && Opposed(k, i, j)
                         && (k.state[j] < other || (k.state[j] == other && i < q)) :: (i, j)
  }

  lemma {:induction false} PairRow(i: nat, js: set<nat>)
    ensures |Row(i, js)| == |js|
    decreases |js|
  {
    if js != {} {
      var x :| x in js;
      PairRow(i, js - {x});
      assert Row(i, js) == Row(i, js - {x}) + {(i, x)};
    }
  }

  ghost function Row(i: nat, js: set<nat>): set<(nat, nat)> {
    set j | j in js :: (i, j)
  }

  lemma QueryAdds(k: Ranked, other: nat, q: nat)
    requires Valid(k) && q < |k.scope| && k.state[q] != other
    ensures CountedPairs(k, other, q + 1) == CountedPairs(k, other, q) + Row(q, Partners(k, q, other))
    ensures CountedPairs(k, other, q) !! Row(q, Partners(k, q, other))
  {
    forall i: nat, j: nat ensures (i, j) in CountedPairs(k, other, q + 1)
      <==> (i, j) in CountedPairs(k, other, q) || (i == q && j in Partners(k, q, other))
    {
    }
  }

  lemma OneMoreQuery(k: Ranked, other: nat, q: nat)
    requires Valid(k) && q < |k.scope|
    ensures |CountedPairs(k, other, q + 1)| == |CountedPairs(k, other, q)|
          + if k.state[q] != other then |Partners(k, q, other)| else 0
  {
    if k.state[q] != other {
      QueryAdds(k, other, q);
      PairRow(q, Partners(k, q, other));
    } else {
      assert CountedPairs(k, other, q + 1) == CountedPairs(k, other, q);
    }
  }

  ghost function OpposedPairs(k: Ranked): set<(nat, nat)>
    requires Valid(k)
  {
    set i: nat, j: nat | i < |k.scope| && j < |k.scope| && Opposed(k, i, j) :: (i, j)
  }

  /** The first count: every ordered opposing pair. */
  method CountOpposing(k: Ranked) returns (opposing: int)
    requires Valid(k)
    ensures opposing == |OpposedPairs(k)|
  {
    var n := |k.scope|;
    var startKeys := SortedKeys(k, k.start);
    var endKeys := SortedKeys(k, k.end);
    opposing := 0;
    NoStateBelowOne(k);
    for other := 1 to k.levels + 1
      invariant opposing == |CountedPairs(k, other, 0)|
    {
      for q := 0 to n
        invariant opposing == |CountedPairs(k, other, q)|
      {
        OneMoreQuery(k, other, q);
        if k.state[q] != other {
          var c := CountPartners(k, startKeys, endKeys, q, other);
          opposing := opposing + c;
        }
      }
      assert CountedPairs(k, other, n) == CountedPairs(k, other + 1, 0);
    }
    AllStatesCounted(k);
  }

  lemma NoStateBelowOne(k: Ranked)
    requires Valid(k)
    ensures CountedPairs(k, 1, 0) == {}
  {
    forall i: nat | i < |k.scope| ensures k.state[i] >= 1 { assert ValidRow(k, i); }
  }

  lemma AllStatesCounted(k: Ranked)
    requires Valid(k)
    ensures CountedPairs(k, k.levels + 1, 0) == OpposedPairs(k)
  {
    forall i: nat | i < |k.scope| ensures k.state[i] <= k.levels { assert ValidRow(k, i); }
  }

  // ---- related pairs -----------------------------------------------------

  /** Opposing pairs whose first row is reached from the second by 1 to `depth` links. */
  ghost function RelatedWithin(k: Ranked, parent: Parents, depth: nat): set<(nat, nat)>
    requires Valid(k) && Forest.Valid(parent) && |parent| == |k.scope|
  {
    set a: nat, d: nat | a < |parent| && d < |parent| && Opposed(k, a, d) && AtDistance(parent, a, d, depth) :: (a, d)
  }

  ghost predicate AtDistance(parent: Parents, a: nat, d: nat, depth: nat)
    requires Forest.Valid(parent) && d < |parent|
  {
    exists m: nat :: 1 <= m <= depth && Up(parent, d, m) == Some(a)
  }

  ghost function RoundPairs(k: Ranked, parent: Parents, depth: nat, upTo: nat): set<(nat, nat)>
    requires Valid(k) && Forest.Valid(parent) && |parent| == |k.scope| && upTo <= |parent|
  {
    set a: nat, d: nat | a < |parent| && d < upTo && Opposed(k, a, d) && Up(parent, d, depth) == Some(a) :: (a, d)
  }

  ghost predicate IsRound(parent: Parents, reached: seq<Option<nat>>, depth: nat)
    requires Forest.Valid(parent)
  {
    |reached| == |parent| && forall d: nat :: d < |parent| ==> reached[d] == Up(parent, d, depth)
  }

  /** One round: every row's current ancestor, counted when the pair opposes. */
  method CountRound(k: Ranked, parent: Parents, reached: seq<Option<nat>>, ghost depth: nat) returns (counted: nat)
    requires Valid(k) && Forest.Valid(parent) && |parent| == |k.scope| && IsRound(parent, reached, depth)
    ensures counted == |RoundPairs(k, parent, depth, |parent|)|
  {
    hide RoundPairs, Opposed, Up;
    counted := 0;
    NoRoundPairs(k, parent, depth);
    for d := 0 to |parent|
      invariant counted == |RoundPairs(k, parent, depth, d)|
    {
      RoundAdds(k, parent, depth, d, reached[d]);
      if reached[d].Some? && Opposed(k, reached[d].value, d) { counted := counted + 1; }
    }
  }

  lemma NoRoundPairs(k: Ranked, parent: Parents, depth: nat)
    requires Valid(k) && Forest.Valid(parent) && |parent| == |k.scope|
    ensures |RoundPairs(k, parent, depth, 0)| == 0
  {
    assert RoundPairs(k, parent, depth, 0) == {};
  }

  lemma RoundAdds(k: Ranked, parent: Parents, depth: nat, d: nat, reached: Option<nat>)
    requires Valid(k) && Forest.Valid(parent) && |parent| == |k.scope|
    requires d < |parent| && reached == Up(parent, d, depth)
    ensures |RoundPairs(k, parent, depth, d + 1)|
         == |RoundPairs(k, parent, depth, d)| + if reached.Some? && Opposed(k, reached.value, d) then 1 else 0
  {
    hide RoundPairs, Opposed, Up;
    var before := RoundPairs(k, parent, depth, d);
    var added := if reached.Some? && Opposed(k, reached.value, d) then {(reached.value, d)} else {};
    forall p ensures p in RoundPairs(k, parent, depth, d + 1) <==> p in before || p in added {
      RoundPair(k, parent, depth, d, p);
      RoundPair(k, parent, depth, d + 1, p);
    }
    assert RoundPairs(k, parent, depth, d + 1) == before + added;
    RoundPair(k, parent, depth, d, (if reached.Some? then reached.value else 0, d));
  }

  lemma RoundPair(k: Ranked, parent: Parents, depth: nat, upTo: nat, p: (nat, nat))
    requires Valid(k) && Forest.Valid(parent) && |parent| == |k.scope| && upTo <= |parent|
    ensures p in RoundPairs(k, parent, depth, upTo)
       <==> p.0 < |parent| && p.1 < upTo && Opposed(k, p.0, p.1) && Up(parent, p.1, depth) == Some(p.0)
  {
    hide Opposed, Up;
  }

  /** Moves every row one link up its chain. */
  method StepUp(parent: Parents, reached: seq<Option<nat>>, ghost depth: nat) returns (next: seq<Option<nat>>)
    requires Forest.Valid(parent) && IsRound(parent, reached, depth)
    ensures IsRound(parent, next, depth + 1)
  {
    next := [];
    for d := 0 to |parent|
      invariant |next| == d
      invariant forall i: nat :: i < d ==> next[i] == Up(parent, i, depth + 1)
    {
      assert reached[d] == Up(parent, d, depth);
      next := next + [if reached[d].Some? then parent[reached[d].value] else None];
    }
  }

  lemma NoDistanceTwice(parent: Parents, a: nat, d: nat, m: nat, n: nat)
    requires Forest.Valid(parent) && d < |parent| && Acyclic(parent)
    requires m < n && Up(parent, d, m) == Some(a)
    ensures Up(parent, d, n) != Some(a)
  {
    UpAdd(parent, d, m, n - m);
    assert !Ancestor(parent, a, a);
  }

  lemma RoundDisjoint(k: Ranked, parent: Parents, depth: nat)
    requires Valid(k) && Forest.Valid(parent) && |parent| == |k.scope| && Acyclic(parent)
    ensures RelatedWithin(k, parent, depth) !! RoundPairs(k, parent, depth + 1, |parent|)
  {
    forall a: nat, d: nat | (a, d) in RelatedWithin(k, parent, depth)
      ensures (a, d) !in RoundPairs(k, parent, depth + 1, |parent|)
    {
      var m: nat :| 1 <= m <= depth && Up(parent, d, m) == Some(a);
      NoDistanceTwice(parent, a, d, m, depth + 1);
    }
  }

  lemma RoundIsNew(k: Ranked, parent: Parents, depth: nat)
    requires Valid(k) && Forest.Valid(parent) && |parent| == |k.scope| && Acyclic(parent)
    ensures |RelatedWithin(k, parent, depth + 1)|
         == |RelatedWithin(k, parent, depth)| + |RoundPairs(k, parent, depth + 1, |parent|)|
  {
    RoundDisjoint(k, parent, depth);
    assert RelatedWithin(k, parent, depth + 1)
        == RelatedWithin(k, parent, depth) + RoundPairs(k, parent, depth + 1, |parent|);
  }

  lemma ChainsEnd(parent: Parents, d: nat, depth: nat)
    requires Forest.Valid(parent) && d < |parent| && Acyclic(parent) && depth >= |parent|
    ensures Up(parent, d, depth).None?
  {
    if Up(parent, d, depth).Some? {
      forall m: nat | m <= depth ensures Up(parent, d, m).Some? { UpAdd(parent, d, m, depth - m); }
      var rows := seq(depth + 1, m requires 0 <= m <= depth => Up(parent, d, m).value);
      forall a: nat, b: nat | a < b <= depth ensures rows[a] != rows[b] {
        NoDistanceTwice(parent, rows[a], d, a, b);
      }
      Pigeonhole(rows, |parent|);
    }
  }

  ghost function RelatedPairs(k: Ranked, parent: Parents): set<(nat, nat)>
    requires Valid(k) && Forest.Valid(parent) && |parent| == |k.scope|
  {
    set a: nat, d: nat | a < |parent| && d < |parent| && Opposed(k, a, d) && Ancestor(parent, a, d) :: (a, d)
  }

  lemma AllRoundsDone(k: Ranked, parent: Parents, reached: seq<Option<nat>>, depth: nat)
    requires Valid(k) && Forest.Valid(parent) && |parent| == |k.scope|
    requires IsRound(parent, reached, depth + 1) && forall d :: 0 <= d < |parent| ==> reached[d].None?
    ensures RelatedWithin(k, parent, depth) == RelatedPairs(k, parent)
  {
    forall a: nat, d: nat | (a, d) in RelatedPairs(k, parent) ensures (a, d) in RelatedWithin(k, parent, depth) {
      var m: nat :| m >= 1 && Up(parent, d, m) == Some(a);
      if m > depth {
        assert reached[d] == None;
        UpAdd(parent, d, depth + 1, m - depth - 1);
      }
    }
  }

  predicate AnyLeft(reached: seq<Option<nat>>) {
    exists d :: 0 <= d < |reached| && reached[d].Some?
  }

  lemma LeftIsShallow(parent: Parents, reached: seq<Option<nat>>, depth: nat)
    requires Forest.Valid(parent) && Acyclic(parent) && IsRound(parent, reached, depth) && AnyLeft(reached)
    ensures depth < |parent|
  {
    var d: nat :| d < |reached| && reached[d].Some?;
    if depth >= |parent| { ChainsEnd(parent, d, depth); }
  }

  method OneRound(k: Ranked, parent: Parents, reached: seq<Option<nat>>, ghost depth: nat)
    returns (counted: nat, next: seq<Option<nat>>)
    requires Valid(k) && Forest.Valid(parent) && |parent| == |k.scope| && Acyclic(parent)
    requires IsRound(parent, reached, depth + 1)
    ensures |RelatedWithin(k, parent, depth + 1)| == |RelatedWithin(k, parent, depth)| + counted
    ensures IsRound(parent, next, depth + 2)
  {
    RoundIsNew(k, parent, depth);
    counted := CountRound(k, parent, reached, depth + 1);
    next := StepUp(parent, reached, depth + 1);
  }

  lemma FirstRound(parent: Parents)
    requires Forest.Valid(parent)
    ensures IsRound(parent, parent, 1)
  {
    forall d: nat | d < |parent| ensures parent[d] == Up(parent, d, 1) { assert Up(parent, d, 0) == Some(d); }
  }

  /** The second count: each chain walked one link per round, each related pair once,
      doubled for its two orders. A row whose chain has ended is dropped (`None`). */
  method CountRelated(k: Ranked, parent: Parents) returns (related: nat)
    requires Valid(k) && Forest.Valid(parent) && |parent| == |k.scope| && Acyclic(parent)
    ensures related == 2 * |RelatedPairs(k, parent)|
  {
    related := 0;
    var reached := parent;
    ghost var depth := 0;
    assert RelatedWithin(k, parent, 0) == {};
    FirstRound(parent);
    while AnyLeft(reached)
      invariant IsRound(parent, reached, depth + 1)
      invariant related == 2 * |RelatedWithin(k, parent, depth)|
      decreases |parent| - depth
    {
      LeftIsShallow(parent, reached, depth + 1);
      var counted, next := OneRound(k, parent, reached, depth);
      related := related + 2 * counted;
      reached := next;
      depth := depth + 1;
    }
    AllRoundsDone(k, parent, reached, depth);
  }

  // ---- the two counts decide -----------------------------------------------

  ghost function Swap(pairs: set<(nat, nat)>): set<(nat, nat)> {
    set p | p in pairs :: (p.1, p.0)
  }

  lemma {:induction false} SwapCardinality(pairs: set<(nat, nat)>)
    ensures |Swap(pairs)| == |pairs|
    decreases |pairs|
  {
    if pairs != {} {
      var p :| p in pairs;
      SwapCardinality(pairs - {p});
      assert Swap(pairs) == Swap(pairs - {p}) + {(p.1, p.0)};
    }
  }

  ghost predicate UnrelatedPair(k: Ranked, parent: Parents, i: nat, j: nat)
    requires Valid(k) && Forest.Valid(parent) && |parent| == |k.scope|
  {
    && i < |parent| && j < |parent| && Opposed(k, i, j)
    && !Ancestor(parent, i, j) && !Ancestor(parent, j, i)
  }

  lemma NoMutualAncestors(parent: Parents, a: nat, d: nat)
    requires Forest.Valid(parent) && a < |parent| && d < |parent| && Acyclic(parent)
    requires Ancestor(parent, a, d)
    ensures !Ancestor(parent, d, a)
  {
    if Ancestor(parent, d, a) {
      var k: nat :| k >= 1 && Up(parent, d, k) == Some(a);
      var m: nat :| m >= 1 && Up(parent, a, m) == Some(d);
      UpAdd(parent, d, k, m);
      assert Ancestor(parent, d, d);
    }
  }

  lemma RelatedTwiceInside(k: Ranked, parent: Parents)
    requires Valid(k) && Forest.Valid(parent) && |parent| == |k.scope| && Acyclic(parent)
    ensures RelatedPairs(k, parent) !! Swap(RelatedPairs(k, parent))
    ensures RelatedPairs(k, parent) + Swap(RelatedPairs(k, parent)) <= OpposedPairs(k)
  {
    forall a: nat, d: nat | (a, d) in RelatedPairs(k, parent) ensures (d, a) !in RelatedPairs(k, parent) {
      NoMutualAncestors(parent, a, d);
    }
  }

  /** More opposing pairs than related ones means an unrelated pair, and conversely. */
  lemma CountsDecide(k: Ranked, parent: Parents)
    requires Valid(k) && Forest.Valid(parent) && |parent| == |k.scope| && Acyclic(parent)
    ensures |OpposedPairs(k)| > 2 * |RelatedPairs(k, parent)|
       <==> exists i: nat, j: nat :: UnrelatedPair(k, parent, i, j)
  {
    var related := RelatedPairs(k, parent);
    var both := related + Swap(related);
    RelatedTwiceInside(k, parent);
    SwapCardinality(related);
    assert |both| == 2 * |related|;
    SubsetCardinality(both, OpposedPairs(k));
    if i: nat, j: nat :| UnrelatedPair(k, parent, i, j) {
      assert (i, j) in OpposedPairs(k) && (i, j) !in both;
    }
    if both != OpposedPairs(k) {
      var p :| p in OpposedPairs(k) && p !in both;
      assert (p.1, p.0) !in related;
      assert UnrelatedPair(k, parent, p.0, p.1);
    }
  }

  method UnrelatedByCount(k: Ranked, parent: Parents) returns (conflict: bool)
    requires Valid(k) && Forest.Valid(parent) && |parent| == |k.scope| && Acyclic(parent)
    ensures conflict <==> exists i: nat, j: nat :: UnrelatedPair(k, parent, i, j)
  {
    var opposing := CountOpposing(k);
    CountsDecide(k, parent);
    if opposing == 0 {
      return false;
    }
    var related := CountRelated(k, parent);
    conflict := opposing > related;
  }
}
