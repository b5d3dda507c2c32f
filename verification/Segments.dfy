/** Piecewise-constant answers compiled once: per instrument, the boundaries at which the
    set of applicable facts can change, and the answer the production rule gives there. */
module Segments {
  import opened Wrappers
  import opened Clocks
  import opened Ordering

  /** A fact's instrument, if the key knows it, and its clocks; a missing start never
      comes and a missing end never does either. */
  datatype Timed = Timed(inst: Option<nat>, from: Option<int>, known: Option<int>, until: Option<int>)

  predicate AppliesAt(r: Timed, t: int) { Applies(r.from, r.known, r.until, t) }

  /** Row numbers of one instrument, in row order, among the first `k` rows. */
  function RowsOf(rows: seq<Timed>, i: nat, k: nat): (r: seq<nat>)
    requires k <= |rows|
    ensures InRows(rows, r) && forall n: nat :: n in r <==> n < k && rows[n].inst == Some(i)
  {
    if k == 0 then []
    else RowsOf(rows, i, k - 1) + if rows[k - 1].inst == Some(i) then [k - 1] else []
  }

  ghost predicate InRows(rows: seq<Timed>, own: seq<nat>) {
    forall j :: 0 <= j < |own| ==> own[j] < |rows|
  }

  /** Those of the given rows that apply at `t`. */
  function ApplicableAt(rows: seq<Timed>, own: seq<nat>, t: int): (r: seq<nat>)
    requires InRows(rows, own)
    ensures forall n: nat :: n in r <==> n in own && AppliesAt(rows[n], t)
  {
    if own == [] then []
    else
      var rest := ApplicableAt(rows, own[..|own| - 1], t);
      var last := own[|own| - 1];
      assert own == own[..|own| - 1] + [last];
      if AppliesAt(rows[last], t) then rest + [last] else rest
  }

  /** A production rule: the answer for no applicable fact, and for some. */
  datatype Rule<!C> = Rule(default: C, resolve: seq<nat> -> C)

  function Decide<C>(rule: Rule<C>, applicable: seq<nat>): C {
    if applicable == [] then rule.default else rule.resolve(applicable)
  }

  /** The direct answer: resolve the facts applicable at exactly this cutoff. */
  function Direct<C>(rows: seq<Timed>, rule: Rule<C>, i: nat, t: int): C {
    Decide(rule, ApplicableAt(rows, RowsOf(rows, i, |rows|), t))
  }

  // ---- boundaries ---------------------------------------------------------------------

  function Finite(x: Option<int>): seq<int> { if x.Some? then [x.value] else [] }

  function Times(rows: seq<Timed>, own: seq<nat>): (times: seq<int>)
    requires InRows(rows, own)
  {
    if own == [] then []
    else
      var r := rows[own[0]];
      Finite(r.from) + Finite(r.known) + Finite(r.until) + Times(rows, own[1..])
  }

  /** The finite clocks of an instrument's rows, sorted, each once. */
  function Boundaries(rows: seq<Timed>, own: seq<nat>): (b: seq<int>)
    requires InRows(rows, own)
    ensures Ascending(b)
    ensures forall x :: x in b <==> x in Times(rows, own)
  {
    SortUnique(Times(rows, own))
  }

  lemma {:induction false} TimesHold(rows: seq<Timed>, own: seq<nat>, n: nat, x: int)
    requires InRows(rows, own) && n in own
    requires rows[n].from == Some(x) || rows[n].known == Some(x) || rows[n].until == Some(x)
    ensures x in Times(rows, own)
  {
    if n != own[0] { TimesHold(rows, own[1..], n, x); }
  }

  /** With no boundary after `b` up to `t`, the same rows apply at both. */
  lemma NoBoundaryBetween(rows: seq<Timed>, own: seq<nat>, n: nat, b: int, t: int)
    requires InRows(rows, own) && n in own && b <= t
    requires forall x :: x in Times(rows, own) ==> x <= b || x > t
    ensures AppliesAt(rows[n], b) <==> AppliesAt(rows[n], t)
  {
    var r := rows[n];
    if r.from.Some? { TimesHold(rows, own, n, r.from.value); }
    if r.known.Some? { TimesHold(rows, own, n, r.known.value); }
    if r.until.Some? { TimesHold(rows, own, n, r.until.value); }
  }

  lemma BeforeBoundaries(rows: seq<Timed>, own: seq<nat>, n: nat, t: int)
    requires InRows(rows, own) && n in own
    requires forall x :: x in Times(rows, own) ==> x > t
    ensures !AppliesAt(rows[n], t)
  {
    if rows[n].from.Some? { TimesHold(rows, own, n, rows[n].from.value); }
  }

  lemma {:induction false} SameApplicable(rows: seq<Timed>, own: seq<nat>, b: int, t: int)
    requires InRows(rows, own)
    requires forall n: nat :: n in own ==> (AppliesAt(rows[n], b) <==> AppliesAt(rows[n], t))
    ensures ApplicableAt(rows, own, b) == ApplicableAt(rows, own, t)
  {
    if own != [] { SameApplicable(rows, own[..|own| - 1], b, t); }
  }

  lemma {:induction false} NoneApplies(rows: seq<Timed>, own: seq<nat>, t: int)
    requires InRows(rows, own) && forall n: nat :: n in own ==> !AppliesAt(rows[n], t)
    ensures ApplicableAt(rows, own, t) == []
  {
    if own != [] { NoneApplies(rows, own[..|own| - 1], t); }
  }

  /** `k` of the boundaries lie at or before `t`. */
  ghost predicate SplitsAt(b: seq<int>, t: int, k: nat) {
    && k <= |b|
    && (forall j :: 0 <= j < k ==> b[j] <= t)
    && (forall j :: k <= j < |b| ==> b[j] > t)
  }

  /** The answer at the last boundary at or before `t` is the direct answer at `t`. */
  lemma PiecewiseConstant<C>(rows: seq<Timed>, rule: Rule<C>, i: nat, t: int, k: nat)
    requires SplitsAt(Boundaries(rows, RowsOf(rows, i, |rows|)), t, k)
    ensures var b := Boundaries(rows, RowsOf(rows, i, |rows|));
      Direct(rows, rule, i, t) == if k == 0 then rule.default else Direct(rows, rule, i, b[k - 1])
  {
    hide RowsOf, Boundaries, Times, ApplicableAt;
    var own := RowsOf(rows, i, |rows|);
    var b := Boundaries(rows, own);
    forall x | x in Times(rows, own) ensures if k == 0 then x > t else x <= b[k - 1] || x > t {
      var j :| 0 <= j < |b| && b[j] == x;
      assert k == 0 || j <= k - 1 || j >= k;
      if 0 < k && j < k - 1 { assert b[j] < b[k - 1]; }
    }
    if k == 0 {
      forall n: nat | n in own ensures !AppliesAt(rows[n], t) { BeforeBoundaries(rows, own, n, t); }
      NoneApplies(rows, own, t);
    } else {
      forall n: nat | n in own ensures AppliesAt(rows[n], b[k - 1]) <==> AppliesAt(rows[n], t) {
        NoBoundaryBetween(rows, own, n, b[k - 1], t);
      }
      SameApplicable(rows, own, b[k - 1], t);
    }
  }

  // ---- the compiled table ---------------------------------------------------------------

  /** Boundaries and answers of all instruments, flat: instrument `i` owns `cnt[i]` cells
      from `off[i]`, the first standing for the time before any boundary. */
  datatype Table<+C> = Table(off: seq<nat>, cnt: seq<nat>, bound: seq<Option<int>>, codes: seq<C>)

  /** Instrument `i`'s cells hold its boundaries and the answers there. */
  ghost predicate SliceIs<C>(t: Table<C>, i: nat, rule: Rule<C>, rows: seq<Timed>)
    requires i < |t.off| == |t.cnt|
  {
    var b := Boundaries(rows, RowsOf(rows, i, |rows|));
    && t.cnt[i] == |b| + 1 && t.off[i] + t.cnt[i] <= |t.bound| == |t.codes|
    && t.bound[t.off[i]] == None && t.codes[t.off[i]] == rule.default
    && forall j :: t.off[i] < j < t.off[i] + t.cnt[i] ==>
         && t.bound[j] == Some(b[j - t.off[i] - 1])
         && t.codes[j] == Direct(rows, rule, i, b[j - t.off[i] - 1])
  }

  ghost predicate StartsAfter<C>(t: Table<C>, i: nat)
    requires i < |t.off| == |t.cnt|
  {
    t.off[i] == if i == 0 then 0 else t.off[i - 1] + t.cnt[i - 1]
  }

  ghost predicate Contiguous<C>(t: Table<C>) {
    && |t.off| == |t.cnt| && |t.bound| == |t.codes|
    && (forall i :: 0 <= i < |t.off| ==> StartsAfter(t, i))
    && |t.bound| == if |t.off| == 0 then 0 else t.off[|t.off| - 1] + t.cnt[|t.cnt| - 1]
  }

  ghost predicate IsTable<C>(t: Table<C>, count: nat, rule: Rule<C>, rows: seq<Timed>) {
    && |t.off| == count && Contiguous(t)
    && forall i :: 0 <= i < count ==> SliceIs(t, i, rule, rows)
  }

  /** One instrument's cells. */
  method BuildSlice<C>(rows: seq<Timed>, rule: Rule<C>, i: nat) returns (bound: seq<Option<int>>, codes: seq<C>)
    ensures var b := Boundaries(rows, RowsOf(rows, i, |rows|));
      && |bound| == |codes| == |b| + 1 && bound[0] == None && codes[0] == rule.default
      && forall j :: 1 <= j <= |b| ==> bound[j] == Some(b[j - 1]) && codes[j] == Direct(rows, rule, i, b[j - 1])
  {
    hide Boundaries;
    var own := RowsOf(rows, i, |rows|);
    var b := Boundaries(rows, own);
    bound, codes := [None], [rule.default];
    for k := 0 to |b|
      invariant |bound| == |codes| == k + 1 && bound[0] == None && codes[0] == rule.default
      invariant forall j :: 1 <= j <= k ==> bound[j] == Some(b[j - 1]) && codes[j] == Direct(rows, rule, i, b[j - 1])
    {
      var applicable := ApplicableAt(rows, own, b[k]);
      bound := bound + [Some(b[k])];
      codes := codes + [if applicable == [] then rule.default else rule.resolve(applicable)];
    }
  }

  lemma SliceKept<C>(t: Table<C>, u: Table<C>, i: nat, rule: Rule<C>, rows: seq<Timed>)
    requires i < |t.off| == |t.cnt| && i < |u.off| == |u.cnt| && SliceIs(t, i, rule, rows)
    requires t.off[i] == u.off[i] && t.cnt[i] == u.cnt[i]
    requires t.bound <= u.bound && t.codes <= u.codes && |u.bound| == |u.codes|
    ensures SliceIs(u, i, rule, rows)
  {
    hide Boundaries, Direct;
  }

  /** `prepared_segments`: instrument by instrument. */
  method BuildTable<C>(rows: seq<Timed>, rule: Rule<C>, count: nat) returns (t: Table<C>)
    ensures IsTable(t, count, rule, rows)
  {
    t := Table([], [], [], []);
    for i := 0 to count
      invariant IsTable(t, i, rule, rows)
    {
      var bound, codes := BuildSlice(rows, rule, i);
      t := Extended(rows, rule, i, t, bound, codes);
    }
  }

  method Extended<C>(rows: seq<Timed>, rule: Rule<C>, i: nat, t: Table<C>, bound: seq<Option<int>>, codes: seq<C>)
    returns (u: Table<C>)
    requires IsTable(t, i, rule, rows)
    requires var b := Boundaries(rows, RowsOf(rows, i, |rows|));
      && |bound| == |codes| == |b| + 1 && bound[0] == None && codes[0] == rule.default
      && forall j :: 1 <= j <= |b| ==> bound[j] == Some(b[j - 1]) && codes[j] == Direct(rows, rule, i, b[j - 1])
    ensures IsTable(u, i + 1, rule, rows)
  {
    hide Boundaries, Direct;
    u := Table(t.off + [|t.bound|], t.cnt + [|bound|], t.bound + bound, t.codes + codes);
    forall k | 0 <= k < i ensures SliceIs(u, k, rule, rows) {
      SliceKept(t, u, k, rule, rows);
    }
    assert u.off[i] == |t.bound| && u.cnt[i] == |bound|;
    assert u.bound[u.off[i]] == bound[0] && u.codes[u.off[i]] == codes[0];
    assert SliceIs(u, i, rule, rows);
    forall k | 0 <= k <= i ensures StartsAfter(u, k) {
      if k < i { assert StartsAfter(t, k); }
    }
  }
}
