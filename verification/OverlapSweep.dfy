/** `ledgr_fact_opposing_state_overlap`: one pass over rows sorted by scope and
    start, comparing each start with the running maximum end of opposing states. */
module OverlapSweep {
  import opened Wrappers
  import opened Ordering
  import opened ScopeGroups

  /** Extended time: -Inf starts a running maximum, Inf is an open end. */
  datatype Instant = NegInf | Fin(t: int) | PosInf

  predicate Le(a: Instant, b: Instant) {
    a.NegInf? || b.PosInf? || (a.Fin? && b.Fin? && a.t <= b.t)
  }

  predicate Lt(a: Instant, b: Instant) { !Le(b, a) }

  function Max(a: Instant, b: Instant): Instant { if Le(a, b) then b else a }

  function EndOf(to: Option<int>): Instant { if to.Some? then Fin(to.value) else PosInf }

  datatype Claim = Claim(scope: Scope, state: int, start: int, end: Instant, stable: int)

  /** The sort key: scope, start, end, state, stable id. */
  predicate ClaimLe(a: Claim, b: Claim) {
    || ScopeLess(a.scope, b.scope)
    || (a.scope == b.scope &&
        (|| a.start < b.start
         || (a.start == b.start &&
             (|| Lt(a.end, b.end)
              || (a.end == b.end && (a.state < b.state || (a.state == b.state && a.stable <= b.stable)))))))
  }

  predicate Opposing(a: Claim, b: Claim) {
    a.scope == b.scope && a.state != b.state && Lt(Fin(a.start), b.end) && Lt(Fin(b.start), a.end)
  }

  ghost predicate HasOpposing(claims: seq<Claim>) {
    exists a, b :: a in claims && b in claims && Opposing(a, b)
  }

  /** The largest end among the first `k` claims of the scope of claim `k` with that state. */
  ghost predicate IsLatestEnd(claims: seq<Claim>, k: nat, state: int, latest: Instant)
    requires k < |claims|
  {
    && (forall j :: 0 <= j < k && claims[j].scope == claims[k].scope && claims[j].state == state ==>
          Le(claims[j].end, latest))
    && (latest.NegInf? ||
        exists j :: 0 <= j < k && claims[j].scope == claims[k].scope && claims[j].state == state
                    && claims[j].end == latest)
  }

  ghost predicate ScopesContiguous(claims: seq<Claim>) {
    forall i, j, k :: 0 <= i < j < k < |claims| && claims[i].scope == claims[k].scope ==>
      claims[j].scope == claims[k].scope
  }

  /** Exclusive running maximum of one state's ends, restarting with each scope. */
  method PreviousEnds(claims: seq<Claim>, state: int) returns (previous: seq<Instant>)
    requires ScopesContiguous(claims)
    ensures |previous| == |claims|
    ensures forall k: nat :: k < |claims| ==> IsLatestEnd(claims, k, state, previous[k])
  {
    previous := [];
    var running := NegInf;
    for k := 0 to |claims|
      invariant |previous| == k
      invariant k < |claims| && k > 0 && claims[k - 1].scope == claims[k].scope ==>
        IsLatestEnd(claims, k, state, running)
      invariant forall j: nat :: j < k ==> IsLatestEnd(claims, j, state, previous[j])
    {
      if k == 0 || claims[k - 1].scope != claims[k].scope {
        running := NegInf;
        ScopeStartsHere(claims, k, state);
      }
      previous := previous + [running];
      if claims[k].state == state { running := Max(running, claims[k].end); }
    }
  }

  lemma ScopeStartsHere(claims: seq<Claim>, k: nat, state: int)
    requires ScopesContiguous(claims) && k < |claims|
    requires k == 0 || claims[k - 1].scope != claims[k].scope
    ensures IsLatestEnd(claims, k, state, NegInf)
  {
    forall j | 0 <= j < k ensures claims[j].scope != claims[k].scope {
      if claims[j].scope == claims[k].scope {
        if j < k - 1 { assert false; }
      }
    }
  }

  function States(claims: seq<Claim>): (levels: seq<int>)
    ensures forall i :: 0 <= i < |claims| ==> claims[i].state in levels
  {
    if claims == [] then []
    else
      var rest := States(claims[1..]);
      assert forall i :: 1 <= i < |claims| ==> claims[i] == claims[1..][i - 1];
      if claims[0].state in rest then rest else [claims[0].state] + rest
  }

  /** Claim `k` starts before some earlier opposing claim of its scope ends. */
  ghost predicate StartsInside(claims: seq<Claim>, k: nat, levels: seq<int>)
    requires k < |claims|
  {
    exists j :: 0 <= j < k && claims[j].scope == claims[k].scope && claims[j].state != claims[k].state
                && claims[j].state in levels && Lt(Fin(claims[k].start), claims[j].end)
  }

  /** One state's contribution: raises `opposing_end` for the claims of other states. */
  method RaiseOpposing(claims: seq<Claim>, state: int, previous: seq<Instant>, opposing: seq<Instant>)
    returns (raised: seq<Instant>)
    requires |previous| == |opposing| == |claims|
    ensures |raised| == |claims|
    ensures forall k :: 0 <= k < |claims| ==>
      raised[k] == if claims[k].state != state then Max(opposing[k], previous[k]) else opposing[k]
  {
    raised := seq(|claims|, k requires 0 <= k < |claims| && |previous| == |opposing| == |claims| =>
      if claims[k].state != state then Max(opposing[k], previous[k]) else opposing[k]);
  }

  lemma RaisedSeesState(claims: seq<Claim>, levels: seq<int>, state: int, k: nat, before: Instant,
                        previous: Instant, after: Instant)
    requires k < |claims| && IsLatestEnd(claims, k, state, previous)
    requires Lt(Fin(claims[k].start), before) <==> StartsInside(claims, k, levels)
    requires after == if claims[k].state != state then Max(before, previous) else before
    ensures Lt(Fin(claims[k].start), after) <==> StartsInside(claims, k, levels + [state])
  {
    if StartsInside(claims, k, levels + [state]) && !StartsInside(claims, k, levels) {
      var j :| 0 <= j < k && claims[j].scope == claims[k].scope && claims[j].state != claims[k].state
               && claims[j].state in levels + [state] && Lt(Fin(claims[k].start), claims[j].end);
      assert claims[j].state == state;
    }
    if Lt(Fin(claims[k].start), after) && !Lt(Fin(claims[k].start), before) {
      var j :| 0 <= j < k && claims[j].scope == claims[k].scope && claims[j].state == state
               && claims[j].end == previous;
      assert claims[j].state in levels + [state];
    }
  }

  /** The sweep over sorted claims. */
  method SweepSorted(claims: seq<Claim>, levels: seq<int>) returns (conflict: bool)
    requires ScopesContiguous(claims)
    ensures conflict <==> exists k: nat :: k < |claims| && StartsInside(claims, k, levels)
  {
    var opposing: seq<Instant> := seq(|claims|, _ => NegInf);
    for index := 0 to |levels|
      invariant |opposing| == |claims|
      invariant forall k: nat :: k < |claims| ==>
        (Lt(Fin(claims[k].start), opposing[k]) <==> StartsInside(claims, k, levels[..index]))
    {
      var previous := PreviousEnds(claims, levels[index]);
      var raised := RaiseOpposing(claims, levels[index], previous, opposing);
      assert levels[..index + 1] == levels[..index] + [levels[index]];
      forall k: nat | k < |claims|
        ensures Lt(Fin(claims[k].start), raised[k]) <==> StartsInside(claims, k, levels[..index + 1])
      {
        RaisedSeesState(claims, levels[..index], levels[index], k, opposing[k], previous[k], raised[k]);
      }
      opposing := raised;
    }
    assert levels[..|levels|] == levels;
    conflict := false;
    for k := 0 to |claims|
      invariant conflict <==> exists i: nat :: i < k && StartsInside(claims, i, levels)
    {
      if Lt(Fin(claims[k].start), opposing[k]) { conflict := true; }
    }
  }

  lemma ClaimOrder()
    ensures TotalPreorder(ClaimLe)
  {
  }

  lemma SortedScopes(claims: seq<Claim>)
    requires SortedBy(claims, ClaimLe)
    ensures ScopesContiguous(claims)
  {
    forall i, j, k | 0 <= i < j < k < |claims| && claims[i].scope == claims[k].scope
      ensures claims[j].scope == claims[k].scope
    {
      assert ClaimLe(claims[i], claims[j]) && ClaimLe(claims[j], claims[k]);
    }
  }

  ghost predicate OpposingAt(claims: seq<Claim>, i: nat, j: nat) {
    i < j < |claims| && Opposing(claims[i], claims[j])
  }

  lemma OpposingHasPositions(claims: seq<Claim>)
    ensures HasOpposing(claims) <==> exists i: nat, j: nat :: OpposingAt(claims, i, j)
  {
    if HasOpposing(claims) {
      var a, b :| a in claims && b in claims && Opposing(a, b);
      var i: nat :| i < |claims| && claims[i] == a;
      var j: nat :| j < |claims| && claims[j] == b;
      assert OpposingAt(claims, i, j) || OpposingAt(claims, j, i);
    }
  }

  /** In sorted order, starting inside an earlier claim is overlapping it. */
  lemma InsideIsOpposing(claims: seq<Claim>, levels: seq<int>, k: nat)
    requires SortedBy(claims, ClaimLe) && k < |claims|
    requires forall i :: 0 <= i < |claims| ==> claims[i].state in levels
    requires Lt(Fin(claims[k].start), claims[k].end)
    ensures StartsInside(claims, k, levels) <==> exists j: nat :: OpposingAt(claims, j, k)
  {
    if StartsInside(claims, k, levels) {
      var j :| 0 <= j < k && claims[j].scope == claims[k].scope && claims[j].state != claims[k].state
               && claims[j].state in levels && Lt(Fin(claims[k].start), claims[j].end);
      assert ClaimLe(claims[j], claims[k]);
      assert OpposingAt(claims, j, k);
    }
  }

  ghost predicate AllValid(claims: seq<Claim>) {
    forall i :: 0 <= i < |claims| ==> Lt(Fin(claims[i].start), claims[i].end)
  }

  lemma SortedHits(claims: seq<Claim>, levels: seq<int>)
    requires SortedBy(claims, ClaimLe) && AllValid(claims)
    requires forall i :: 0 <= i < |claims| ==> claims[i].state in levels
    ensures HasOpposing(claims) <==> exists k: nat :: k < |claims| && StartsInside(claims, k, levels)
  {
    OpposingHasPositions(claims);
    if HasOpposing(claims) {
      var i: nat, j: nat :| OpposingAt(claims, i, j);
      InsideIsOpposing(claims, levels, j);
    }
    if k: nat :| k < |claims| && StartsInside(claims, k, levels) {
      InsideIsOpposing(claims, levels, k);
    }
  }

  lemma SortingKeepsOpposing(claims: seq<Claim>)
    requires AllValid(claims)
    ensures SortedBy(Sort(claims, ClaimLe), ClaimLe)
    ensures AllValid(Sort(claims, ClaimLe))
    ensures HasOpposing(Sort(claims, ClaimLe)) <==> HasOpposing(claims)
  {
    ClaimOrder();
    SortSorted(claims, ClaimLe);
    SortMembers(claims, ClaimLe);
    var ordered := Sort(claims, ClaimLe);
    forall i | 0 <= i < |ordered| ensures Lt(Fin(ordered[i].start), ordered[i].end) {
      assert ordered[i] in ordered;
    }
  }

  /** On valid intervals the sweep decides whether two opposing claims overlap. */
  method OpposingOverlap(claims: seq<Claim>) returns (conflict: bool)
    requires AllValid(claims)
    ensures conflict <==> HasOpposing(claims)
  {
    if |claims| < 2 {
      OpposingHasPositions(claims);
      return false;
    }
    var ordered := Sort(claims, ClaimLe);
    SortingKeepsOpposing(claims);
    SortedScopes(ordered);
    SortedHits(ordered, States(ordered));
    conflict := SweepSorted(ordered, States(ordered));
  }
}
