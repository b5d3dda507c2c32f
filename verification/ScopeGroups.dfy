/** `ledgr_fact_scope_group`: numbers rows so that two rows share a number exactly
    when they share a scope. */
module ScopeGroups {
  import opened Ordering

  type Scope = (int, int, int)

  predicate ScopeLess(a: Scope, b: Scope) {
    a.0 < b.0 || (a.0 == b.0 && (a.1 < b.1 || (a.1 == b.1 && a.2 < b.2)))
  }

  predicate ScopeLe(a: Scope, b: Scope) { !ScopeLess(b, a) }

  function ScopeAt(scopes: seq<Scope>, i: nat): Scope {
    if i < |scopes| then scopes[i] else (0, 0, 0)
  }

  function ByScope(scopes: seq<Scope>): (nat, nat) -> bool {
    (i: nat, j: nat) => ScopeLe(ScopeAt(scopes, i), ScopeAt(scopes, j))
  }

  ghost predicate IsOrder(scopes: seq<Scope>, order: seq<nat>) {
    && |order| == |scopes|
    && Distinct(order)
    && (forall k :: 0 <= k < |order| ==> order[k] < |scopes|)
    && (forall i: nat :: i < |scopes| ==> i in order)
    && forall a, b :: 0 <= a < b < |order| ==> ScopeLe(scopes[order[a]], scopes[order[b]])
  }

  lemma OrderIsSorted(scopes: seq<Scope>)
    ensures IsOrder(scopes, Sort(Range(|scopes|), ByScope(scopes)))
  {
    var rows := Range(|scopes|);
    var order := Sort(rows, ByScope(scopes));
    SortMultiset(rows, ByScope(scopes));
    SortDistinct(rows, ByScope(scopes));
    SortMembers(rows, ByScope(scopes));
    SortSorted(rows, ByScope(scopes));
    forall k | 0 <= k < |order| ensures order[k] < |scopes| { assert order[k] in rows; }
    forall i: nat | i < |scopes| ensures i in order { assert rows[i] == i; }
    forall a, b | 0 <= a < b < |order| ensures ScopeLe(scopes[order[a]], scopes[order[b]]) {
      assert ByScope(scopes)(order[a], order[b]);
    }
  }

  /** The first `k` rows in order are grouped by scope. */
  ghost predicate Grouped(scopes: seq<Scope>, order: seq<nat>, ordered: seq<nat>, k: nat)
    requires IsOrder(scopes, order) && k <= |ordered| <= |order|
  {
    forall a, b :: 0 <= a < k && 0 <= b < k ==> (ordered[a] == ordered[b] <==> scopes[order[a]] == scopes[order[b]])
  }

  lemma NewScope(scopes: seq<Scope>, order: seq<nat>, k: nat)
    requires IsOrder(scopes, order) && 0 < k < |order|
    requires scopes[order[k - 1]] != scopes[order[k]]
    ensures forall a :: 0 <= a < k ==> scopes[order[a]] != scopes[order[k]]
  {
    forall a | 0 <= a < k ensures scopes[order[a]] != scopes[order[k]] {
      assert ScopeLe(scopes[order[k - 1]], scopes[order[k]]);
      if a < k - 1 { assert ScopeLe(scopes[order[a]], scopes[order[k - 1]]); }
    }
  }

  ghost predicate IsScopeGroup(scopes: seq<Scope>, group: seq<nat>) {
    && |group| == |scopes|
    && (forall i :: 0 <= i < |group| ==> 1 <= group[i] <= |group|)
    && forall i, j :: 0 <= i < |group| && 0 <= j < |group| ==> (group[i] == group[j] <==> scopes[i] == scopes[j])
  }

  lemma GroupedIsScopeGroup(scopes: seq<Scope>, order: seq<nat>, ordered: seq<nat>, group: seq<nat>)
    requires IsOrder(scopes, order) && |group| == |ordered| == |scopes| && Grouped(scopes, order, ordered, |order|)
    requires forall a :: 0 <= a < |order| ==> 1 <= ordered[a] <= |order|
    requires forall a: nat :: a < |order| ==> group[order[a]] == ordered[a]
    ensures IsScopeGroup(scopes, group)
  {
    forall i: nat, j: nat | i < |group| && j < |group|
      ensures 1 <= group[i] <= |group| && (group[i] == group[j] <==> scopes[i] == scopes[j])
    {
      assert i in order && j in order;
      var a :| 0 <= a < |order| && order[a] == i;
      var b :| 0 <= b < |order| && order[b] == j;
    }
  }

  method ScopeGroup(scopes: seq<Scope>) returns (group: seq<nat>)
    ensures IsScopeGroup(scopes, group)
  {
    var n := |scopes|;
    var order := Sort(Range(n), ByScope(scopes));
    OrderIsSorted(scopes);
    var ordered: seq<nat> := [];
    var counter := 0;
    for k := 0 to n
      invariant |ordered| == k && counter <= k
      invariant forall a :: 0 <= a < k ==> 1 <= ordered[a] <= counter
      invariant k > 0 ==> ordered[k - 1] == counter
      invariant Grouped(scopes, order, ordered, k)
    {
      if k == 0 || scopes[order[k - 1]] != scopes[order[k]] {
        counter := counter + 1;
        if k > 0 { NewScope(scopes, order, k); }
      }
      ordered := ordered + [counter];
    }
    group := AssignAt(seq(n, _ => 0), order, ordered);
    GroupedIsScopeGroup(scopes, order, ordered, group);
  }
}
