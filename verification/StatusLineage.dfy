/** `ledgr_status_lineage`: the breadth-first walk over correction chains that
    computes preorder entry and exit numbers, and refuses cycles. */
module StatusLineage {
  import opened Wrappers
  import opened Ordering
  import opened Cardinality
  import opened Forest

  datatype Lineage = Lineage(parent: Parents, entry: seq<nat>, exit: seq<int>)

  /** The rows whose parent is `p`; `None` asks for the roots. */
  function Under(parent: Parents, p: Option<nat>): nat -> bool {
    (i: nat) => i < |parent| && parent[i] == p
  }

  function Children(parent: Parents, p: Option<nat>): seq<nat> {
    Filter<nat>(Range(|parent|), Under(parent, p))
  }

  lemma ChildrenMembers(parent: Parents, p: Option<nat>)
    ensures forall i: nat :: i in Children(parent, p) <==> i < |parent| && parent[i] == p
    ensures forall k :: 0 <= k < |Children(parent, p)| ==> Under(parent, p)(Children(parent, p)[k])
  {
    var rows := Children(parent, p);
    forall k | 0 <= k < |rows| ensures rows[k] in rows {}
    FilterMembers<nat>(Range(|parent|), Under(parent, p));
    forall i: nat | i < |parent| ensures i in Range(|parent|) {
      assert Range(|parent|)[i] == i;
    }
  }

  function HasParent(parent: Parents): nat -> bool {
    (i: nat) => i < |parent| && parent[i].Some?
  }

  function ParentKey(parent: Parents, i: nat): int {
    if i < |parent| && parent[i].Some? then parent[i].value else -1
  }

  function ByParent(parent: Parents): (nat, nat) -> bool {
    (i: nat, j: nat) => ParentKey(parent, i) <= ParentKey(parent, j)
  }

  function Below(parent: Parents, p: nat): nat -> bool {
    (i: nat) => ParentKey(parent, i) < p
  }

  // ---- children in compressed rows --------------------------------------

  function SortedLinks(parent: Parents): seq<nat> {
    Sort<nat>(Filter<nat>(Range(|parent|), HasParent(parent)), ByParent(parent))
  }

  lemma LinksSorted(parent: Parents)
    ensures SortedBy(SortedLinks(parent), ByParent(parent))
    ensures forall i :: 0 <= i < |SortedLinks(parent)| ==> HasParent(parent)(SortedLinks(parent)[i])
  {
    var linked := Filter<nat>(Range(|parent|), HasParent(parent));
    SortSorted<nat>(linked, ByParent(parent));
    SortMembers<nat>(linked, ByParent(parent));
    FilterMembers<nat>(Range(|parent|), HasParent(parent));
    forall i | 0 <= i < |SortedLinks(parent)| ensures HasParent(parent)(SortedLinks(parent)[i]) {
      assert SortedLinks(parent)[i] in linked;
    }
  }

  /** The sorted links restricted to one parent are its children in row order. */
  lemma LinksUnder(parent: Parents, p: nat)
    ensures Filter<nat>(SortedLinks(parent), Under(parent, Some(p))) == Children(parent, Some(p))
  {
    var linked := Filter<nat>(Range(|parent|), HasParent(parent));
    SortFilter<nat>(linked, ByParent(parent), Under(parent, Some(p)));
    FilterTwice<nat>(Range(|parent|), HasParent(parent), Under(parent, Some(p)));
    ChildrenMembers(parent, Some(p));
    SortConstant<nat>(Children(parent, Some(p)), ByParent(parent));
  }

  ghost function Offset(parent: Parents, p: nat): nat
    requires SortedBy(SortedLinks(parent), ByParent(parent))
  {
    FindInterval<nat>(SortedLinks(parent), Below(parent, p))
  }

  lemma OffsetZero(parent: Parents)
    requires SortedBy(SortedLinks(parent), ByParent(parent))
    ensures Offset(parent, 0) == 0
  {
    LinksSorted(parent);
    CountPrefix<nat>(SortedLinks(parent), Below(parent, 0), 0);
    CountPrefix<nat>(SortedLinks(parent), Below(parent, 0), Offset(parent, 0));
  }

  lemma ChildrenSlice(parent: Parents, p: nat)
    requires SortedBy(SortedLinks(parent), ByParent(parent))
    ensures Offset(parent, p) <= Offset(parent, p + 1)
    ensures SortedLinks(parent)[Offset(parent, p)..Offset(parent, p + 1)] == Children(parent, Some(p))
  {
    var child := SortedLinks(parent);
    LinksSorted(parent);
    FindIntervalMonotone<nat>(child, Below(parent, p), Below(parent, p + 1));
    var from, to := Offset(parent, p), Offset(parent, p + 1);
    forall i | 0 <= i < |child| ensures Under(parent, Some(p))(child[i]) <==> from <= i < to {
      assert Below(parent, p)(child[i]) <==> i < from;
      assert Below(parent, p + 1)(child[i]) <==> i < to;
      assert HasParent(parent)(child[i]);
    }
    FilterIsSlice<nat>(child, Under(parent, Some(p)), from, to);
    LinksUnder(parent, p);
  }

  ghost predicate HoldsChildren(parent: Parents, child: seq<nat>, from: nat, count: nat, p: nat) {
    && 1 <= from && from - 1 + count <= |child|
    && child[from - 1..from - 1 + count] == Children(parent, Some(p))
  }

  ghost predicate ChildTable(parent: Parents, child: seq<nat>, start: seq<nat>, count: seq<nat>) {
    && |start| == |count| == |parent|
    && forall p :: 0 <= p < |parent| ==> HoldsChildren(parent, child, start[p], count[p], p)
  }

  lemma ChildrenAtOffset(parent: Parents, p: nat)
    requires Valid(parent) && SortedBy(SortedLinks(parent), ByParent(parent))
    ensures Offset(parent, p + 1) == Offset(parent, p) + |Children(parent, Some(p))|
    ensures HoldsChildren(parent, SortedLinks(parent), Offset(parent, p) + 1, |Children(parent, Some(p))|, p)
  {
    ChildrenSlice(parent, p);
  }

  /** `child`, `child_start`, `child_count`: each row's children as one slice. */
  method BuildChildren(parent: Parents) returns (child: seq<nat>, start: seq<nat>, count: seq<nat>)
    requires Valid(parent)
    ensures ChildTable(parent, child, start, count)
  {
    var n := |parent|;
    child := SortedLinks(parent);
    count := seq(n, p requires 0 <= p < n => |Children(parent, Some(p))|);
    start := [];
    var total := 0;
    LinksSorted(parent);
    OffsetZero(parent);
    for p := 0 to n
      invariant |start| == p
      invariant total == Offset(parent, p)
      invariant forall q :: 0 <= q < p ==> HoldsChildren(parent, child, start[q], count[q], q)
    {
      ChildrenAtOffset(parent, p);
      start := start + [total + 1];
      total := total + count[p];
    }
  }

  // ---- levels ----------------------------------------------------------

  /** The children of a whole level, grouped by parent in level order. */
  ghost function Descend(parent: Parents, level: seq<nat>): seq<nat> {
    if level == [] then []
    else Descend(parent, level[..|level| - 1]) + Children(parent, Some(level[|level| - 1]))
  }

  ghost function LevelAt(parent: Parents, depth: nat): seq<nat> {
    if depth == 0 then Children(parent, None) else Descend(parent, LevelAt(parent, depth - 1))
  }

  lemma {:induction false} DescendMembers(parent: Parents, level: seq<nat>, i: nat)
    ensures i in Descend(parent, level)
       <==> i < |parent| && parent[i].Some? && parent[i].value in level
  {
    if level != [] {
      var front, last := level[..|level| - 1], level[|level| - 1];
      DescendMembers(parent, front, i);
      assert level == front + [last];
      ChildrenMembers(parent, Some(last));
    }
  }

  lemma LastNotInFront<T>(s: seq<T>)
    requires Distinct(s) && s != []
    ensures s[|s| - 1] !in s[..|s| - 1]
  {
  }

  lemma {:induction false} DescendDistinct(parent: Parents, level: seq<nat>)
    requires Distinct(level)
    ensures Distinct(Descend(parent, level))
  {
    if level != [] {
      var front, last := level[..|level| - 1], level[|level| - 1];
      DescendDistinct(parent, front);
      FilterDistinct<nat>(Range(|parent|), Under(parent, Some(last)));
      var head, tail := Descend(parent, front), Children(parent, Some(last));
      ChildrenMembers(parent, Some(last));
      forall i, j | 0 <= i < |head| && 0 <= j < |tail| ensures head[i] != tail[j] {
        assert head[i] in head && tail[j] in tail;
        DescendMembers(parent, front, head[i]);
        if parent[head[i]] == Some(last) { LastNotInFront(level); }
      }
    }
  }

  /** Restricted to one parent, the next level lists its children in row order. */
  lemma {:induction false} DescendFilter(parent: Parents, level: seq<nat>, v: nat)
    requires Distinct(level)
    ensures Filter(Descend(parent, level), Under(parent, Some(v)))
         == if v in level then Children(parent, Some(v)) else []
  {
    if level != [] {
      var front, last := level[..|level| - 1], level[|level| - 1];
      assert level == front + [last];
      DescendFilter(parent, front, v);
      ChildrenMembers(parent, Some(last));
      FilterConcat<nat>(Descend(parent, front), Children(parent, Some(last)), Under(parent, Some(v)));
      if v == last {
        FilterAll<nat>(Children(parent, Some(last)), Under(parent, Some(v)));
      } else {
        forall i | 0 <= i < |Children(parent, Some(last))|
          ensures !Under(parent, Some(v))(Children(parent, Some(last))[i])
        {
          var x := Children(parent, Some(last))[i];
          assert x in Children(parent, Some(last));
        }
        FilterNone<nat>(Children(parent, Some(last)), Under(parent, Some(v)));
      }
    }
  }

  /** Nodes with one parent form one run. */
  ghost predicate Grouped(parent: Parents, nodes: seq<nat>) {
    && (forall i :: 0 <= i < |nodes| ==> nodes[i] < |parent|)
    && forall i, j, k :: 0 <= i < j < k < |nodes| && parent[nodes[i]] == parent[nodes[k]] ==>
         parent[nodes[j]] == parent[nodes[k]]
  }

  lemma {:induction false} DescendGrouped(parent: Parents, level: seq<nat>)
    requires Distinct(level)
    ensures Grouped(parent, Descend(parent, level))
  {
    if level != [] {
      var front, last := level[..|level| - 1], level[|level| - 1];
      var head, tail := Descend(parent, front), Children(parent, Some(last));
      DescendGrouped(parent, front);
      ChildrenMembers(parent, Some(last));
      forall i | 0 <= i < |tail| ensures tail[i] < |parent| && parent[tail[i]] == Some(last) {
        assert tail[i] in tail;
      }
      forall i | 0 <= i < |head| ensures parent[head[i]] != Some(last) {
        assert head[i] in head;
        DescendMembers(parent, front, head[i]);
      }
    }
  }

  lemma {:induction false} LevelExact(parent: Parents, depth: nat)
    requires Valid(parent)
    ensures Distinct(LevelAt(parent, depth))
    ensures forall i: nat :: i in LevelAt(parent, depth) <==> i < |parent| && RootedAt(parent, i, depth)
    decreases depth
  {
    if depth == 0 {
      FilterDistinct<nat>(Range(|parent|), Under(parent, None));
      ChildrenMembers(parent, None);
      forall i: nat ensures i in LevelAt(parent, 0) <==> i < |parent| && RootedAt(parent, i, 0) {
        if i < |parent| {
          RootedParent(parent, i, 0);
        }
      }
    } else {
      LevelExact(parent, depth - 1);
      DescendDistinct(parent, LevelAt(parent, depth - 1));
      forall i: nat ensures i in LevelAt(parent, depth) <==> i < |parent| && RootedAt(parent, i, depth) {
        DescendMembers(parent, LevelAt(parent, depth - 1), i);
        if i < |parent| {
          RootedParent(parent, i, depth - 1);
          if parent[i].None? && RootedAt(parent, i, depth) { RootedOnce(parent, i, 0, depth); }
        }
      }
    }
  }

  lemma DepthBound(parent: Parents, i: nat, d: nat)
    requires Valid(parent) && i < |parent| && RootedAt(parent, i, d)
    ensures d < |parent|
  {
    forall k: nat | k <= d ensures Up(parent, i, k).Some? { RootedLift(parent, i, d, k); }
    var path := seq(d + 1, k requires 0 <= k <= d => Up(parent, i, k).value);
    forall a, b | 0 <= a < b <= d ensures path[a] != path[b] {
      RootedLift(parent, i, d, a);
      RootedLift(parent, i, d, b);
      if path[a] == path[b] { RootedOnce(parent, path[a], d - a, d - b); }
    }
    Pigeonhole(path, |parent|);
  }

  method NextLevel(parent: Parents, level: seq<nat>, child: seq<nat>, start: seq<nat>, count: seq<nat>)
    returns (next: seq<nat>)
    requires ChildTable(parent, child, start, count)
    requires forall i :: 0 <= i < |level| ==> level[i] < |parent|
    ensures next == Descend(parent, level)
  {
    next := [];
    for i := 0 to |level|
      invariant next == Descend(parent, level[..i])
    {
      var p := level[i];
      assert level[..i + 1][..i] == level[..i];
      assert HoldsChildren(parent, child, start[p], count[p], p);
      if count[p] > 0 {
        next := next + child[start[p] - 1..start[p] - 1 + count[p]];
      } else {
        assert Children(parent, Some(p)) == [];
      }
    }
    assert level[..|level|] == level;
  }

  lemma NothingDeeper(parent: Parents, i: nat, depth: nat, d: nat)
    requires Valid(parent) && i < |parent| && LevelAt(parent, depth) == []
    requires RootedAt(parent, i, d)
    ensures d < depth
  {
    if d >= depth {
      RootedLift(parent, i, d, d - depth);
      LevelExact(parent, depth);
      assert false;
    }
  }

  ghost predicate FoundIn(found: seq<seq<nat>>, i: nat) {
    exists d :: 0 <= d < |found| && i in found[d]
  }

  ghost predicate AreLevels(parent: Parents, found: seq<seq<nat>>) {
    forall d :: 0 <= d < |found| ==> found[d] == LevelAt(parent, d)
  }

  method MarkReached(reached: seq<bool>, level: seq<nat>) returns (marked: seq<bool>)
    requires forall i :: 0 <= i < |level| ==> level[i] < |reached|
    ensures |marked| == |reached|
    ensures forall i: nat :: i < |reached| ==> (marked[i] <==> reached[i] || i in level)
  {
    marked := reached;
    for k := 0 to |level|
      invariant |marked| == |reached|
      invariant forall i: nat :: i < |reached| ==> (marked[i] <==> reached[i] || i in level[..k])
    {
      assert level[..k + 1] == level[..k] + [level[k]];
      marked := marked[level[k] := true];
    }
    assert level[..|level|] == level;
  }

  /** The level-by-level walk; `None` when some row is never reached. */
  method Walk(parent: Parents) returns (levels: Option<seq<seq<nat>>>)
    requires Valid(parent)
    ensures levels.Some? <==> Acyclic(parent)
    ensures levels.Some? ==> AreLevels(parent, levels.value) && LevelAt(parent, |levels.value|) == []
  {
    var n := |parent|;
    var child, start, count := BuildChildren(parent);
    var level := Children(parent, None);
    var reached := seq(n, _ => false);
    var found: seq<seq<nat>> := [];
    while level != []
      invariant |reached| == n
      invariant level == LevelAt(parent, |found|)
      invariant AreLevels(parent, found)
      invariant forall i: nat :: i < n ==> (reached[i] <==> FoundIn(found, i))
      decreases n - |found|
    {
      LevelInRange(parent, |found|);
      reached := MarkReached(reached, level);
      FoundInExtended(found, level);
      found := found + [level];
      level := NextLevel(parent, level, child, start, count);
    }
    ReachedMeansRooted(parent, found);
    if forall i :: 0 <= i < n ==> reached[i] {
      levels := Some(found);
    } else {
      levels := None;
    }
  }

  lemma FoundInExtended(found: seq<seq<nat>>, level: seq<nat>)
    ensures forall i: nat :: FoundIn(found + [level], i) <==> FoundIn(found, i) || i in level
  {
    forall i: nat ensures FoundIn(found + [level], i) <==> FoundIn(found, i) || i in level {
      if i in level { assert i in (found + [level])[|found|]; }
      if FoundIn(found, i) {
        var d :| 0 <= d < |found| && i in found[d];
        assert i in (found + [level])[d];
      }
    }
  }

  lemma LevelInRange(parent: Parents, depth: nat)
    requires Valid(parent)
    ensures forall i :: 0 <= i < |LevelAt(parent, depth)| ==> LevelAt(parent, depth)[i] < |parent|
    ensures LevelAt(parent, depth) != [] ==> depth < |parent|
  {
    LevelExact(parent, depth);
    var level := LevelAt(parent, depth);
    forall i | 0 <= i < |level| ensures level[i] < |parent| {
      assert level[i] in level;
    }
    if level != [] {
      assert level[0] in level;
      DepthBound(parent, level[0], depth);
    }
  }

  lemma RootedMeansFound(parent: Parents, found: seq<seq<nat>>, i: nat)
    requires Valid(parent) && LevelAt(parent, |found|) == [] && i < |parent|
    requires AreLevels(parent, found)
    ensures Rooted(parent, i) <==> FoundIn(found, i)
  {
    if Rooted(parent, i) {
      var d: nat :| RootedAt(parent, i, d);
      NothingDeeper(parent, i, |found|, d);
      LevelExact(parent, d);
      assert i in found[d];
    }
    if FoundIn(found, i) {
      var d :| 0 <= d < |found| && i in found[d];
      LevelExact(parent, d);
    }
  }

  lemma ReachedMeansRooted(parent: Parents, found: seq<seq<nat>>)
    requires Valid(parent) && LevelAt(parent, |found|) == []
    requires AreLevels(parent, found)
    ensures Acyclic(parent) <==> forall i: nat :: i < |parent| ==> FoundIn(found, i)
  {
    AcyclicIsRooted(parent);
    forall i: nat | i < |parent| ensures Rooted(parent, i) <==> FoundIn(found, i) {
      RootedMeansFound(parent, found, i);
    }
  }
}
