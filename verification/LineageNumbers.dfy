/** The numbering half of `ledgr_status_lineage`: subtree sizes bottom-up, entry
    numbers top-down, both read from each level as runs of siblings. */
module LineageNumbers {
  import opened Wrappers
  import opened Ordering
  import opened Forest
  import opened StatusLineage

  ghost predicate InRange(parent: Parents, nodes: seq<nat>) {
    forall i :: 0 <= i < |nodes| ==> nodes[i] < |parent|
  }

  /** Total size of the first `k` nodes whose parent is `p`. */
  ghost function RunSum(parent: Parents, size: seq<nat>, nodes: seq<nat>, p: Option<nat>, k: nat): nat
    requires |size| == |parent| && InRange(parent, nodes) && k <= |nodes|
  {
    if k == 0 then 0
    else RunSum(parent, size, nodes, p, k - 1) + if parent[nodes[k - 1]] == p then size[nodes[k - 1]] else 0
  }

  ghost function SumOver(size: seq<nat>, rows: seq<nat>): nat
    requires forall i :: 0 <= i < |rows| ==> rows[i] < |size|
  {
    if rows == [] then 0 else SumOver(size, rows[..|rows| - 1]) + size[rows[|rows| - 1]]
  }

  function Siblings(parent: Parents, nodes: seq<nat>, p: Option<nat>): seq<nat> {
    Filter<nat>(nodes, Under(parent, p))
  }

  lemma SiblingsInRange(parent: Parents, nodes: seq<nat>, p: Option<nat>)
    ensures InRange(parent, Siblings(parent, nodes, p))
  {
    var rows := Siblings(parent, nodes, p);
    FilterMembers<nat>(nodes, Under(parent, p));
    forall i | 0 <= i < |rows| ensures rows[i] < |parent| { assert rows[i] in rows; }
  }

  lemma SiblingsSnoc(parent: Parents, nodes: seq<nat>, p: Option<nat>, x: nat)
    requires x < |parent|
    ensures Siblings(parent, nodes + [x], p)
         == Siblings(parent, nodes, p) + if parent[x] == p then [x] else []
  {
    FilterConcat<nat>(nodes, [x], Under(parent, p));
  }

  lemma SumOverSnoc(parent: Parents, size: seq<nat>, rows: seq<nat>, x: nat)
    requires |size| == |parent| && InRange(parent, rows) && x < |parent|
    ensures InRange(parent, rows + [x])
    ensures SumOver(size, rows + [x]) == SumOver(size, rows) + size[x]
  {
    assert (rows + [x])[..|rows|] == rows;
  }

  lemma {:induction false} RunSumIsFilterSum(parent: Parents, size: seq<nat>, nodes: seq<nat>, p: Option<nat>, k: nat)
    requires |size| == |parent| && InRange(parent, nodes) && k <= |nodes|
    ensures InRange(parent, Siblings(parent, nodes[..k], p))
    ensures RunSum(parent, size, nodes, p, k) == SumOver(size, Siblings(parent, nodes[..k], p))
    decreases k
  {
    SiblingsInRange(parent, nodes[..k], p);
    if k > 0 {
      var before := Siblings(parent, nodes[..k - 1], p);
      RunSumIsFilterSum(parent, size, nodes, p, k - 1);
      assert nodes[..k] == nodes[..k - 1] + [nodes[k - 1]];
      SiblingsSnoc(parent, nodes[..k - 1], p, nodes[k - 1]);
      SumOverSnoc(parent, size, before, nodes[k - 1]);
      assert before + [] == before;
    }
  }

  lemma {:induction false} SiblingSumIsRunSum(parent: Parents, size: seq<nat>, p: Option<nat>, k: nat)
    requires k <= |parent| == |size|
    ensures InRange(parent, Range(|parent|))
    ensures SiblingSum(parent, size, p, k) == RunSum(parent, size, Range(|parent|), p, k)
    decreases k
  {
    if k > 0 { SiblingSumIsRunSum(parent, size, p, k - 1); }
  }

  /** A level lists all children of `p`, in row order. */
  ghost predicate HoldsSiblings(parent: Parents, nodes: seq<nat>, p: Option<nat>) {
    Siblings(parent, nodes, p) == Children(parent, p)
  }

  lemma LevelSum(parent: Parents, size: seq<nat>, nodes: seq<nat>, p: Option<nat>)
    requires |size| == |parent| && InRange(parent, nodes) && HoldsSiblings(parent, nodes, p)
    ensures RunSum(parent, size, nodes, p, |nodes|) == SiblingSum(parent, size, p, |parent|)
  {
    RunSumIsFilterSum(parent, size, nodes, p, |nodes|);
    assert nodes[..|nodes|] == nodes;
    SiblingSumIsRunSum(parent, size, p, |parent|);
    RunSumIsFilterSum(parent, size, Range(|parent|), p, |parent|);
    assert Range(|parent|)[..|parent|] == Range(|parent|);
  }

  lemma SplitAround<T(!new)>(s: seq<T>, k: nat, p: T -> bool)
    requires k < |s| && p(s[k])
    ensures Filter(s, p) == Filter(s[..k], p) + [s[k]] + Filter(s[k + 1..], p)
  {
    hide Filter;
    assert s == s[..k] + ([s[k]] + s[k + 1..]);
    FilterConcat(s[..k], [s[k]] + s[k + 1..], p);
    FilterAppend(s[k], s[k + 1..], p);
  }

  lemma SamePosition<T>(a: seq<T>, b: seq<T>, x: T, c: seq<T>, d: seq<T>)
    requires a + [x] + b == c + [x] + d && Distinct(a + [x] + b)
    ensures a == c
  {
    var s := a + [x] + b;
    assert s[|a|] == x && s[|c|] == x;
    assert |a| == |c|;
    assert a == s[..|a|] && c == s[..|c|];
  }

  lemma SameEarlierSiblings(parent: Parents, nodes: seq<nat>, k: nat)
    requires InRange(parent, nodes) && k < |nodes|
    requires HoldsSiblings(parent, nodes, parent[nodes[k]])
    ensures Siblings(parent, nodes[..k], parent[nodes[k]])
         == Siblings(parent, Range(|parent|)[..nodes[k]], parent[nodes[k]])
  {
    var c, p := nodes[k], parent[nodes[k]];
    var rows := Range(|parent|);
    SplitAround<nat>(nodes, k, Under(parent, p));
    SplitAround<nat>(rows, c, Under(parent, p));
    FilterDistinct<nat>(rows, Under(parent, p));
    SamePosition(Siblings(parent, nodes[..k], p), Siblings(parent, nodes[k + 1..], p), c,
                 Siblings(parent, rows[..c], p), Siblings(parent, rows[c + 1..], p));
  }

  /** The nodes before `c` in its level, under its parent, are its earlier siblings. */
  lemma EarlierSiblings(parent: Parents, size: seq<nat>, nodes: seq<nat>, k: nat)
    requires |size| == |parent| && InRange(parent, nodes) && k < |nodes|
    requires HoldsSiblings(parent, nodes, parent[nodes[k]])
    ensures RunSum(parent, size, nodes, parent[nodes[k]], k)
         == SiblingSum(parent, size, parent[nodes[k]], nodes[k])
  {
    SameEarlierSiblings(parent, nodes, k);
    RunSumIsFilterSum(parent, size, nodes, parent[nodes[k]], k);
    SiblingSumIsRunSum(parent, size, parent[nodes[k]], nodes[k]);
    RunSumIsFilterSum(parent, size, Range(|parent|), parent[nodes[k]], nodes[k]);
  }

  // ---- runs of siblings --------------------------------------------------

  lemma {:induction false} NoEarlierRun(parent: Parents, size: seq<nat>, nodes: seq<nat>, p: Option<nat>, k: nat)
    requires |size| == |parent| && InRange(parent, nodes) && k <= |nodes|
    requires forall j :: 0 <= j < k ==> parent[nodes[j]] != p
    ensures RunSum(parent, size, nodes, p, k) == 0
  {
    if k > 0 { NoEarlierRun(parent, size, nodes, p, k - 1); }
  }

  /** Position `k` continues the run of siblings that `k - 1` belongs to. */
  ghost predicate Continues(parent: Parents, nodes: seq<nat>, k: nat)
    requires InRange(parent, nodes)
  {
    0 < k < |nodes| && parent[nodes[k - 1]] == parent[nodes[k]]
  }

  lemma RunStartsFresh(parent: Parents, size: seq<nat>, nodes: seq<nat>, k: nat)
    requires |size| == |parent| && Grouped(parent, nodes) && k < |nodes|
    requires !Continues(parent, nodes, k)
    ensures RunSum(parent, size, nodes, parent[nodes[k]], k) == 0
  {
    forall j | 0 <= j < k ensures parent[nodes[j]] != parent[nodes[k]] {
      if parent[nodes[j]] == parent[nodes[k]] {
        if j < k - 1 { assert false; }
      }
    }
    NoEarlierRun(parent, size, nodes, parent[nodes[k]], k);
  }

  /** Adds each run's total size to the run's parent. */
  method AddRunTotals(parent: Parents, nodes: seq<nat>, size: seq<nat>) returns (out: seq<nat>)
    requires |size| == |parent| && Valid(parent) && Grouped(parent, nodes)
    requires forall i :: 0 <= i < |nodes| ==> parent[nodes[i]].Some?
    ensures |out| == |size|
    ensures forall v: nat :: v < |size| ==>
      out[v] == size[v] + RunSum(parent, size, nodes, Some(v), |nodes|)
  {
    out := size;
    var total := 0;
    for k := 0 to |nodes|
      invariant |out| == |size|
      invariant Continues(parent, nodes, k) ==>
        && total == RunSum(parent, size, nodes, parent[nodes[k]], k)
        && out[parent[nodes[k]].value] == size[parent[nodes[k]].value]
      invariant !Continues(parent, nodes, k) ==> total == 0
      invariant forall v: nat :: v < |size| && !(Continues(parent, nodes, k) && parent[nodes[k]] == Some(v)) ==>
        out[v] == size[v] + RunSum(parent, size, nodes, Some(v), k)
    {
      if !Continues(parent, nodes, k) { RunStartsFresh(parent, size, nodes, k); }
      var owner := parent[nodes[k]].value;
      total := total + size[nodes[k]];
      if k + 1 == |nodes| || parent[nodes[k + 1]] != parent[nodes[k]] {
        out := out[owner := size[owner] + total];
        total := 0;
      }
    }
  }

  /** The number of the `k`-th node: after its parent and the earlier runs under it. */
  ghost function NumberOf(parent: Parents, size: seq<nat>, nodes: seq<nat>, entry: seq<nat>, k: nat): nat
    requires |entry| == |size| == |parent| && Valid(parent) && InRange(parent, nodes) && k < |nodes|
  {
    (if parent[nodes[k]].Some? then entry[parent[nodes[k]].value] + 1 else 1)
    + RunSum(parent, size, nodes, parent[nodes[k]], k)
  }

  ghost function Numbers(parent: Parents, size: seq<nat>, nodes: seq<nat>, entry: seq<nat>): (r: seq<nat>)
    requires |entry| == |size| == |parent| && Valid(parent) && InRange(parent, nodes)
    ensures |r| == |nodes|
  {
    seq(|nodes|, k requires 0 <= k < |nodes| => NumberOf(parent, size, nodes, entry, k))
  }

  lemma NumberStep(parent: Parents, size: seq<nat>, nodes: seq<nat>, entry: seq<nat>, k: nat)
    requires |entry| == |size| == |parent| && Valid(parent) && InRange(parent, nodes) && k < |nodes|
    ensures var p, offset := parent[nodes[k]], RunSum(parent, size, nodes, parent[nodes[k]], k);
      && NumberOf(parent, size, nodes, entry, k) == (if p.Some? then entry[p.value] + 1 else 1) + offset
      && RunSum(parent, size, nodes, p, k + 1) == offset + size[nodes[k]]
  {
  }

  /** Numbers one level; the parents were numbered with the level above. */
  method NumberLevel(parent: Parents, nodes: seq<nat>, size: seq<nat>, entry: seq<nat>) returns (out: seq<nat>)
    requires |entry| == |size| == |parent| && Valid(parent) && Grouped(parent, nodes) && Distinct(nodes)
    ensures |out| == |entry|
    ensures forall v: nat :: v < |entry| && v !in nodes ==> out[v] == entry[v]
    ensures forall k: nat :: k < |nodes| ==> out[nodes[k]] == Numbers(parent, size, nodes, entry)[k]
  {
    hide RunSum, NumberOf;
    var offset := 0;
    var numbers: seq<nat> := [];
    for k := 0 to |nodes|
      invariant |numbers| == k
      invariant Continues(parent, nodes, k) ==> offset == RunSum(parent, size, nodes, parent[nodes[k]], k)
      invariant forall j: nat :: j < k ==> numbers[j] == NumberOf(parent, size, nodes, entry, j)
    {
      if k == 0 || parent[nodes[k - 1]] != parent[nodes[k]] {
        RunStartsFresh(parent, size, nodes, k);
        offset := 0;
      }
      NumberStep(parent, size, nodes, entry, k);
      var base := if parent[nodes[k]].Some? then entry[parent[nodes[k]].value] + 1 else 1;
      numbers := numbers + [base + offset];
      offset := offset + size[nodes[k]];
    }
    out := AssignAt(entry, nodes, numbers);
  }

  // ---- levels --------------------------------------------------------------

  lemma LevelShape(parent: Parents, depth: nat)
    requires Valid(parent)
    ensures Distinct(LevelAt(parent, depth)) && Grouped(parent, LevelAt(parent, depth))
    ensures depth > 0 ==> forall i :: 0 <= i < |LevelAt(parent, depth)| ==> parent[LevelAt(parent, depth)[i]].Some?
  {
    var level := LevelAt(parent, depth);
    LevelExact(parent, depth);
    if depth > 0 {
      LevelExact(parent, depth - 1);
      DescendGrouped(parent, LevelAt(parent, depth - 1));
      forall i | 0 <= i < |level| ensures parent[level[i]].Some? {
        assert level[i] in level;
        DescendMembers(parent, LevelAt(parent, depth - 1), level[i]);
      }
    } else {
      forall i | 0 <= i < |level| ensures level[i] < |parent| && parent[level[i]] == None {
        assert level[i] in level;
      }
    }
  }

  lemma LevelHoldsSiblings(parent: Parents, c: nat, depth: nat)
    requires Valid(parent) && c < |parent| && RootedAt(parent, c, depth)
    ensures HoldsSiblings(parent, LevelAt(parent, depth), parent[c])
  {
    RootedParent(parent, c, if depth == 0 then 0 else depth - 1);
    if depth == 0 {
      ChildrenMembers(parent, None);
      FilterAll<nat>(Children(parent, None), Under(parent, None));
    } else {
      if parent[c].None? { RootedOnce(parent, c, 0, depth); }
      LevelExact(parent, depth - 1);
      DescendFilter(parent, LevelAt(parent, depth - 1), parent[c].value);
    }
  }

  /** A level holds no child of a row that is not one level up. */
  lemma NoChildrenThere(parent: Parents, size: seq<nat>, v: nat, e: nat, depth: nat)
    requires Valid(parent) && |size| == |parent| && v < |parent|
    requires RootedAt(parent, v, e) && e + 1 != depth
    ensures InRange(parent, LevelAt(parent, depth))
    ensures RunSum(parent, size, LevelAt(parent, depth), Some(v), |LevelAt(parent, depth)|) == 0
  {
    var level := LevelAt(parent, depth);
    LevelInRange(parent, depth);
    LevelExact(parent, depth);
    forall j | 0 <= j < |level| ensures parent[level[j]] != Some(v) {
      assert level[j] in level;
      if parent[level[j]] == Some(v) {
        RootedParent(parent, level[j], e);
        RootedOnce(parent, level[j], e + 1, depth);
      }
    }
    NoEarlierRun(parent, size, level, Some(v), |level|);
  }

  lemma {:induction false} SiblingSumFrame(parent: Parents, a: seq<nat>, b: seq<nat>, p: Option<nat>, k: nat)
    requires k <= |parent| == |a| == |b|
    requires forall c :: 0 <= c < k && parent[c] == p ==> a[c] == b[c]
    ensures SiblingSum(parent, a, p, k) == SiblingSum(parent, b, p, k)
  {
    if k > 0 { SiblingSumFrame(parent, a, b, p, k - 1); }
  }

  /** Rows at `depth` and deeper have their final size; shallower ones still have 1. */
  ghost predicate SizedFrom(parent: Parents, size: seq<nat>, depth: nat)
    requires Valid(parent)
  {
    && |size| == |parent|
    && forall v: nat, e: nat :: v < |parent| && RootedAt(parent, v, e) ==>
         if e >= depth then SizeAt(parent, size, v) else size[v] == 1
  }

  lemma UntouchedAt(parent: Parents, size: seq<nat>, out: seq<nat>, depth: nat, v: nat, e: nat)
    requires Valid(parent) && |out| == |size| == |parent| && InRange(parent, LevelAt(parent, depth))
    requires forall v: nat :: v < |size| ==>
      out[v] == size[v] + RunSum(parent, size, LevelAt(parent, depth), Some(v), |LevelAt(parent, depth)|)
    requires v < |parent| && RootedAt(parent, v, e) && e + 1 != depth
    ensures out[v] == size[v]
  {
    NoChildrenThere(parent, size, v, e, depth);
  }

  lemma ChildrenUntouched(parent: Parents, size: seq<nat>, out: seq<nat>, depth: nat, v: nat, e: nat)
    requires Valid(parent) && |out| == |size| == |parent| && InRange(parent, LevelAt(parent, depth))
    requires forall v: nat :: v < |size| ==>
      out[v] == size[v] + RunSum(parent, size, LevelAt(parent, depth), Some(v), |LevelAt(parent, depth)|)
    requires v < |parent| && RootedAt(parent, v, e) && e + 1 >= depth
    ensures SiblingSum(parent, out, Some(v), |parent|) == SiblingSum(parent, size, Some(v), |parent|)
  {
    hide RunSum, LevelAt, RootedAt, SiblingSum;
    forall c | 0 <= c < |parent| && parent[c] == Some(v) ensures out[c] == size[c] {
      RootedParent(parent, c, e);
      UntouchedAt(parent, size, out, depth, c, e + 1);
    }
    SiblingSumFrame(parent, out, size, Some(v), |parent|);
  }

  lemma ParentsSized(parent: Parents, size: seq<nat>, depth: nat, v: nat)
    requires Valid(parent) && |size| == |parent| && InRange(parent, LevelAt(parent, depth + 1))
    requires v < |parent| && RootedAt(parent, v, depth)
    ensures RunSum(parent, size, LevelAt(parent, depth + 1), Some(v), |LevelAt(parent, depth + 1)|)
         == SiblingSum(parent, size, Some(v), |parent|)
  {
    LevelExact(parent, depth);
    DescendFilter(parent, LevelAt(parent, depth), v);
    LevelSum(parent, size, LevelAt(parent, depth + 1), Some(v));
  }

  lemma SizeStep(parent: Parents, size: seq<nat>, out: seq<nat>, depth: nat)
    requires Valid(parent) && SizedFrom(parent, size, depth + 1) && |out| == |size|
    requires InRange(parent, LevelAt(parent, depth + 1))
    requires forall v: nat :: v < |size| ==>
      out[v] == size[v] + RunSum(parent, size, LevelAt(parent, depth + 1), Some(v), |LevelAt(parent, depth + 1)|)
    ensures SizedFrom(parent, out, depth)
  {
    hide RunSum, LevelAt, RootedAt;
    forall v: nat, e: nat | v < |parent| && RootedAt(parent, v, e)
      ensures if e >= depth then SizeAt(parent, out, v) else out[v] == 1
    {
      if e == depth {
        ParentsSized(parent, size, depth, v);
        ChildrenUntouched(parent, size, out, depth + 1, v, e);
      } else {
        UntouchedAt(parent, size, out, depth + 1, v, e);
        if e > depth { ChildrenUntouched(parent, size, out, depth + 1, v, e); }
      }
    }
  }

  lemma DeepestSized(parent: Parents, size: seq<nat>, depth: nat)
    requires Valid(parent) && LevelAt(parent, depth + 1) == []
    requires |size| == |parent| && forall v :: 0 <= v < |size| ==> size[v] == 1
    ensures SizedFrom(parent, size, depth)
  {
    forall v: nat, e: nat | v < |parent| && RootedAt(parent, v, e) && e >= depth
      ensures SizeAt(parent, size, v)
    {
      NothingDeeper(parent, v, depth + 1, e);
      ParentsSized(parent, size, depth, v);
    }
  }

  method SizesBottomUp(parent: Parents, levels: seq<seq<nat>>) returns (size: seq<nat>)
    requires Valid(parent) && AreLevels(parent, levels) && LevelAt(parent, |levels|) == [] && |levels| > 0
    ensures SizedFrom(parent, size, 0)
  {
    size := seq(|parent|, _ => 1);
    DeepestSized(parent, size, |levels| - 1);
    var depth := |levels| - 1;
    while depth > 0
      invariant 0 <= depth < |levels|
      invariant SizedFrom(parent, size, depth)
    {
      LevelShape(parent, depth);
      var added := AddRunTotals(parent, levels[depth], size);
      SizeStep(parent, size, added, depth - 1);
      size := added;
      depth := depth - 1;
    }
  }

  /** Rows above `depth` have their final number. */
  ghost predicate NumberedAbove(parent: Parents, size: seq<nat>, entry: seq<nat>, depth: nat)
    requires Valid(parent)
  {
    && |entry| == |size| == |parent|
    && forall v: nat, e: nat :: v < |parent| && RootedAt(parent, v, e) && e < depth ==>
         EntryAt(parent, size, entry, v)
  }

  lemma OffLevel(parent: Parents, v: nat, e: nat, depth: nat)
    requires Valid(parent) && v < |parent| && RootedAt(parent, v, e) && e != depth
    ensures v !in LevelAt(parent, depth)
  {
    LevelExact(parent, depth);
    if v in LevelAt(parent, depth) { RootedOnce(parent, v, e, depth); }
  }

  lemma ParentOffLevel(parent: Parents, v: nat, e: nat, depth: nat)
    requires Valid(parent) && v < |parent| && RootedAt(parent, v, e) && e <= depth && parent[v].Some?
    ensures parent[v].value !in LevelAt(parent, depth)
  {
    RootedParent(parent, v, if e == 0 then 0 else e - 1);
    if e > 0 { OffLevel(parent, parent[v].value, e - 1, depth); }
  }

  lemma EntryStep(parent: Parents, size: seq<nat>, entry: seq<nat>, out: seq<nat>, depth: nat)
    requires Valid(parent) && NumberedAbove(parent, size, entry, depth) && |out| == |entry|
    requires InRange(parent, LevelAt(parent, depth))
    requires forall v: nat :: v < |entry| && v !in LevelAt(parent, depth) ==> out[v] == entry[v]
    requires forall k: nat :: k < |LevelAt(parent, depth)| ==>
      out[LevelAt(parent, depth)[k]] == Numbers(parent, size, LevelAt(parent, depth), entry)[k]
    ensures NumberedAbove(parent, size, out, depth + 1)
  {
    var level := LevelAt(parent, depth);
    forall v: nat, e: nat | v < |parent| && RootedAt(parent, v, e) && e < depth + 1
      ensures EntryAt(parent, size, out, v)
    {
      if parent[v].Some? { ParentOffLevel(parent, v, e, depth); }
      if e < depth {
        OffLevel(parent, v, e, depth);
        assert EntryAt(parent, size, entry, v);
      } else {
        LevelExact(parent, depth);
        var k: nat :| k < |level| && level[k] == v;
        LevelHoldsSiblings(parent, v, depth);
        EarlierSiblings(parent, size, level, k);
      }
    }
  }

  method EntriesTopDown(parent: Parents, levels: seq<seq<nat>>, size: seq<nat>) returns (entry: seq<nat>)
    requires Valid(parent) && AreLevels(parent, levels) && |size| == |parent|
    ensures NumberedAbove(parent, size, entry, |levels|)
  {
    entry := seq(|parent|, _ => 0);
    for depth := 0 to |levels|
      invariant NumberedAbove(parent, size, entry, depth)
    {
      LevelShape(parent, depth);
      var numbered := NumberLevel(parent, levels[depth], size, entry);
      EntryStep(parent, size, entry, numbered, depth);
      entry := numbered;
    }
  }

  /** What the lineage promises its readers. */
  ghost predicate IsLineage(parent: Parents, lineage: Lineage)
    requires Valid(parent)
  {
    && lineage.parent == parent
    && |lineage.entry| == |lineage.exit| == |parent|
    && IsPermutation(lineage.entry)
    && (forall v: nat :: v < |parent| ==> ExitAt(parent, lineage, v))
    && (forall a: nat, d: nat :: a < |parent| && d < |parent| ==>
          (IsAncestor(lineage, a, d) <==> Ancestor(parent, a, d)))
  }

  ghost predicate ExitAt(parent: Parents, lineage: Lineage, v: nat)
    requires Valid(parent) && v < |parent| == |lineage.entry| == |lineage.exit|
  {
    lineage.exit[v] == lineage.entry[v] + |Subtree(parent, v)| - 1
  }

  /** The enclosing-interval test. */
  predicate IsAncestor(lineage: Lineage, a: nat, d: nat)
    requires a < |lineage.entry| == |lineage.exit| && d < |lineage.entry|
  {
    && a != d
    && lineage.entry[a] <= lineage.entry[d]
    && lineage.exit[a] >= lineage.exit[d]
  }

  lemma NumberedIsLineage(parent: Parents, size: seq<nat>, lineage: Lineage)
    requires Numbered(parent, size, lineage.entry) && Acyclic(parent)
    requires lineage.parent == parent && |lineage.exit| == |parent|
    requires forall v :: 0 <= v < |parent| ==> lineage.exit[v] + 1 == lineage.entry[v] + size[v]
    ensures IsLineage(parent, lineage)
  {
    EntriesArePermutation(parent, size, lineage.entry);
    forall v: nat | v < |parent| ensures ExitAt(parent, lineage, v) {
      SizeIsSubtreeCount(parent, size, lineage.entry, v);
    }
    forall a: nat, d: nat | a < |parent| && d < |parent|
      ensures IsAncestor(lineage, a, d) <==> Ancestor(parent, a, d)
    {
      EnclosureIsAncestry(parent, size, lineage.entry, a, d);
    }
  }

  lemma LevelsCoverAll(parent: Parents, levels: seq<seq<nat>>, size: seq<nat>, entry: seq<nat>)
    requires Valid(parent) && Acyclic(parent) && LevelAt(parent, |levels|) == []
    requires SizedFrom(parent, size, 0) && NumberedAbove(parent, size, entry, |levels|)
    ensures Numbered(parent, size, entry)
  {
    forall v: nat | v < |parent| ensures SizeAt(parent, size, v) && EntryAt(parent, size, entry, v) {
      var d := DepthOf(parent, v);
      NothingDeeper(parent, v, |levels|, d);
    }
  }

  lemma {:induction false} NoLinksNoSiblings(parent: Parents, size: seq<nat>, v: nat, k: nat)
    requires k <= |parent| == |size| && forall i :: 0 <= i < |parent| ==> parent[i].None?
    requires forall i :: 0 <= i < |size| ==> size[i] == 1
    ensures SiblingSum(parent, size, Some(v), k) == 0
    ensures SiblingSum(parent, size, None, k) == k
  {
    if k > 0 { NoLinksNoSiblings(parent, size, v, k - 1); }
  }

  /** Without corrections every row is its own chain, numbered by row. */
  lemma TrivialLineage(parent: Parents)
    requires forall i :: 0 <= i < |parent| ==> parent[i].None?
    ensures Valid(parent) && Acyclic(parent)
    ensures IsLineage(parent, Lineage(parent, seq(|parent|, i requires 0 <= i < |parent| => i + 1),
                                              seq(|parent|, i requires 0 <= i < |parent| => i + 1)))
  {
    var n := |parent|;
    var size: seq<nat> := seq(n, _ => 1);
    var entry: seq<nat> := seq(n, i requires 0 <= i < n => i + 1);
    forall i | 0 <= i < n ensures Rooted(parent, i) { RootedParent(parent, i, 0); }
    AcyclicIsRooted(parent);
    forall v: nat | v < n ensures SizeAt(parent, size, v) && EntryAt(parent, size, entry, v) {
      NoLinksNoSiblings(parent, size, v, n);
      NoLinksNoSiblings(parent, size, v, v);
    }
    var exit: seq<int> := seq(n, i requires 0 <= i < n => i + 1);
    NumberedIsLineage(parent, size, Lineage(parent, entry, exit));
  }

  /** `ledgr_status_lineage`; `None` is the acyclicity abort. */
  method BuildLineage(parent: Parents) returns (r: Option<Lineage>)
    requires Valid(parent)
    ensures r.Some? <==> Acyclic(parent)
    ensures r.Some? ==> IsLineage(parent, r.value)
  {
    var n := |parent|;
    if forall i :: 0 <= i < n ==> parent[i].None? {
      TrivialLineage(parent);
      var trivial := seq(n, i requires 0 <= i < n => i + 1);
      r := Some(Lineage(parent, trivial, trivial));
      return;
    }
    var levels := Walk(parent);
    if levels.None? {
      r := None;
      return;
    }
    LevelZeroExists(parent, levels.value);
    var size := SizesBottomUp(parent, levels.value);
    var entry := EntriesTopDown(parent, levels.value, size);
    LevelsCoverAll(parent, levels.value, size, entry);
    var exit: seq<int> := seq(n, v requires 0 <= v < n => (entry[v] + size[v]) as int - 1);
    var lineage := Lineage(parent, entry, exit);
    NumberedIsLineage(parent, size, lineage);
    r := Some(lineage);
  }

  lemma LevelZeroExists(parent: Parents, levels: seq<seq<nat>>)
    requires Valid(parent) && Acyclic(parent) && |parent| > 0 && LevelAt(parent, |levels|) == []
    ensures |levels| > 0
  {
    var d := DepthOf(parent, 0);
    NothingDeeper(parent, 0, |levels|, d);
  }
}
