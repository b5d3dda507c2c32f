/** Correction chains as a parent relation: what it means to be an ancestor, to
    be acyclic, and to carry a preorder numbering. */
module Forest {
  import opened Wrappers
  import opened Ordering
  import opened Cardinality

  type Parents = seq<Option<nat>>

  ghost predicate Valid(parent: Parents) {
    forall i :: 0 <= i < |parent| && parent[i].Some? ==> parent[i].value < |parent|
  }

  /** The row reached from `i` by `k` parent links. */
  ghost function Up(parent: Parents, i: nat, k: nat): (r: Option<nat>)
    requires Valid(parent) && i < |parent|
    ensures r.Some? ==> r.value < |parent|
  {
    if k == 0 then Some(i)
    else
      var below := Up(parent, i, k - 1);
      if below.None? then None else parent[below.value]
  }

  ghost predicate Ancestor(parent: Parents, a: nat, d: nat)
    requires Valid(parent) && d < |parent|
  {
    exists k: nat :: k >= 1 && Up(parent, d, k) == Some(a)
  }

  ghost predicate Acyclic(parent: Parents)
    requires Valid(parent)
  {
    forall i :: 0 <= i < |parent| ==> !Ancestor(parent, i, i)
  }

  /** Row `i` lies exactly `d` links below a root. */
  ghost predicate RootedAt(parent: Parents, i: nat, d: nat)
    requires Valid(parent) && i < |parent|
  {
    Up(parent, i, d).Some? && Up(parent, i, d + 1).None?
  }

  ghost predicate Rooted(parent: Parents, i: nat)
    requires Valid(parent) && i < |parent|
  {
    exists d: nat :: RootedAt(parent, i, d)
  }

  lemma {:induction false} UpAdd(parent: Parents, i: nat, k: nat, m: nat)
    requires Valid(parent) && i < |parent|
    ensures Up(parent, i, k).None? ==> Up(parent, i, k + m).None?
    ensures Up(parent, i, k).Some? ==> Up(parent, i, k + m) == Up(parent, Up(parent, i, k).value, m)
    decreases m
  {
    if m > 0 { UpAdd(parent, i, k, m - 1); }
  }

  lemma RootedOnce(parent: Parents, i: nat, d: nat, e: nat)
    requires Valid(parent) && i < |parent|
    requires RootedAt(parent, i, d) && RootedAt(parent, i, e)
    ensures d == e
  {
    if d < e { UpAdd(parent, i, d + 1, e - d - 1); }
    if e < d { UpAdd(parent, i, e + 1, d - e - 1); }
  }

  lemma RootedParent(parent: Parents, i: nat, d: nat)
    requires Valid(parent) && i < |parent|
    ensures RootedAt(parent, i, 0) <==> parent[i].None?
    ensures parent[i].Some? ==> (RootedAt(parent, i, d + 1) <==> RootedAt(parent, parent[i].value, d))
  {
    assert Up(parent, i, 1) == parent[i] by { assert Up(parent, i, 0) == Some(i); }
    UpAdd(parent, i, 1, d);
    UpAdd(parent, i, 1, d + 1);
  }

  lemma RootedLift(parent: Parents, i: nat, d: nat, k: nat)
    requires Valid(parent) && i < |parent| && RootedAt(parent, i, d) && k <= d
    ensures Up(parent, i, k).Some? && RootedAt(parent, Up(parent, i, k).value, d - k)
  {
    UpAdd(parent, i, k, d - k);
    UpAdd(parent, i, k, d + 1 - k);
  }

  lemma {:induction false} CycleForever(parent: Parents, i: nat, k: nat, times: nat)
    requires Valid(parent) && i < |parent| && Up(parent, i, k) == Some(i)
    ensures Up(parent, i, times * k) == Some(i)
    decreases times
  {
    if times > 0 {
      CycleForever(parent, i, k, times - 1);
      UpAdd(parent, i, (times - 1) * k, k);
    }
  }

  /** A row that reaches a root is on no cycle. */
  lemma RootedIsAcyclic(parent: Parents, i: nat)
    requires Valid(parent) && i < |parent| && Rooted(parent, i)
    ensures !Ancestor(parent, i, i)
  {
    var d: nat :| RootedAt(parent, i, d);
    if Ancestor(parent, i, i) {
      var k: nat :| k >= 1 && Up(parent, i, k) == Some(i);
      CycleForever(parent, i, k, d + 1);
      assert (d + 1) * k >= d + 1;
      UpAdd(parent, i, d + 1, (d + 1) * k - (d + 1));
    }
  }

  /** A row whose parent links never run out is below a cycle. */
  lemma UnrootedHasCycle(parent: Parents, i: nat)
    requires Valid(parent) && i < |parent| && !Rooted(parent, i)
    ensures !Acyclic(parent)
  {
    var n := |parent|;
    forall k: nat ensures Up(parent, i, k).Some? { UnrootedNeverEnds(parent, i, k); }
    var path := seq(n + 1, k requires 0 <= k <= n => Up(parent, i, k).value);
    if Distinct(path) {
      Pigeonhole(path, n);
    } else {
      var a, b :| 0 <= a < b < |path| && path[a] == path[b];
      UpAdd(parent, i, a, b - a);
      assert Up(parent, path[a], b - a) == Some(path[a]);
      assert Ancestor(parent, path[a], path[a]);
    }
  }

  lemma {:induction false} UnrootedNeverEnds(parent: Parents, i: nat, k: nat)
    requires Valid(parent) && i < |parent| && !Rooted(parent, i)
    ensures Up(parent, i, k).Some?
  {
    if k > 0 {
      UnrootedNeverEnds(parent, i, k - 1);
      assert !RootedAt(parent, i, k - 1);
    }
  }

  lemma AcyclicIsRooted(parent: Parents)
    requires Valid(parent)
    ensures Acyclic(parent) <==> forall i :: 0 <= i < |parent| ==> Rooted(parent, i)
  {
    if Acyclic(parent) {
      forall i | 0 <= i < |parent| ensures Rooted(parent, i) {
        if !Rooted(parent, i) { UnrootedHasCycle(parent, i); }
      }
    }
    if forall i :: 0 <= i < |parent| ==> Rooted(parent, i) {
      forall i | 0 <= i < |parent| ensures !Ancestor(parent, i, i) { RootedIsAcyclic(parent, i); }
    }
  }

  // ---- preorder numbering ---------------------------------------------

  /** Total size of the children of `p` among the first `k` rows. */
  ghost function SiblingSum(parent: Parents, size: seq<nat>, p: Option<nat>, k: nat): nat
    requires k <= |parent| == |size|
  {
    if k == 0 then 0
    else SiblingSum(parent, size, p, k - 1) + if parent[k - 1] == p then size[k - 1] else 0
  }

  ghost predicate SizeAt(parent: Parents, size: seq<nat>, v: nat)
    requires v < |parent| == |size|
  {
    size[v] == 1 + SiblingSum(parent, size, Some(v), |parent|)
  }

  /** Each row's size is one more than the sizes of its children. */
  ghost predicate SubtreeSizes(parent: Parents, size: seq<nat>) {
    |size| == |parent| && forall v: nat :: v < |parent| ==> SizeAt(parent, size, v)
  }

  ghost predicate EntryAt(parent: Parents, size: seq<nat>, entry: seq<nat>, c: nat)
    requires Valid(parent) && c < |entry| == |size| == |parent|
  {
    entry[c] == (if parent[c].Some? then entry[parent[c].value] + 1 else 1)
              + SiblingSum(parent, size, parent[c], c)
  }

  /** Each row is numbered after its parent and its earlier siblings' subtrees. */
  ghost predicate PreorderEntries(parent: Parents, size: seq<nat>, entry: seq<nat>)
    requires Valid(parent)
  {
    && |entry| == |size| == |parent|
    && forall c: nat :: c < |parent| ==> EntryAt(parent, size, entry, c)
  }

  ghost predicate Numbered(parent: Parents, size: seq<nat>, entry: seq<nat>) {
    && Valid(parent)
    && SubtreeSizes(parent, size)
    && PreorderEntries(parent, size, entry)
  }

  lemma {:induction false} SiblingSumGrows(parent: Parents, size: seq<nat>, p: Option<nat>, c: nat, k: nat)
    requires c < k <= |parent| == |size|
    ensures SiblingSum(parent, size, p, c) <= SiblingSum(parent, size, p, k)
    ensures parent[c] == p ==> SiblingSum(parent, size, p, c) + size[c] <= SiblingSum(parent, size, p, k)
    decreases k
  {
    if c < k - 1 { SiblingSumGrows(parent, size, p, c, k - 1); }
  }

  ghost predicate Before(size: seq<nat>, entry: seq<nat>, u: nat, v: nat)
    requires u < |size| == |entry| && v < |entry|
  {
    entry[u] + size[u] <= entry[v]
  }

  ghost predicate NestedAt(parent: Parents, size: seq<nat>, entry: seq<nat>, c: nat)
    requires Valid(parent) && c < |entry| == |size| == |parent|
  {
    parent[c].Some? ==>
      && entry[parent[c].value] < entry[c]
      && entry[c] + size[c] <= entry[parent[c].value] + size[parent[c].value]
  }

  /** A child's block lies inside its parent's, after the parent itself. */
  lemma ChildInside(parent: Parents, size: seq<nat>, entry: seq<nat>, c: nat)
    requires Numbered(parent, size, entry) && c < |parent|
    ensures NestedAt(parent, size, entry, c)
  {
    assert EntryAt(parent, size, entry, c);
    if parent[c].Some? {
      assert SizeAt(parent, size, parent[c].value);
      SiblingSumGrows(parent, size, parent[c], c, |parent|);
    }
  }

  lemma {:induction false} AncestorInside(parent: Parents, size: seq<nat>, entry: seq<nat>, a: nat, d: nat, k: nat)
    requires Numbered(parent, size, entry)
    requires d < |parent| && Up(parent, d, k) == Some(a)
    ensures entry[a] <= entry[d] && entry[d] + size[d] <= entry[a] + size[a]
    ensures k >= 1 ==> entry[a] < entry[d]
    decreases k
  {
    if k > 0 {
      var b := Up(parent, d, k - 1).value;
      AncestorInside(parent, size, entry, b, d, k - 1);
      ChildInside(parent, size, entry, b);
    }
  }

  lemma {:induction false} SameDepthDisjoint(parent: Parents, size: seq<nat>, entry: seq<nat>, u: nat, v: nat,
                                             depth: nat)
    requires Numbered(parent, size, entry)
    requires u < |parent| && v < |parent| && u != v
    requires RootedAt(parent, u, depth) && RootedAt(parent, v, depth)
    ensures Before(size, entry, u, v) || Before(size, entry, v, u)
    decreases depth
  {
    RootedParent(parent, u, if depth == 0 then 0 else depth - 1);
    RootedParent(parent, v, if depth == 0 then 0 else depth - 1);
    if parent[u] == parent[v] {
      assert EntryAt(parent, size, entry, u) && EntryAt(parent, size, entry, v);
      if u < v { SiblingSumGrows(parent, size, parent[v], u, v); }
      else { SiblingSumGrows(parent, size, parent[u], v, u); }
    } else {
      if depth == 0 { assert false; }
      if parent[u].None? { RootedOnce(parent, u, 0, depth); }
      if parent[v].None? { RootedOnce(parent, v, 0, depth); }
      SameDepthDisjoint(parent, size, entry, parent[u].value, parent[v].value, depth - 1);
      ChildInside(parent, size, entry, u);
      ChildInside(parent, size, entry, v);
    }
  }

  lemma LiftMisses(parent: Parents, u: nat, k: nat, v: nat)
    requires Valid(parent) && u < |parent| && u != v && !Ancestor(parent, v, u)
    ensures Up(parent, u, k) != Some(v)
  {
    if k == 0 { assert Up(parent, u, 0) == Some(u); }
  }

  lemma LiftToDepth(parent: Parents, u: nat, du: nat, v: nat, dv: nat) returns (lifted: nat)
    requires Valid(parent) && u < |parent| && u != v && dv <= du
    requires RootedAt(parent, u, du)
    requires !Ancestor(parent, v, u)
    ensures lifted < |parent| && lifted != v && RootedAt(parent, lifted, dv)
    ensures Up(parent, u, du - dv) == Some(lifted)
  {
    RootedLift(parent, u, du, du - dv);
    LiftMisses(parent, u, du - dv, v);
    lifted := Up(parent, u, du - dv).value;
  }

  lemma LiftedDisjoint(parent: Parents, size: seq<nat>, entry: seq<nat>, u: nat, k: nat, lifted: nat, v: nat, dv: nat)
    requires Numbered(parent, size, entry)
    requires u < |parent| && v < |parent| && lifted < |parent| && lifted != v
    requires Up(parent, u, k) == Some(lifted)
    requires RootedAt(parent, lifted, dv) && RootedAt(parent, v, dv)
    ensures Before(size, entry, u, v) || Before(size, entry, v, u)
  {
    SameDepthDisjoint(parent, size, entry, lifted, v, dv);
    AncestorInside(parent, size, entry, lifted, u, k);
  }

  lemma DeeperDisjoint(parent: Parents, size: seq<nat>, entry: seq<nat>, u: nat, du: nat, v: nat, dv: nat)
    requires Numbered(parent, size, entry)
    requires u < |parent| && v < |parent| && u != v && dv <= du
    requires RootedAt(parent, u, du) && RootedAt(parent, v, dv)
    requires !Ancestor(parent, v, u)
    ensures Before(size, entry, u, v) || Before(size, entry, v, u)
  {
    var lifted := LiftToDepth(parent, u, du, v, dv);
    LiftedDisjoint(parent, size, entry, u, du - dv, lifted, v, dv);
  }

  lemma DepthOf(parent: Parents, i: nat) returns (d: nat)
    requires Valid(parent) && Acyclic(parent) && i < |parent|
    ensures RootedAt(parent, i, d)
  {
    AcyclicIsRooted(parent);
    assert Rooted(parent, i);
    d :| RootedAt(parent, i, d);
  }

  lemma UnrelatedDisjoint(parent: Parents, size: seq<nat>, entry: seq<nat>, u: nat, v: nat)
    requires Numbered(parent, size, entry) && Acyclic(parent)
    requires u < |parent| && v < |parent| && u != v
    requires !Ancestor(parent, u, v) && !Ancestor(parent, v, u)
    ensures Before(size, entry, u, v) || Before(size, entry, v, u)
    ensures size[u] >= 1 && size[v] >= 1
  {
    assert SizeAt(parent, size, u) && SizeAt(parent, size, v);
    var du := DepthOf(parent, u);
    var dv := DepthOf(parent, v);
    if dv <= du { DeeperDisjoint(parent, size, entry, u, du, v, dv); }
    else { DeeperDisjoint(parent, size, entry, v, dv, u, du); }
  }

  /** The interval test of the numbering is exactly ancestry. */
  lemma EnclosureIsAncestry(parent: Parents, size: seq<nat>, entry: seq<nat>, a: nat, d: nat)
    requires Numbered(parent, size, entry) && Acyclic(parent)
    requires a < |parent| && d < |parent|
    ensures Ancestor(parent, a, d)
       <==> a != d && entry[a] <= entry[d] && entry[d] + size[d] <= entry[a] + size[a]
  {
    if Ancestor(parent, a, d) {
      var k: nat :| k >= 1 && Up(parent, d, k) == Some(a);
      AncestorInside(parent, size, entry, a, d, k);
    } else if a != d {
      if Ancestor(parent, d, a) {
        var k: nat :| k >= 1 && Up(parent, a, k) == Some(d);
        AncestorInside(parent, size, entry, d, a, k);
      } else {
        UnrelatedDisjoint(parent, size, entry, a, d);
      }
    }
  }

  // ---- the numbering is a permutation ----------------------------------

  ghost function TotalOf(parent: Parents, size: seq<nat>, k: nat, rows: nat): nat
    requires k <= |parent| == |size|
  {
    if rows == 0 then 0 else TotalOf(parent, size, k, rows - 1) + SiblingSum(parent, size, Some(rows - 1), k)
  }

  ghost function SizeTotal(size: seq<nat>, k: nat): nat
    requires k <= |size|
  {
    if k == 0 then 0 else SizeTotal(size, k - 1) + size[k - 1]
  }

  lemma {:induction false} OneMoreRow(parent: Parents, size: seq<nat>, k: nat, rows: nat)
    requires 0 < k <= |parent| == |size|
    ensures TotalOf(parent, size, k, rows) == TotalOf(parent, size, k - 1, rows)
         + if parent[k - 1].Some? && parent[k - 1].value < rows then size[k - 1] else 0
    decreases rows
  {
    if rows > 0 { OneMoreRow(parent, size, k, rows - 1); }
  }

  lemma {:induction false} ChildrenPlusRoots(parent: Parents, size: seq<nat>, k: nat)
    requires Valid(parent) && k <= |parent| == |size|
    ensures TotalOf(parent, size, k, |parent|) + SiblingSum(parent, size, None, k) == SizeTotal(size, k)
    decreases k
  {
    if k == 0 {
      NoRows(parent, size, |parent|);
    } else {
      ChildrenPlusRoots(parent, size, k - 1);
      OneMoreRow(parent, size, k, |parent|);
    }
  }

  lemma {:induction false} NoRows(parent: Parents, size: seq<nat>, rows: nat)
    requires |parent| == |size|
    ensures TotalOf(parent, size, 0, rows) == 0
  {
    if rows > 0 { NoRows(parent, size, rows - 1); }
  }

  lemma {:induction false} SizesAddUp(parent: Parents, size: seq<nat>, rows: nat)
    requires SubtreeSizes(parent, size) && rows <= |parent|
    ensures SizeTotal(size, rows) == rows + TotalOf(parent, size, |parent|, rows)
  {
    if rows > 0 {
      SizesAddUp(parent, size, rows - 1);
      assert SizeAt(parent, size, rows - 1);
    }
  }

  /** The root subtrees together hold every row once. */
  lemma RootsHoldAllRows(parent: Parents, size: seq<nat>)
    requires Valid(parent) && SubtreeSizes(parent, size)
    ensures SiblingSum(parent, size, None, |parent|) == |parent|
  {
    SizesAddUp(parent, size, |parent|);
    ChildrenPlusRoots(parent, size, |parent|);
  }

  lemma {:induction false} EntryInRange(parent: Parents, size: seq<nat>, entry: seq<nat>, v: nat, depth: nat)
    requires Numbered(parent, size, entry)
    requires v < |parent| && RootedAt(parent, v, depth)
    ensures 1 <= entry[v] && entry[v] + size[v] <= |parent| + 1 && size[v] >= 1
    decreases depth
  {
    assert SizeAt(parent, size, v);
    RootedParent(parent, v, if depth == 0 then 0 else depth - 1);
    assert EntryAt(parent, size, entry, v);
    if parent[v].None? {
      RootsHoldAllRows(parent, size);
      SiblingSumGrows(parent, size, None, v, |parent|);
    } else {
      if depth == 0 { assert false; }
      EntryInRange(parent, size, entry, parent[v].value, depth - 1);
      ChildInside(parent, size, entry, v);
    }
  }

  ghost predicate IsPermutation(entry: seq<nat>) {
    && Distinct(entry)
    && (forall i :: 0 <= i < |entry| ==> 1 <= entry[i] <= |entry|)
    && (forall x: nat :: 1 <= x <= |entry| ==> x in entry)
  }

  lemma EntriesDistinct(parent: Parents, size: seq<nat>, entry: seq<nat>, u: nat, v: nat)
    requires Numbered(parent, size, entry) && Acyclic(parent)
    requires u < |parent| && v < |parent| && u != v
    ensures entry[u] != entry[v]
  {
    if Ancestor(parent, u, v) {
      var k: nat :| k >= 1 && Up(parent, v, k) == Some(u);
      AncestorInside(parent, size, entry, u, v, k);
    } else if Ancestor(parent, v, u) {
      var k: nat :| k >= 1 && Up(parent, u, k) == Some(v);
      AncestorInside(parent, size, entry, v, u, k);
    } else {
      UnrelatedDisjoint(parent, size, entry, u, v);
    }
  }

  /** Entry numbers are 1..n in some order. */
  lemma EntriesArePermutation(parent: Parents, size: seq<nat>, entry: seq<nat>)
    requires Numbered(parent, size, entry) && Acyclic(parent)
    ensures IsPermutation(entry)
  {
    var n := |parent|;
    forall u, v | 0 <= u < v < n ensures entry[u] != entry[v] {
      EntriesDistinct(parent, size, entry, u, v);
    }
    forall i | 0 <= i < n ensures 1 <= entry[i] <= n {
      var d := DepthOf(parent, i);
      EntryInRange(parent, size, entry, i, d);
    }
    OntoRange(entry);
  }

  /** The rows a row's interval must hold: itself and everything corrected under it. */
  ghost function Subtree(parent: Parents, v: nat): set<nat>
    requires Valid(parent) && v < |parent|
  {
    set d: nat | d < |parent| && (d == v || Ancestor(parent, v, d))
  }

  /** `exit - entry + 1` is the number of rows in the subtree. */
  lemma SizeIsSubtreeCount(parent: Parents, size: seq<nat>, entry: seq<nat>, v: nat)
    requires Numbered(parent, size, entry) && Acyclic(parent) && v < |parent|
    ensures size[v] == |Subtree(parent, v)|
  {
    EntriesArePermutation(parent, size, entry);
    var depth := DepthOf(parent, v);
    EntryInRange(parent, size, entry, v, depth);
    var sub := Subtree(parent, v);
    var image := Image(sub, entry);
    forall x | x in image ensures x in Interval(entry[v], size[v]) {
      var d :| d in sub && entry[d] == x;
      EnclosureIsAncestry(parent, size, entry, v, d);
      assert SizeAt(parent, size, d);
    }
    forall x | x in Interval(entry[v], size[v]) ensures x in image {
      SubtreeHolds(parent, size, entry, v, x);
    }
    assert image == Interval(entry[v], size[v]);
    ImageCardinality(sub, entry);
  }

  lemma SubtreeHolds(parent: Parents, size: seq<nat>, entry: seq<nat>, v: nat, x: nat)
    requires Numbered(parent, size, entry) && Acyclic(parent) && v < |parent|
    requires x in Interval(entry[v], size[v]) && x in entry
    ensures exists d :: d in Subtree(parent, v) && entry[d] == x
  {
    var d :| 0 <= d < |entry| && entry[d] == x;
    if d != v && !Ancestor(parent, v, d) {
      if Ancestor(parent, d, v) {
        var k: nat :| k >= 1 && Up(parent, v, k) == Some(d);
        AncestorInside(parent, size, entry, d, v, k);
      } else {
        UnrelatedDisjoint(parent, size, entry, v, d);
      }
      assert false;
    }
    assert d in Subtree(parent, v);
  }
}
