/** The trading-status validator: intervals, the correction graph, and tied-source
    conflicts decided by a sweep over uncorrected rows and a count over all rows. */
module StatusValidation {
  import opened Wrappers
  import opened Clocks
  import opened Ordering
  import opened Forest
  import opened StatusFacts
  import opened LineageNumbers
  import opened ScopeGroups
  import opened OverlapSweep
  import Count = OverlapCount
  import Walk = StatusLineage

  // ---- ranks -------------------------------------------------------------

  lemma InstantOrder()
    ensures TotalPreorder(Le) && Strict(Le)
  {
  }

  /** `match(x, sort(unique(values)))`. */
  function RanksOf<T(==)>(values: seq<T>, sorted: seq<T>): (ranks: seq<nat>)
    requires forall i :: 0 <= i < |values| ==> values[i] in sorted
    ensures |ranks| == |values|
    ensures forall i :: 0 <= i < |ranks| ==> 1 <= ranks[i] <= |sorted|
  {
    seq(|values|, i requires 0 <= i < |values| && values[i] in sorted => Position(sorted, values[i]) + 1)
  }

  lemma SortedUnique<T(!new)>(values: seq<T>, le: (T, T) -> bool)
    requires TotalPreorder(le)
    ensures var sorted := Sort(Unique(values), le);
            && SortedBy(sorted, le) && Distinct(sorted)
            && forall i :: 0 <= i < |values| ==> values[i] in sorted
  {
    SortSorted(Unique(values), le);
    SortDistinct(Unique(values), le);
    SortMembers(Unique(values), le);
  }

  lemma RankOrder<T(!new)>(values: seq<T>, sorted: seq<T>, le: (T, T) -> bool, i: nat, j: nat)
    requires SortedBy(sorted, le) && Distinct(sorted) && TotalPreorder(le) && Strict(le)
    requires forall i :: 0 <= i < |values| ==> values[i] in sorted
    requires i < |values| && j < |values|
    ensures RanksOf(values, sorted)[i] <= RanksOf(values, sorted)[j] <==> le(values[i], values[j])
  {
    PositionOrder(sorted, le, values[i], values[j]);
  }

  function StartsOf(rows: seq<StatusRow>): seq<Instant> {
    seq(|rows|, i requires 0 <= i < |rows| => Fin(rows[i].from))
  }

  function EndsOf(rows: seq<StatusRow>): seq<Instant> {
    seq(|rows|, i requires 0 <= i < |rows| => EndOf(rows[i].to))
  }

  function ScopesOf(rows: seq<StatusRow>): seq<Scope> {
    seq(|rows|, i requires 0 <= i < |rows| => StatusFacts.Scope(rows[i]))
  }

  function StatesOf(rows: seq<StatusRow>): seq<int> {
    seq(|rows|, i requires 0 <= i < |rows| => rows[i].status)
  }

  method RankStates(rows: seq<StatusRow>) returns (state: seq<nat>, levels: nat)
    ensures |state| == |rows|
    ensures forall i :: 0 <= i < |rows| ==> 1 <= state[i] <= levels
    ensures forall i, j :: 0 <= i < |rows| && 0 <= j < |rows| ==>
      (state[i] == state[j] <==> rows[i].status == rows[j].status)
  {
    var values := StatesOf(rows);
    var sorted := Sort(Unique(values), IntLe);
    IntOrder();
    SortedUnique(values, IntLe);
    state := RanksOf(values, sorted);
    levels := |sorted|;
  }

  function BoundsOf(rows: seq<StatusRow>): (values: seq<Instant>)
    ensures |values| == 2 * |rows|
    ensures forall i :: 0 <= i < |rows| ==>
      values[i] == Fin(rows[i].from) && values[|rows| + i] == EndOf(rows[i].to)
  {
    StartsOf(rows) + EndsOf(rows)
  }

  lemma BoundRanksCompare(rows: seq<StatusRow>, sorted: seq<Instant>, i: nat, j: nat)
    requires IsScale(rows, sorted) && i < |rows| && j < |rows|
    ensures RanksOf(BoundsOf(rows), sorted)[i] < RanksOf(BoundsOf(rows), sorted)[|rows| + j]
       <==> BeforeEnd(rows[i].from, rows[j].to)
  {
    InstantOrder();
    RankOrder(BoundsOf(rows), sorted, Le, |rows| + j, i);
  }

  ghost predicate IsScale(rows: seq<StatusRow>, sorted: seq<Instant>) {
    && SortedBy(sorted, Le) && Distinct(sorted)
    && forall i :: 0 <= i < |BoundsOf(rows)| ==> BoundsOf(rows)[i] in sorted
  }

  lemma BoundsScale(rows: seq<StatusRow>)
    ensures IsScale(rows, Sort(Unique(BoundsOf(rows)), Le))
  {
    InstantOrder();
    SortedUnique(BoundsOf(rows), Le);
  }

  lemma AllBoundRanksCompare(rows: seq<StatusRow>, sorted: seq<Instant>)
    requires IsScale(rows, sorted)
    ensures forall i, j :: 0 <= i < |rows| && 0 <= j < |rows| ==>
      (RanksOf(BoundsOf(rows), sorted)[i] < RanksOf(BoundsOf(rows), sorted)[|rows| + j]
       <==> BeforeEnd(rows[i].from, rows[j].to))
  {
    forall i, j | 0 <= i < |rows| && 0 <= j < |rows|
      ensures RanksOf(BoundsOf(rows), sorted)[i] < RanksOf(BoundsOf(rows), sorted)[|rows| + j]
         <==> BeforeEnd(rows[i].from, rows[j].to)
    {
      BoundRanksCompare(rows, sorted, i, j);
    }
  }

  /** Bound ranks: starts and ends share one scale, so ranks compare like instants. */
  method RankBounds(rows: seq<StatusRow>) returns (start: seq<nat>, end: seq<nat>, width: nat)
    ensures |start| == |end| == |rows|
    ensures forall i :: 0 <= i < |rows| ==> 1 <= start[i] < width && 1 <= end[i] < width
    ensures forall i, j :: 0 <= i < |rows| && 0 <= j < |rows| ==>
      (start[i] < end[j] <==> BeforeEnd(rows[i].from, rows[j].to))
  {
    hide RanksOf, BoundsOf, IsScale;
    var n := |rows|;
    var sorted := Sort(Unique(BoundsOf(rows)), Le);
    BoundsScale(rows);
    var ranks := RanksOf(BoundsOf(rows), sorted);
    AllBoundRanksCompare(rows, sorted);
    start, end, width := ranks[..n], ranks[n..], |sorted| + 1;
  }

  method RankRows(rows: seq<StatusRow>) returns (k: Count.Ranked)
    requires ValidIntervals(rows)
    ensures Count.Valid(k) && |k.scope| == |rows|
    ensures forall i: nat, j: nat :: i < |rows| && j < |rows| ==>
      (Count.Opposed(k, i, j) <==> Clash(rows[i], rows[j]))
  {
    var scope := ScopeGroup(ScopesOf(rows));
    var state, levels := RankStates(rows);
    var start, end, width := RankBounds(rows);
    k := Count.Ranked(scope, state, start, end, levels, width);
    forall i: nat | i < |rows| ensures Count.ValidRow(k, i) {
      assert BeforeEnd(rows[i].from, rows[i].to);
    }
    forall i: nat, j: nat | i < |rows| && j < |rows|
      ensures Count.Opposed(k, i, j) <==> Clash(rows[i], rows[j])
    {
      assert k.scope[i] == k.scope[j] <==> ScopesOf(rows)[i] == ScopesOf(rows)[j];
    }
  }

  // ---- uninvolved rows -----------------------------------------------------

  /** The row neither corrects nor is corrected. */
  predicate Uninvolved(rows: seq<StatusRow>, row: StatusRow) {
    row.supersedes.None? && forall j :: 0 <= j < |rows| ==> rows[j].supersedes != Some(row.factId)
  }

  function IsUninvolved(rows: seq<StatusRow>): StatusRow -> bool {
    (row: StatusRow) => Uninvolved(rows, row)
  }

  lemma UninvolvedIsNoParent(rows: seq<StatusRow>, i: nat, x: nat)
    requires i < |rows| && x < |rows| && Uninvolved(rows, rows[i])
    ensures ParentOf(rows, x) != Some(i)
  {
  }

  lemma NeverReached(rows: seq<StatusRow>, i: nat, j: nat, k: nat)
    requires i < |rows| && j < |rows| && Uninvolved(rows, rows[i]) && k >= 1
    ensures Up(ParentsOf(rows), j, k) != Some(i)
    ensures Up(ParentsOf(rows), i, k).None?
  {
    var parent := ParentsOf(rows);
    var below := Up(parent, j, k - 1);
    if below.Some? { UninvolvedIsNoParent(rows, i, below.value); }
    assert Up(parent, i, 0) == Some(i);
    UpAdd(parent, i, 1, k - 1);
  }

  lemma UninvolvedHasNoRelatives(rows: seq<StatusRow>, i: nat, j: nat)
    requires i < |rows| && j < |rows| && Uninvolved(rows, rows[i])
    ensures !Ancestor(ParentsOf(rows), i, j) && !Ancestor(ParentsOf(rows), j, i)
  {
    forall k: nat | k >= 1 ensures Up(ParentsOf(rows), j, k) != Some(i) && Up(ParentsOf(rows), i, k).None? {
      NeverReached(rows, i, j, k);
    }
  }

  function ClaimOf(row: StatusRow): Claim {
    Claim(StatusFacts.Scope(row), row.status, row.from, EndOf(row.to), row.factId)
  }

  function ClaimsOf(rows: seq<StatusRow>): seq<Claim> {
    seq(|rows|, i requires 0 <= i < |rows| => ClaimOf(rows[i]))
  }

  lemma OpposingIsClash(a: StatusRow, b: StatusRow)
    ensures Opposing(ClaimOf(a), ClaimOf(b)) <==> Clash(a, b)
  {
  }

  lemma ClaimsClash(rows: seq<StatusRow>)
    ensures HasOpposing(ClaimsOf(rows)) <==> exists a, b :: a in rows && b in rows && Clash(a, b)
  {
    if HasOpposing(ClaimsOf(rows)) {
      var c, d :| c in ClaimsOf(rows) && d in ClaimsOf(rows) && Opposing(c, d);
      var i :| 0 <= i < |rows| && ClaimsOf(rows)[i] == c;
      var j :| 0 <= j < |rows| && ClaimsOf(rows)[j] == d;
      OpposingIsClash(rows[i], rows[j]);
      assert rows[i] in rows && rows[j] in rows;
    }
    if a, b :| a in rows && b in rows && Clash(a, b) {
      var i :| 0 <= i < |rows| && rows[i] == a;
      var j :| 0 <= j < |rows| && rows[j] == b;
      assert ClaimsOf(rows)[i] in ClaimsOf(rows) && ClaimsOf(rows)[j] in ClaimsOf(rows);
      OpposingIsClash(a, b);
    }
  }

  /** The sweep over the uninvolved rows alone. */
  method UninvolvedClash(rows: seq<StatusRow>) returns (conflict: bool)
    requires ValidIntervals(rows)
    ensures conflict <==>
      exists a, b :: a in rows && b in rows && Uninvolved(rows, a) && Uninvolved(rows, b) && Clash(a, b)
  {
    var kept := Filter(rows, IsUninvolved(rows));
    FilterMembers(rows, IsUninvolved(rows));
    assert AllValid(ClaimsOf(kept)) by {
      forall i | 0 <= i < |kept| ensures Lt(Fin(ClaimsOf(kept)[i].start), ClaimsOf(kept)[i].end) {
        assert kept[i] in kept;
      }
    }
    ClaimsClash(kept);
    conflict := OpposingOverlap(ClaimsOf(kept));
  }

  lemma UninvolvedClashIsUnrelated(rows: seq<StatusRow>, a: StatusRow, b: StatusRow)
    requires a in rows && b in rows && Uninvolved(rows, a) && Clash(a, b)
    ensures UnrelatedClash(rows)
  {
    var i: nat :| i < |rows| && rows[i] == a;
    var j: nat :| j < |rows| && rows[j] == b;
    UninvolvedHasNoRelatives(rows, i, j);
    assert !Related(rows, i, j);
  }

  /** Whether two rows clash without either correcting the other. Every row is
      counted as soon as any correction exists. */
  method SourceConflict(rows: seq<StatusRow>) returns (conflict: bool)
    requires ValidIntervals(rows) && Acyclic(ParentsOf(rows))
    ensures conflict <==> UnrelatedClash(rows)
  {
    if |rows| < 2 {
      return false;
    }
    conflict := UninvolvedClash(rows);
    if conflict {
      ghost var a, b :| a in rows && b in rows && Uninvolved(rows, a) && Uninvolved(rows, b) && Clash(a, b);
      UninvolvedClashIsUnrelated(rows, a, b);
    } else if exists i :: 0 <= i < |rows| && !Uninvolved(rows, rows[i]) {
      var k := RankRows(rows);
      conflict := Count.UnrelatedByCount(k, ParentsOf(rows));
      CountSeesClash(rows, k);
    }
  }

  lemma CountSeesClash(rows: seq<StatusRow>, k: Count.Ranked)
    requires Count.Valid(k) && |k.scope| == |rows|
    requires forall i: nat, j: nat :: i < |rows| && j < |rows| ==>
      (Count.Opposed(k, i, j) <==> Clash(rows[i], rows[j]))
    ensures (exists i: nat, j: nat :: Count.UnrelatedPair(k, ParentsOf(rows), i, j)) <==> UnrelatedClash(rows)
  {
    if UnrelatedClash(rows) {
      var i: nat, j: nat :| i < |rows| && j < |rows| && Clash(rows[i], rows[j]) && !Related(rows, i, j);
      assert Count.UnrelatedPair(k, ParentsOf(rows), i, j);
    }
    if i: nat, j: nat :| Count.UnrelatedPair(k, ParentsOf(rows), i, j) {
      assert Clash(rows[i], rows[j]) && !Related(rows, i, j);
    }
  }

  // ---- supersession rules --------------------------------------------------

  datatype Refusal =
    | BadInterval | UnknownFact | CrossScope | KnownTooEarly | EndNotCovered | Cycle | Conflict

  /** What the row corrects is the id of some row. */
  ghost predicate KnownTarget(rows: seq<StatusRow>, i: nat)
    requires i < |rows|
  {
    rows[i].supersedes.Some? ==> exists j :: 0 <= j < |rows| && rows[j].factId == rows[i].supersedes.value
  }

  /** Source and instrument, which a correction shares with the fact it corrects. */
  function Family(row: StatusRow): (int, int) { (row.source, row.instrument) }

  ghost predicate SameScope(rows: seq<StatusRow>, i: nat)
    requires i < |rows|
  {
    ParentOf(rows, i).Some? ==> Family(rows[i]) == Family(rows[ParentOf(rows, i).value])
  }

  /** At instant `t` the correction is known and the fact it corrects is not. */
  ghost predicate KnownBefore(p: StatusRow, c: StatusRow, t: int) {
    Reached(c.knowledge, t) && !Reached(p.knowledge, t)
  }

  /** Both facts become known, and the correction never before the fact it corrects. */
  ghost predicate KnownLater(rows: seq<StatusRow>, i: nat)
    requires i < |rows|
  {
    ParentOf(rows, i).Some? ==>
      var p := rows[ParentOf(rows, i).value];
      rows[i].knowledge.Some? && p.knowledge.Some? && !exists t :: KnownBefore(p, rows[i], t)
  }

  /** Instant `t` is left uncovered: the fact has ended and its correction not begun, or the
      correction has ended and the fact has not. */
  ghost predicate Uncovered(p: StatusRow, c: StatusRow, t: int) {
    (!BeforeEnd(t, p.to) && t < c.from) || (BeforeEnd(t, p.to) && !BeforeEnd(t, c.to))
  }

  ghost predicate CoversEnd(rows: seq<StatusRow>, i: nat)
    requires i < |rows|
  {
    ParentOf(rows, i).Some? ==> !exists t :: Uncovered(rows[ParentOf(rows, i).value], rows[i], t)
  }

  /** Comparing the clocks decides whether there is such an instant. */
  lemma KnowledgeDecides(p: StatusRow, c: StatusRow)
    requires p.knowledge.Some? && c.knowledge.Some?
    ensures c.knowledge.value >= p.knowledge.value <==> !exists t :: KnownBefore(p, c, t)
  {
    assert KnownBefore(p, c, c.knowledge.value) <==> c.knowledge.value < p.knowledge.value;
  }

  lemma EndsDecide(p: StatusRow, c: StatusRow)
    ensures (p.to.None? || c.from <= p.to.value) && (c.to.None? || (p.to.Some? && c.to.value >= p.to.value))
       <==> !exists t :: Uncovered(p, c, t)
  {
    if p.to.Some? { assert Uncovered(p, c, p.to.value) <==> p.to.value < c.from; }
    if c.to.Some? { assert BeforeEnd(c.to.value, p.to) ==> Uncovered(p, c, c.to.value); }
  }

  /** The tests on one correction, as they run. */
  method LinkTests(rows: seq<StatusRow>, i: nat) returns (known: bool, scope: bool, later: bool, covers: bool)
    requires i < |rows|
    ensures known == KnownTarget(rows, i) && scope == SameScope(rows, i)
    ensures later == KnownLater(rows, i) && covers == CoversEnd(rows, i)
  {
    if rows[i].supersedes.None? { return true, true, true, true; }
    var target := Match(rows, rows[i].supersedes.value);
    if target.None? { return false, true, true, true; }
    var p, c := rows[target.value], rows[i];
    known, scope := true, c.source == p.source && c.instrument == p.instrument;
    later := c.knowledge.Some? && p.knowledge.Some? && c.knowledge.value >= p.knowledge.value;
    if c.knowledge.Some? && p.knowledge.Some? { KnowledgeDecides(p, c); }
    covers := (p.to.None? || c.from <= p.to.value) && (c.to.None? || (p.to.Some? && c.to.value >= p.to.value));
    EndsDecide(p, c);
  }

  ghost predicate AllTargetsKnown(rows: seq<StatusRow>) {
    forall i: nat :: i < |rows| ==> KnownTarget(rows, i)
  }

  ghost predicate AllSameScope(rows: seq<StatusRow>) {
    forall i: nat :: i < |rows| ==> SameScope(rows, i)
  }

  ghost predicate AllKnownLater(rows: seq<StatusRow>) {
    forall i: nat :: i < |rows| ==> KnownLater(rows, i)
  }

  ghost predicate AllCoverEnds(rows: seq<StatusRow>) {
    forall i: nat :: i < |rows| ==> CoversEnd(rows, i)
  }

  ghost predicate LinksAccepted(rows: seq<StatusRow>) {
    AllTargetsKnown(rows) && AllSameScope(rows) && AllKnownLater(rows) && AllCoverEnds(rows)
  }

  /** The first link rule that is broken; every earlier one held. */
  ghost predicate BreaksLinks(rows: seq<StatusRow>, refusal: Refusal) {
    match refusal
    case UnknownFact => !AllTargetsKnown(rows)
    case CrossScope => AllTargetsKnown(rows) && !AllSameScope(rows)
    case KnownTooEarly => AllTargetsKnown(rows) && AllSameScope(rows) && !AllKnownLater(rows)
    case EndNotCovered =>
      AllTargetsKnown(rows) && AllSameScope(rows) && AllKnownLater(rows) && !AllCoverEnds(rows)
    case Cycle => LinksAccepted(rows) && !Acyclic(ParentsOf(rows))
    case BadInterval => false
    case Conflict => false
  }

  /** A refusal names the first rule that is broken; every earlier rule held. */
  ghost predicate Explains(rows: seq<StatusRow>, refusal: Refusal) {
    match refusal
    case BadInterval => !ValidIntervals(rows)
    case Conflict =>
      ValidIntervals(rows) && LinksAccepted(rows) && Acyclic(ParentsOf(rows)) && UnrelatedClash(rows)
    case _ => ValidIntervals(rows) && BreaksLinks(rows, refusal)
  }

  /** Every link is checked against one rule before the next rule is tried. */
  method CheckLinks(rows: seq<StatusRow>) returns (refusal: Option<Refusal>)
    ensures refusal.None? <==> LinksAccepted(rows)
    ensures refusal.Some? ==> !refusal.value.Cycle? && BreaksLinks(rows, refusal.value)
  {
    var allKnown, allScope, allLater, allCover := true, true, true, true;
    for i := 0 to |rows|
      invariant allKnown <==> forall j: nat :: j < i ==> KnownTarget(rows, j)
      invariant allScope <==> forall j: nat :: j < i ==> SameScope(rows, j)
      invariant allLater <==> forall j: nat :: j < i ==> KnownLater(rows, j)
      invariant allCover <==> forall j: nat :: j < i ==> CoversEnd(rows, j)
    {
      var known, scope, later, covers := LinkTests(rows, i);
      allKnown, allScope := allKnown && known, allScope && scope;
      allLater, allCover := allLater && later, allCover && covers;
    }
    if !allKnown { return Some(UnknownFact); }
    if !allScope { return Some(CrossScope); }
    if !allLater { return Some(KnownTooEarly); }
    if !allCover { return Some(EndNotCovered); }
    return None;
  }

  lemma NoLinksIsAcyclic(rows: seq<StatusRow>)
    requires forall i :: 0 <= i < |rows| ==> rows[i].supersedes.None?
    ensures LinksAccepted(rows) && Acyclic(ParentsOf(rows))
  {
    TrivialLineage(ParentsOf(rows));
  }

  /** `ledgr_fact_validate_status_supersession`: the lineage, or none without corrections. */
  method ValidateSupersession(rows: seq<StatusRow>) returns (r: Result<Option<Walk.Lineage>, Refusal>)
    ensures r.Success? <==> LinksAccepted(rows) && Acyclic(ParentsOf(rows))
    ensures r.Success? && r.value.Some? ==> IsLineage(ParentsOf(rows), r.value.value)
    ensures r.Success? && r.value.None? ==> forall i :: 0 <= i < |rows| ==> rows[i].supersedes.None?
    ensures r.Failure? ==> BreaksLinks(rows, r.error)
  {
    if forall i :: 0 <= i < |rows| ==> rows[i].supersedes.None? {
      NoLinksIsAcyclic(rows);
      return Success(None);
    }
    var refusal := CheckLinks(rows);
    if refusal.Some? {
      return Failure(refusal.value);
    }
    var lineage := BuildLineage(ParentsOf(rows));
    if lineage.None? {
      return Failure(Cycle);
    }
    return Success(lineage);
  }

  /** `ledgr_fact_validate_status_rows`: accepted exactly when no rule is broken. A caller that
      has checked the intervals already may skip that check. */
  method ValidateStatusRows(rows: seq<StatusRow>, intervals: bool) returns (refusal: Option<Refusal>)
    requires intervals || ValidIntervals(rows)
    ensures refusal.None? <==>
      && ValidIntervals(rows) && LinksAccepted(rows)
      && Acyclic(ParentsOf(rows)) && !UnrelatedClash(rows)
    ensures refusal.Some? ==> Explains(rows, refusal.value)
  {
    if intervals && exists i :: 0 <= i < |rows| && !BeforeEnd(rows[i].from, rows[i].to) {
      return Some(BadInterval);
    }
    var lineage := ValidateSupersession(rows);
    if lineage.Failure? {
      return Some(lineage.error);
    }
    var conflict := SourceConflict(rows);
    return if conflict then Some(Conflict) else None;
  }
}
