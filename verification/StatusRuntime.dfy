/** Trading status at an instant: which facts stand, how ties resolve, and why
    sampling interval boundaries finds every conflict. */
module StatusRuntime {
  import opened Wrappers
  import opened Clocks
  import opened Ordering
  import opened Forest
  import opened StatusFacts
  import opened LineageNumbers
  import opened StatusValidation
  import Cardinality
  import Walk = StatusLineage

  /** In force and known at `t`. */
  predicate ActiveAt(row: StatusRow, t: int) { Applies(Some(row.from), row.knowledge, row.to, t) }

  predicate Usable(row: StatusRow) {
    row.knowledge.Some? && BeforeEnd(row.from, row.to)
  }

  ghost predicate Active(rows: seq<StatusRow>, instrument: int, t: int, i: nat) {
    i < |rows| && rows[i].instrument == instrument && ActiveAt(rows[i], t)
  }

  /** Active and not corrected by another active fact. */
  ghost predicate Standing(rows: seq<StatusRow>, instrument: int, t: int, i: nat) {
    && Active(rows, instrument, t, i)
    && !exists j: nat :: Active(rows, instrument, t, j) && Ancestor(ParentsOf(rows), i, j)
  }

  /** Standing at the highest standing precedence. */
  ghost predicate Top(rows: seq<StatusRow>, instrument: int, t: int, i: nat) {
    && Standing(rows, instrument, t, i)
    && forall j: nat :: Standing(rows, instrument, t, j) ==> rows[j].precedence <= rows[i].precedence
  }

  /** Fact `i` is on top at `t`, and another top fact disagrees with it. */
  ghost predicate Conflicted(rows: seq<StatusRow>, t: int, i: nat) {
    && i < |rows|
    && Top(rows, rows[i].instrument, t, i)
    && exists j: nat :: Top(rows, rows[i].instrument, t, j) && rows[j].status != rows[i].status
  }

  // ---- no resurrection -----------------------------------------------------

  ghost predicate EndsNoEarlier(a: Option<int>, b: Option<int>) {
    b.None? || (a.Some? && a.value <= b.value)
  }

  lemma LinkMovesForward(p: StatusRow, c: StatusRow)
    requires p.knowledge.Some? && c.knowledge.Some? && !exists t :: KnownBefore(p, c, t)
    requires !exists t :: Uncovered(p, c, t)
    ensures p.knowledge.value <= c.knowledge.value && EndsNoEarlier(p.to, c.to)
  {
    assert !KnownBefore(p, c, c.knowledge.value);
    if c.to.Some? { assert !Uncovered(p, c, c.to.value); }
  }

  /** Along a chain the instrument stays and neither the end nor the knowledge moves back. */
  lemma {:induction false} ChainMovesForward(rows: seq<StatusRow>, a: nat, d: nat, k: nat)
    requires LinksAccepted(rows) && d < |rows| && Up(ParentsOf(rows), d, k) == Some(a)
    ensures rows[a].instrument == rows[d].instrument && rows[a].source == rows[d].source
    ensures EndsNoEarlier(rows[a].to, rows[d].to)
    ensures k >= 1 ==> rows[a].knowledge.Some? && rows[d].knowledge.Some?
    ensures k >= 1 ==> rows[a].knowledge.value <= rows[d].knowledge.value
    decreases k
  {
    if k > 0 {
      var b := Up(ParentsOf(rows), d, k - 1).value;
      ChainMovesForward(rows, b, d, k - 1);
      assert SameScope(rows, b) && KnownLater(rows, b) && CoversEnd(rows, b);
      LinkMovesForward(rows[a], rows[b]);
    }
  }

  /** A link of the chain, `j` corrections above `d`, is in force at `t`. */
  ghost predicate InForceAbove(rows: seq<StatusRow>, d: nat, j: nat, t: int)
    requires d < |rows|
  {
    && Up(ParentsOf(rows), d, j).Some?
    && rows[Up(ParentsOf(rows), d, j).value].from <= t
    && BeforeEnd(t, rows[Up(ParentsOf(rows), d, j).value].to)
  }

  /** An accepted chain of any depth leaves no gap: from when its oldest fact begins until its
      last correction ends, some fact of the chain is in force. */
  lemma {:induction false} ChainHasNoGap(rows: seq<StatusRow>, a: nat, d: nat, k: nat, t: int) returns (j: nat)
    requires LinksAccepted(rows) && d < |rows| && Up(ParentsOf(rows), d, k) == Some(a)
    requires rows[a].from <= t && BeforeEnd(t, rows[d].to)
    ensures j <= k && InForceAbove(rows, d, j, t)
    decreases k
  {
    if k == 0 { return 0; }
    var b := Up(ParentsOf(rows), d, k - 1).value;
    if rows[b].from <= t {
      j := ChainHasNoGap(rows, b, d, k - 1, t);
    } else {
      j := k;
      assert CoversEnd(rows, b);
      assert !Uncovered(rows[a], rows[b], t);
    }
  }

  /** A corrected fact never comes back: once a correction of any depth is known and has
      begun, ended again or not, the corrected fact stands at no later instant. */
  lemma NoResurrection(rows: seq<StatusRow>, corrected: nat, correction: nat, t0: int, t: int)
    requires LinksAccepted(rows) && corrected < |rows| && correction < |rows|
    requires Ancestor(ParentsOf(rows), corrected, correction)
    requires rows[correction].from <= t0 && Reached(rows[correction].knowledge, t0) && t0 <= t
    ensures !Standing(rows, rows[corrected].instrument, t, corrected)
    ensures !Conflicted(rows, t, corrected)
  {
    var k: nat :| k >= 1 && Up(ParentsOf(rows), correction, k) == Some(corrected);
    ChainMovesForward(rows, corrected, correction, k);
    if Active(rows, rows[corrected].instrument, t, corrected) {
      assert Active(rows, rows[corrected].instrument, t, correction);
    }
  }

  // ---- boundary sampling -----------------------------------------------------

  /** The instants at which a usable fact of the instrument starts, becomes known or ends. */
  predicate IsBoundary(rows: seq<StatusRow>, instrument: int, t: int) {
    exists i :: 0 <= i < |rows| && rows[i].instrument == instrument && Usable(rows[i])
                && (rows[i].from == t || rows[i].knowledge == Some(t) || rows[i].to == Some(t))
  }

  lemma ActiveIsUsable(row: StatusRow, t: int)
    requires ActiveAt(row, t)
    ensures Usable(row)
  {
  }

  ghost predicate QuietBetween(rows: seq<StatusRow>, instrument: int, b: int, t: int) {
    b <= t && forall s :: b < s <= t ==> !IsBoundary(rows, instrument, s)
  }

  lemma ActiveConstant(rows: seq<StatusRow>, instrument: int, b: int, t: int, i: nat)
    requires QuietBetween(rows, instrument, b, t)
    ensures Active(rows, instrument, t, i) <==> Active(rows, instrument, b, i)
  {
    if i < |rows| && rows[i].instrument == instrument && Usable(rows[i]) {
      var row := rows[i];
      if b < row.from <= t { assert IsBoundary(rows, instrument, row.from); }
      if b < row.knowledge.value <= t { assert IsBoundary(rows, instrument, row.knowledge.value); }
      if row.to.Some? && b < row.to.value <= t { assert IsBoundary(rows, instrument, row.to.value); }
    }
  }

  lemma StandingConstant(rows: seq<StatusRow>, instrument: int, b: int, t: int, i: nat)
    requires QuietBetween(rows, instrument, b, t)
    ensures Standing(rows, instrument, t, i) <==> Standing(rows, instrument, b, i)
  {
    forall j: nat ensures Active(rows, instrument, t, j) <==> Active(rows, instrument, b, j) {
      ActiveConstant(rows, instrument, b, t, j);
    }
  }

  lemma TopConstant(rows: seq<StatusRow>, instrument: int, b: int, t: int, i: nat)
    requires QuietBetween(rows, instrument, b, t)
    ensures Top(rows, instrument, t, i) <==> Top(rows, instrument, b, i)
  {
    forall j: nat ensures Standing(rows, instrument, t, j) <==> Standing(rows, instrument, b, j) {
      StandingConstant(rows, instrument, b, t, j);
    }
  }

  /** The last boundary at or before an instant when the instrument has an active fact. */
  lemma LastBoundary(rows: seq<StatusRow>, instrument: int, t: int, i: nat) returns (b: int)
    requires Active(rows, instrument, t, i)
    ensures IsBoundary(rows, instrument, b) && QuietBetween(rows, instrument, b, t)
  {
    b := t;
    while !IsBoundary(rows, instrument, b)
      invariant rows[i].from <= b && QuietBetween(rows, instrument, b, t)
      decreases b - rows[i].from
    {
      b := b - 1;
    }
  }

  /** A conflict at any instant is a conflict at some boundary. */
  lemma BoundariesSuffice(rows: seq<StatusRow>, t: int, i: nat) returns (b: int)
    requires Conflicted(rows, t, i)
    ensures IsBoundary(rows, rows[i].instrument, b) && Conflicted(rows, b, i)
  {
    var instrument := rows[i].instrument;
    b := LastBoundary(rows, instrument, t, i);
    var j: nat :| Top(rows, instrument, t, j) && rows[j].status != rows[i].status;
    TopConstant(rows, instrument, b, t, i);
    TopConstant(rows, instrument, b, t, j);
  }

  // ---- the scan ---------------------------------------------------------------

  function ActiveRows(rows: seq<StatusRow>, instrument: int, t: int): set<nat> {
    set i: nat | i < |rows| && rows[i].instrument == instrument && Usable(rows[i]) && ActiveAt(rows[i], t)
  }

  function StandingRows(lineage: Walk.Lineage, active: set<nat>): set<nat>
    requires |lineage.entry| == |lineage.exit| && forall i :: i in active ==> i < |lineage.entry|
  {
    set i | i in active && !exists j :: j in active && IsAncestor(lineage, i, j)
  }

  function TopRows(rows: seq<StatusRow>, standing: set<nat>): set<nat>
    requires forall i :: i in standing ==> i < |rows|
  {
    set i | i in standing && forall j :: j in standing ==> rows[j].precedence <= rows[i].precedence
  }

  predicate Disagree(rows: seq<StatusRow>, top: set<nat>)
    requires forall i :: i in top ==> i < |rows|
  {
    exists i, j :: i in top && j in top && rows[i].status != rows[j].status
  }

  lemma ScanIsTop(rows: seq<StatusRow>, lineage: Walk.Lineage, instrument: int, t: int)
    requires IsLineage(ParentsOf(rows), lineage)
    ensures forall i: nat :: i in ActiveRows(rows, instrument, t) <==> Active(rows, instrument, t, i)
    ensures var standing := StandingRows(lineage, ActiveRows(rows, instrument, t));
      forall i: nat :: i in standing <==> Standing(rows, instrument, t, i)
  {
    var active := ActiveRows(rows, instrument, t);
    forall i: nat ensures i in active <==> Active(rows, instrument, t, i) {
      if Active(rows, instrument, t, i) { ActiveIsUsable(rows[i], t); }
    }
    forall i: nat ensures i in StandingRows(lineage, active) <==> Standing(rows, instrument, t, i) {
      forall j: nat | i in active && j in active
        ensures IsAncestor(lineage, i, j) <==> Ancestor(ParentsOf(rows), i, j)
      {
      }
    }
  }

  ghost function ConflictSet(rows: seq<StatusRow>, instrument: int, t: int): set<nat> {
    set i: nat | i < |rows| && rows[i].instrument == instrument && Conflicted(rows, t, i)
  }

  /** One sampled instant: the facts it shows to be in conflict. */
  method ConflictsAt(rows: seq<StatusRow>, lineage: Walk.Lineage, instrument: int, t: int) returns (hit: set<nat>)
    requires IsLineage(ParentsOf(rows), lineage)
    ensures hit == ConflictSet(rows, instrument, t)
  {
    var active := ActiveRows(rows, instrument, t);
    var standing := StandingRows(lineage, active);
    var top := TopRows(rows, standing);
    ScanIsTop(rows, lineage, instrument, t);
    TopOfStanding(rows, instrument, t, standing);
    hit := if Disagree(rows, top) then top else {};
    DisagreeMeansAll(rows, instrument, t, top);
  }

  lemma TopOfStanding(rows: seq<StatusRow>, instrument: int, t: int, standing: set<nat>)
    requires forall i: nat :: i in standing <==> Standing(rows, instrument, t, i)
    requires forall i :: i in standing ==> i < |rows|
    ensures forall i: nat :: i in TopRows(rows, standing) <==> Top(rows, instrument, t, i)
  {
  }

  lemma DisagreeMeansAll(rows: seq<StatusRow>, instrument: int, t: int, top: set<nat>)
    requires forall i: nat :: i in top <==> Top(rows, instrument, t, i)
    requires forall i :: i in top ==> i < |rows|
    ensures forall i: nat :: i < |rows| && rows[i].instrument == instrument ==>
      (Conflicted(rows, t, i) <==> Disagree(rows, top) && i in top)
    ensures forall i :: i in top ==> rows[i].instrument == instrument
    ensures ConflictSet(rows, instrument, t) == if Disagree(rows, top) then top else {}
  {
    forall i: nat | i < |rows| && rows[i].instrument == instrument && i in top && Disagree(rows, top)
      ensures Conflicted(rows, t, i)
    {
      var a, b :| a in top && b in top && rows[a].status != rows[b].status;
      if rows[a].status != rows[i].status { assert Top(rows, instrument, t, a); }
      else { assert Top(rows, instrument, t, b); }
    }
  }

  function RowBoundaries(row: StatusRow): seq<int> {
    if !Usable(row) then []
    else [row.from, row.knowledge.value] + if row.to.Some? then [row.to.value] else []
  }

  function Boundaries(rows: seq<StatusRow>, instrument: int): (bounds: seq<int>)
    ensures forall t :: t in bounds <==> IsBoundary(rows, instrument, t)
  {
    if rows == [] then []
    else
      var front, last := rows[..|rows| - 1], rows[|rows| - 1];
      assert forall i :: 0 <= i < |front| ==> front[i] == rows[i];
      Boundaries(front, instrument) + if last.instrument == instrument then RowBoundaries(last) else []
  }

  ghost predicate EverConflicted(rows: seq<StatusRow>, i: nat) {
    exists t :: Conflicted(rows, t, i)
  }

  /** Conflicted at one of the first `k` sampled instants. */
  ghost predicate ConflictedAmong(rows: seq<StatusRow>, instrument: int, bounds: seq<int>, k: nat, i: nat)
    requires k <= |bounds|
  {
    exists m :: 0 <= m < k && i in ConflictSet(rows, instrument, bounds[m])
  }

  lemma SampledIsEver(rows: seq<StatusRow>, instrument: int, bounds: seq<int>, i: nat)
    requires i < |rows| && rows[i].instrument == instrument
    requires forall t :: IsBoundary(rows, instrument, t) ==> t in bounds
    ensures ConflictedAmong(rows, instrument, bounds, |bounds|, i) <==> EverConflicted(rows, i)
  {
    if EverConflicted(rows, i) {
      var t :| Conflicted(rows, t, i);
      var b := BoundariesSuffice(rows, t, i);
      var m :| 0 <= m < |bounds| && bounds[m] == b;
      assert i in ConflictSet(rows, instrument, bounds[m]);
    }
  }

  function SampledInstants(rows: seq<StatusRow>, instrument: int): seq<int> {
    SortUnique(Boundaries(rows, instrument))
  }

  lemma EveryBoundarySampled(rows: seq<StatusRow>, instrument: int)
    ensures forall t :: IsBoundary(rows, instrument, t) ==> t in SampledInstants(rows, instrument)
  {
    forall t | IsBoundary(rows, instrument, t) ensures t in SampledInstants(rows, instrument) {
      assert t in Boundaries(rows, instrument);
    }
  }

  ghost function ConflictUnion(rows: seq<StatusRow>, instrument: int, bounds: seq<int>, k: nat): set<nat>
    requires k <= |bounds|
  {
    if k == 0 then {}
    else ConflictUnion(rows, instrument, bounds, k - 1) + ConflictSet(rows, instrument, bounds[k - 1])
  }

  lemma {:induction false} UnionMember(rows: seq<StatusRow>, instrument: int, bounds: seq<int>, k: nat, i: nat)
    requires k <= |bounds|
    ensures i in ConflictUnion(rows, instrument, bounds, k) <==> ConflictedAmong(rows, instrument, bounds, k, i)
  {
    hide ConflictSet;
    if k > 0 {
      UnionMember(rows, instrument, bounds, k - 1, i);
      if i in ConflictSet(rows, instrument, bounds[k - 1]) {
        assert ConflictedAmong(rows, instrument, bounds, k, i);
      }
    }
  }

  /** The facts in conflict at one of the given instants. */
  method ScanInstants(rows: seq<StatusRow>, lineage: Walk.Lineage, instrument: int, bounds: seq<int>)
    returns (hits: set<nat>)
    requires IsLineage(ParentsOf(rows), lineage)
    ensures hits == ConflictUnion(rows, instrument, bounds, |bounds|)
  {
    hits := {};
    for k := 0 to |bounds|
      invariant hits == ConflictUnion(rows, instrument, bounds, k)
    {
      var hit := ConflictsAt(rows, lineage, instrument, bounds[k]);
      hits := hits + hit;
    }
  }

  lemma UnionIsEver(rows: seq<StatusRow>, instrument: int, bounds: seq<int>, i: nat)
    requires bounds == SampledInstants(rows, instrument)
    ensures i in ConflictUnion(rows, instrument, bounds, |bounds|)
       <==> i < |rows| && rows[i].instrument == instrument && EverConflicted(rows, i)
  {
    UnionMember(rows, instrument, bounds, |bounds|, i);
    EveryBoundarySampled(rows, instrument);
    if i < |rows| && rows[i].instrument == instrument { SampledIsEver(rows, instrument, bounds, i); }
  }

  method ScanInstrument(rows: seq<StatusRow>, lineage: Walk.Lineage, instrument: int) returns (hits: set<nat>)
    requires IsLineage(ParentsOf(rows), lineage)
    ensures forall i: nat :: i in hits <==> i < |rows| && rows[i].instrument == instrument && EverConflicted(rows, i)
  {
    var bounds := SampledInstants(rows, instrument);
    hits := ScanInstants(rows, lineage, instrument, bounds);
    forall i: nat
      ensures i in hits <==> i < |rows| && rows[i].instrument == instrument && EverConflicted(rows, i)
    {
      UnionIsEver(rows, instrument, bounds, i);
    }
  }

  function UsableRows(rows: seq<StatusRow>): set<nat> {
    set i: nat | i < |rows| && Usable(rows[i])
  }

  lemma ConflictNeedsTwo(rows: seq<StatusRow>, t: int, i: nat)
    requires Conflicted(rows, t, i)
    ensures |UsableRows(rows)| >= 2
    ensures Usable(rows[i])
  {
    var j: nat :| Top(rows, rows[i].instrument, t, j) && rows[j].status != rows[i].status;
    assert {i, j} <= UsableRows(rows);
    Cardinality.SubsetCardinality({i, j}, UsableRows(rows));
  }

  function UsableInstruments(rows: seq<StatusRow>): (r: seq<int>)
    ensures forall i :: 0 <= i < |rows| && Usable(rows[i]) ==> rows[i].instrument in r
  {
    if rows == [] then []
    else
      var front, last := rows[..|rows| - 1], rows[|rows| - 1];
      assert forall i :: 0 <= i < |front| ==> front[i] == rows[i];
      UsableInstruments(front) + if Usable(last) then [last.instrument] else []
  }

  method MarkConflicts(rows: seq<StatusRow>, lineage: Walk.Lineage) returns (hits: set<nat>)
    requires IsLineage(ParentsOf(rows), lineage)
    ensures forall i: nat :: i in hits <==> i < |rows| && EverConflicted(rows, i)
  {
    var instruments := Unique(UsableInstruments(rows));
    hits := {};
    for k := 0 to |instruments|
      invariant forall i: nat :: i in hits <==>
        i < |rows| && rows[i].instrument in instruments[..k] && EverConflicted(rows, i)
    {
      assert instruments[..k + 1] == instruments[..k] + [instruments[k]];
      var hit := ScanInstrument(rows, lineage, instruments[k]);
      hits := hits + hit;
    }
    assert instruments[..|instruments|] == instruments;
    forall i: nat | i < |rows| && EverConflicted(rows, i) ensures i in hits {
      var t :| Conflicted(rows, t, i);
      ConflictNeedsTwo(rows, t, i);
    }
  }

  /** The ids of the first `k` rows that are in the set, in row order. */
  function IdsIn(rows: seq<StatusRow>, hits: set<nat>, k: nat): (ids: seq<int>)
    requires k <= |rows|
    ensures forall id :: id in ids <==> exists i: nat :: i < k && i in hits && rows[i].factId == id
  {
    if k == 0 then []
    else IdsIn(rows, hits, k - 1) + if k - 1 in hits then [rows[k - 1].factId] else []
  }

  ghost function EverConflictedRows(rows: seq<StatusRow>): set<nat> {
    set i: nat | i < |rows| && EverConflicted(rows, i)
  }

  lemma NoneConflicted(rows: seq<StatusRow>)
    requires |UsableRows(rows)| < 2
    ensures EverConflictedRows(rows) == {}
  {
    forall i: nat | i < |rows| ensures !EverConflicted(rows, i) {
      forall t ensures !Conflicted(rows, t, i) {
        if Conflicted(rows, t, i) { ConflictNeedsTwo(rows, t, i); }
      }
    }
  }

  lemma {:induction false} NoIds(rows: seq<StatusRow>, k: nat)
    requires k <= |rows|
    ensures IdsIn(rows, {}, k) == []
  {
    if k > 0 { NoIds(rows, k - 1); }
  }

  /** `ledgr_status_runtime_conflicts`; `None` is the lineage's acyclicity abort. The ids
      reported are those of the facts in conflict at some instant, each once, in row order. */
  method RuntimeConflicts(rows: seq<StatusRow>) returns (reported: Option<seq<int>>)
    ensures reported.None? <==> |UsableRows(rows)| >= 2 && !Acyclic(ParentsOf(rows))
    ensures reported.Some? ==> reported.value == Unique(IdsIn(rows, EverConflictedRows(rows), |rows|))
  {
    if |UsableRows(rows)| < 2 {
      NoneConflicted(rows);
      NoIds(rows, |rows|);
      return Some([]);
    }
    var lineage := BuildLineage(ParentsOf(rows));
    if lineage.None? {
      return None;
    }
    var hits := MarkConflicts(rows, lineage.value);
    assert hits == EverConflictedRows(rows);
    return Some(Unique(IdsIn(rows, hits, |rows|)));
  }

  /** So a fact id is reported exactly when its fact is in conflict at some instant. */
  lemma ReportedIsConflicted(rows: seq<StatusRow>, id: int)
    ensures id in Unique(IdsIn(rows, EverConflictedRows(rows), |rows|))
       <==> exists i: nat, t :: i < |rows| && rows[i].factId == id && Conflicted(rows, t, i)
  {
    var ids := IdsIn(rows, EverConflictedRows(rows), |rows|);
    assert id in Unique(ids) <==> id in ids;
    if i: nat, t :| i < |rows| && rows[i].factId == id && Conflicted(rows, t, i) {
      assert EverConflicted(rows, i) && i in EverConflictedRows(rows);
    }
    if id in ids {
      var i: nat :| i < |rows| && i in EverConflictedRows(rows) && rows[i].factId == id;
      var t :| Conflicted(rows, t, i);
    }
  }

  // ---- resolution ------------------------------------------------------------

  datatype Resolution = Unknown | Conflicting | Asserted(status: int)

  /** `ledgr_history_status_resolve_applicable`: the answer from a set of applicable facts. */
  function ResolveActive(rows: seq<StatusRow>, lineage: Walk.Lineage, active: set<nat>): Resolution
    requires |lineage.entry| == |lineage.exit| == |rows| && forall i :: i in active ==> i < |rows|
  {
    if active == {} then Unknown
    else
      var standing := StandingRows(lineage, active);
      if standing == {} then Conflicting
      else
        var top := TopRows(rows, standing);
        if Disagree(rows, top) then Conflicting
        else TopStatus(rows, standing)
  }

  /** The answer at `t`. */
  function Resolve(rows: seq<StatusRow>, lineage: Walk.Lineage, instrument: int, t: int): Resolution
    requires IsLineage(ParentsOf(rows), lineage)
  {
    ResolveActive(rows, lineage, ActiveRows(rows, instrument, t))
  }

  /** The common status of the top facts, read from the last of them. */
  function TopStatus(rows: seq<StatusRow>, standing: set<nat>): Resolution
    requires forall i :: i in standing ==> i < |rows|
  {
    var top := TopRows(rows, standing);
    if i :| i in top && forall j :: j in top ==> j <= i then Asserted(rows[i].status) else Unknown
  }

  /** Following corrections downwards ends at a fact no active fact corrects. */
  lemma {:induction false} FindStanding(rows: seq<StatusRow>, instrument: int, t: int, i: nat, depth: nat)
    returns (s: nat)
    requires Active(rows, instrument, t, i) && Acyclic(ParentsOf(rows))
    requires RootedAt(ParentsOf(rows), i, depth)
    ensures Standing(rows, instrument, t, s)
    decreases |rows| - depth
  {
    Walk.DepthBound(ParentsOf(rows), i, depth);
    if Standing(rows, instrument, t, i) {
      return i;
    }
    var j: nat :| Active(rows, instrument, t, j) && Ancestor(ParentsOf(rows), i, j);
    var k: nat :| k >= 1 && Up(ParentsOf(rows), j, k) == Some(i);
    UpAdd(ParentsOf(rows), j, k, depth);
    UpAdd(ParentsOf(rows), j, k, depth + 1);
    s := FindStanding(rows, instrument, t, j, depth + k);
  }

  lemma HighestPrecedence(rows: seq<StatusRow>, standing: set<nat>) returns (i: nat)
    requires standing != {} && forall i :: i in standing ==> i < |rows|
    ensures i in TopRows(rows, standing)
    decreases |standing|
  {
    var x :| x in standing;
    if standing == {x} {
      return x;
    }
    var y := HighestPrecedence(rows, standing - {x});
    i := if rows[y].precedence <= rows[x].precedence then x else y;
    forall j | j in standing ensures rows[j].precedence <= rows[i].precedence {
      if j != x { assert j in standing - {x}; }
    }
  }

  lemma LastOf(top: set<nat>) returns (i: nat)
    requires top != {}
    ensures i in top && forall j :: j in top ==> j <= i
    decreases |top|
  {
    var x :| x in top;
    if top == {x} {
      return x;
    }
    var y := LastOf(top - {x});
    i := if y <= x then x else y;
    forall j | j in top ensures j <= i {
      if j != x { assert j in top - {x}; }
    }
  }

  function TopSet(rows: seq<StatusRow>, lineage: Walk.Lineage, instrument: int, t: int): set<nat>
    requires IsLineage(ParentsOf(rows), lineage)
  {
    TopRows(rows, StandingRows(lineage, ActiveRows(rows, instrument, t)))
  }

  lemma TopSetIsTop(rows: seq<StatusRow>, lineage: Walk.Lineage, instrument: int, t: int)
    requires IsLineage(ParentsOf(rows), lineage)
    ensures forall i: nat :: i in TopSet(rows, lineage, instrument, t) <==> Top(rows, instrument, t, i)
    ensures ConflictSet(rows, instrument, t)
         == if Disagree(rows, TopSet(rows, lineage, instrument, t)) then TopSet(rows, lineage, instrument, t) else {}
  {
    ScanIsTop(rows, lineage, instrument, t);
    TopOfStanding(rows, instrument, t, StandingRows(lineage, ActiveRows(rows, instrument, t)));
    DisagreeMeansAll(rows, instrument, t, TopSet(rows, lineage, instrument, t));
  }

  /** Some active fact is corrected by no active fact, so a top fact exists. */
  lemma SomethingStands(rows: seq<StatusRow>, lineage: Walk.Lineage, instrument: int, t: int)
    requires IsLineage(ParentsOf(rows), lineage) && Acyclic(ParentsOf(rows))
    requires ActiveRows(rows, instrument, t) != {}
    ensures StandingRows(lineage, ActiveRows(rows, instrument, t)) != {}
    ensures TopSet(rows, lineage, instrument, t) != {}
  {
    var a :| a in ActiveRows(rows, instrument, t);
    ScanIsTop(rows, lineage, instrument, t);
    var depth := DepthOf(ParentsOf(rows), a);
    var s := FindStanding(rows, instrument, t, a, depth);
    var standing := StandingRows(lineage, ActiveRows(rows, instrument, t));
    assert s in standing;
    var h := HighestPrecedence(rows, standing);
  }

  /** The resolver answers "conflicting" exactly where the scan reports a fact: its
      branch for "every active fact is corrected" is never taken. */
  lemma ResolveConflicting(rows: seq<StatusRow>, lineage: Walk.Lineage, instrument: int, t: int)
    requires IsLineage(ParentsOf(rows), lineage) && Acyclic(ParentsOf(rows))
    ensures Resolve(rows, lineage, instrument, t).Conflicting? <==> ConflictSet(rows, instrument, t) != {}
  {
    TopSetIsTop(rows, lineage, instrument, t);
    var active := ActiveRows(rows, instrument, t);
    if active != {} {
      SomethingStands(rows, lineage, instrument, t);
    } else {
      assert TopSet(rows, lineage, instrument, t) == {};
    }
  }

  /** Any other answer for an instrument with active facts is the status every top fact shares. */
  lemma ResolveAsserted(rows: seq<StatusRow>, lineage: Walk.Lineage, instrument: int, t: int)
    requires IsLineage(ParentsOf(rows), lineage) && Acyclic(ParentsOf(rows))
    ensures Resolve(rows, lineage, instrument, t).Unknown? <==> ActiveRows(rows, instrument, t) == {}
    ensures Resolve(rows, lineage, instrument, t).Asserted? ==>
      forall i: nat :: Top(rows, instrument, t, i) ==> Asserted(rows[i].status) == Resolve(rows, lineage, instrument, t)
  {
    TopSetIsTop(rows, lineage, instrument, t);
    if ActiveRows(rows, instrument, t) != {} {
      SomethingStands(rows, lineage, instrument, t);
      var last := LastOf(TopSet(rows, lineage, instrument, t));
    }
  }

  /** The whole answer: the state, which also fixes the reason, and the winning fact ids. */
  datatype StatusAnswer = StatusAnswer(state: Resolution, winners: seq<int>)

  function ResolveWithWinners(rows: seq<StatusRow>, lineage: Walk.Lineage, active: set<nat>): StatusAnswer
    requires |lineage.entry| == |lineage.exit| == |rows| && forall i :: i in active ==> i < |rows|
  {
    StatusAnswer(ResolveActive(rows, lineage, active),
                 SortUnique(IdsIn(rows, TopRows(rows, StandingRows(lineage, active)), |rows|)))
  }

  /** The winners are the ids of the top facts, sorted, each once. */
  lemma WinnersAreTop(rows: seq<StatusRow>, lineage: Walk.Lineage, instrument: int, t: int)
    requires IsLineage(ParentsOf(rows), lineage)
    ensures var winners := ResolveWithWinners(rows, lineage, ActiveRows(rows, instrument, t)).winners;
      && Ascending(winners)
      && forall id :: id in winners <==> exists i: nat :: Top(rows, instrument, t, i) && rows[i].factId == id
  {
    hide Top, Standing;
    TopSetIsTop(rows, lineage, instrument, t);
    var top := TopSet(rows, lineage, instrument, t);
    var ids := IdsIn(rows, top, |rows|);
    forall id ensures id in ids <==> exists i: nat :: Top(rows, instrument, t, i) && rows[i].factId == id {
      if i: nat :| Top(rows, instrument, t, i) && rows[i].factId == id { TopInRows(rows, instrument, t, i); }
    }
  }

  lemma TopInRows(rows: seq<StatusRow>, instrument: int, t: int, i: nat)
    requires Top(rows, instrument, t, i)
    ensures i < |rows|
  {
  }

  // ---- the answer in terms of the facts' clocks, corrections and precedence --------------------

  /** The fact is about the instrument, has begun, is known, and has not ended. */
  predicate InForce(rows: seq<StatusRow>, instrument: int, t: int, i: nat) {
    && i < |rows| && rows[i].instrument == instrument && rows[i].from <= t
    && rows[i].knowledge != None && rows[i].knowledge.value <= t
    && (rows[i].to == None || t < rows[i].to.value)
  }

  /** No fact in force corrects it, directly or through others. */
  ghost predicate Uncorrected(rows: seq<StatusRow>, instrument: int, t: int, i: nat) {
    InForce(rows, instrument, t, i)
    && forall j: nat :: InForce(rows, instrument, t, j) ==> !Ancestor(ParentsOf(rows), i, j)
  }

  /** And no other such fact has higher precedence. */
  ghost predicate Decides(rows: seq<StatusRow>, instrument: int, t: int, i: nat) {
    Uncorrected(rows, instrument, t, i)
    && !exists j: nat :: Uncorrected(rows, instrument, t, j) && rows[j].precedence > rows[i].precedence
  }

  /** Both decide, and they assert different statuses. */
  ghost predicate Differ(rows: seq<StatusRow>, instrument: int, t: int, i: nat, j: nat) {
    Decides(rows, instrument, t, i) && Decides(rows, instrument, t, j) && rows[i].status != rows[j].status
  }

  lemma DecidesIsTop(rows: seq<StatusRow>, instrument: int, t: int)
    ensures forall i: nat :: InForce(rows, instrument, t, i) <==> Active(rows, instrument, t, i)
    ensures forall i: nat :: Uncorrected(rows, instrument, t, i) <==> Standing(rows, instrument, t, i)
    ensures forall i: nat :: Decides(rows, instrument, t, i) <==> Top(rows, instrument, t, i)
  {
    forall i: nat ensures InForce(rows, instrument, t, i) <==> Active(rows, instrument, t, i) { }
    forall i: nat ensures Uncorrected(rows, instrument, t, i) <==> Standing(rows, instrument, t, i) { }
  }

  /** The resolved status: unknown without a fact in force, conflicting when two deciding facts
      differ, and otherwise what a deciding fact asserts; the winners are the deciding facts. */
  lemma StatusMeans(rows: seq<StatusRow>, lineage: Walk.Lineage, instrument: int, t: int)
    requires IsLineage(ParentsOf(rows), lineage) && Acyclic(ParentsOf(rows))
    ensures var answer := ResolveWithWinners(rows, lineage, ActiveRows(rows, instrument, t));
      && answer.state == Resolve(rows, lineage, instrument, t)
      && (answer.state == Unknown <==> forall i: nat :: !InForce(rows, instrument, t, i))
      && (answer.state == Conflicting <==>
            exists i: nat, j: nat :: Differ(rows, instrument, t, i, j))
      && (answer.state.Asserted? ==> exists i: nat :: Decides(rows, instrument, t, i))
      && (answer.state.Asserted? ==>
            forall i: nat :: Decides(rows, instrument, t, i) ==> answer.state == Asserted(rows[i].status))
      && (forall id :: id in answer.winners <==>
            exists i: nat :: Decides(rows, instrument, t, i) && rows[i].factId == id)
  {
    hide Decides, Uncorrected, InForce, Top, Standing, Active;
    DecidesIsTop(rows, instrument, t);
    WinnersAreTop(rows, lineage, instrument, t);
    ResolveConflicting(rows, lineage, instrument, t);
    ResolveAsserted(rows, lineage, instrument, t);
    TopSetIsTop(rows, lineage, instrument, t);
    ScanIsTop(rows, lineage, instrument, t);
    forall i: nat ensures i in ActiveRows(rows, instrument, t) <==> InForce(rows, instrument, t, i) { }
    if Resolve(rows, lineage, instrument, t).Asserted? {
      SomethingStands(rows, lineage, instrument, t);
      var i :| i in TopSet(rows, lineage, instrument, t);
      assert Decides(rows, instrument, t, i);
    }
    DisagreeMeansDiffer(rows, TopSet(rows, lineage, instrument, t), instrument, t);
  }

  /** And an id is reported as in conflict exactly when its fact decides at some instant at which a
      deciding fact differs from it. */
  lemma ReportedMeans(rows: seq<StatusRow>, id: int)
    ensures id in Unique(IdsIn(rows, EverConflictedRows(rows), |rows|))
       <==> exists i: nat :: i < |rows| && rows[i].factId == id && EverDiffers(rows, i)
  {
    hide Conflicted, Differ;
    ReportedIsConflicted(rows, id);
    forall i: nat, t | i < |rows|
      ensures Conflicted(rows, t, i) <==> exists j: nat :: Differ(rows, rows[i].instrument, t, i, j)
    {
      ConflictedMeansDiffer(rows, t, i);
    }
    if i: nat, t :| i < |rows| && rows[i].factId == id && Conflicted(rows, t, i) {
      var j: nat :| Differ(rows, rows[i].instrument, t, i, j);
      assert EverDiffers(rows, i);
    }
    if i: nat :| i < |rows| && rows[i].factId == id && EverDiffers(rows, i) {
      var t, j: nat :| Differ(rows, rows[i].instrument, t, i, j);
      assert Conflicted(rows, t, i);
    }
  }

  ghost predicate EverDiffers(rows: seq<StatusRow>, i: nat)
    requires i < |rows|
  {
    exists t, j: nat :: Differ(rows, rows[i].instrument, t, i, j)
  }

  lemma ConflictedMeansDiffer(rows: seq<StatusRow>, t: int, i: nat)
    requires i < |rows|
    ensures Conflicted(rows, t, i) <==> exists j: nat :: Differ(rows, rows[i].instrument, t, i, j)
  {
    hide Decides, Standing;
    DecidesIsTop(rows, rows[i].instrument, t);
    if Conflicted(rows, t, i) {
      var j: nat :| Top(rows, rows[i].instrument, t, j) && rows[j].status != rows[i].status;
      assert Differ(rows, rows[i].instrument, t, i, j);
    }
  }

  lemma DisagreeMeansDiffer(rows: seq<StatusRow>, top: set<nat>, instrument: int, t: int)
    requires forall i: nat :: i in top <==> Decides(rows, instrument, t, i)
    requires forall i :: i in top ==> i < |rows|
    ensures Disagree(rows, top) <==> exists i: nat, j: nat :: Differ(rows, instrument, t, i, j)
    ensures Disagree(rows, top) ==> top != {}
  {
    hide Decides;
    if i: nat, j: nat :| Differ(rows, instrument, t, i, j) { assert i in top && j in top; }
    if Disagree(rows, top) {
      var i, j :| i in top && j in top && rows[i].status != rows[j].status;
      assert Differ(rows, instrument, t, i, j);
    }
  }
}
