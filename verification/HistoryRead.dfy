/** The compact causal history read: one instrument's requested window, with carried
    values, lifetime barriers, summary facts and the access trace. */
module HistoryRead {
  import opened Wrappers
  import opened Ordering
  import opened HistoryRuns

  /** A stored cell; a non-finite cell keeps which non-finite value it holds. */
  datatype Cell = Finite(value: real) | NonFinite(tag: int)

  // ---- what a cell means -----------------------------------------------------

  /** How the naive backward scan treats a requested column. */
  datatype Treatment =
    | Own                                // the cell is finite
    | Structural                         // not expected here, or a restart after inactivity
    | Unfilled                           // missing, nothing to carry
    | Expired                            // the last finite cell is too old
    | Carried(source: nat)               // filled from that column

  /** The last finite column before `c`, or -1. */
  function LastFinite(row: seq<Cell>, c: nat): (p: int)
    requires c <= |row|
    ensures -1 <= p < c
    ensures p >= 0 ==> row[p].Finite?
    ensures forall k :: p < k < c ==> row[k].NonFinite?
  {
    if c == 0 then -1 else if row[c - 1].Finite? then c - 1 else LastFinite(row, c - 1)
  }

  predicate InactiveWithin(mask: seq<bool>, first: nat, last: nat)
    requires last < |mask|
  {
    exists c :: first <= c <= last && !mask[c]
  }

  /** Fixed for a read: the carry horizon, whether carrying is allowed, the terminal column. */
  datatype Policy = Policy(maxCarry: nat, carryAllowed: bool)

  function Treat(row: seq<Cell>, mask: seq<bool>, terminal: int, policy: Policy, c: nat): Treatment
    requires c < |row| == |mask|
  {
    if row[c].Finite? then Own
    else if !mask[c] || c + 1 >= terminal then Structural
    else
      var p := LastFinite(row, c);
      if InactiveWithin(mask, if p < 0 then 0 else p, c) then Structural
      else if !policy.carryAllowed || p < 0 then Unfilled
      else if c - p > policy.maxCarry then Expired
      else Carried(p)
  }

  function Shown(row: seq<Cell>, c: nat, treatment: Treatment): Cell
    requires c < |row| && (treatment.Carried? ==> treatment.source < |row|)
  {
    if treatment.Carried? then row[treatment.source] else row[c]
  }

  // ---- when each treatment is given ---------------------------------------------

  /** The finite column nearest before `c`. */
  ghost predicate NearestBefore(row: seq<Cell>, c: nat, p: nat)
    requires c < |row|
  {
    p < c && row[p].Finite? && forall k :: p < k < c ==> !row[k].Finite?
  }

  ghost predicate NoneBefore(row: seq<Cell>, c: nat)
    requires c < |row|
  {
    forall k :: 0 <= k < c ==> !row[k].Finite?
  }

  /** The instrument is expected at every column from `p` to `c`, and its lifetime goes on. */
  ghost predicate ExpectedSince(mask: seq<bool>, terminal: int, p: nat, c: nat)
    requires p <= c < |mask|
  {
    c + 1 < terminal && forall k :: p <= k <= c ==> mask[k]
  }

  /** A missing cell shows the nearest earlier finite value exactly when carrying is allowed, that
      value is no older than the horizon, and every column since is expected; otherwise it is
      missing for the first of the reasons that hold. */
  lemma TreatmentMeans(row: seq<Cell>, mask: seq<bool>, terminal: int, policy: Policy, c: nat)
    requires c < |row| == |mask|
    ensures var t := Treat(row, mask, terminal, policy, c);
      && (t.Own? <==> row[c].Finite?)
      && (row[c].NonFinite? ==> forall p: nat :: NearestBefore(row, c, p) ==>
            && (t.Structural? <==> !ExpectedSince(mask, terminal, p, c))
            && (t.Unfilled? <==> ExpectedSince(mask, terminal, p, c) && !policy.carryAllowed)
            && (t.Expired? <==> ExpectedSince(mask, terminal, p, c) && policy.carryAllowed && policy.maxCarry < c - p)
            && (t == Carried(p) <==>
                  ExpectedSince(mask, terminal, p, c) && policy.carryAllowed && c - p <= policy.maxCarry)
            && (t.Carried? ==> Shown(row, c, t) == row[p]))
      && (row[c].NonFinite? && NoneBefore(row, c) ==>
            && (t.Structural? <==> !ExpectedSince(mask, terminal, 0, c))
            && (t.Unfilled? <==> ExpectedSince(mask, terminal, 0, c)))
      && (!t.Carried? ==> Shown(row, c, t) == row[c])
      && (IsFilled(t) <==> Shown(row, c, t).Finite?)
  {
    var last := LastFinite(row, c);
    forall p: nat | NearestBefore(row, c, p) ensures last == p { }
  }

  // ---- no look-ahead ----------------------------------------------------------

  lemma {:induction false} LastFiniteAgrees(row: seq<Cell>, other: seq<Cell>, c: nat)
    requires c <= |row| && c <= |other| && row[..c] == other[..c]
    ensures LastFinite(row, c) == LastFinite(other, c)
  {
    if c > 0 {
      assert row[c - 1] == row[..c][c - 1] && other[c - 1] == other[..c][c - 1];
      assert row[..c - 1] == row[..c][..c - 1] && other[..c - 1] == other[..c][..c - 1];
      LastFiniteAgrees(row, other, c - 1);
    }
  }

  /** The treatment of a column and the value shown depend only on the columns up to it. */
  lemma NoLookAhead(row: seq<Cell>, mask: seq<bool>, terminal: int,
                    row': seq<Cell>, mask': seq<bool>, terminal': int, policy: Policy, c: nat)
    requires c < |row| == |mask| && c < |row'| == |mask'|
    requires row[..c + 1] == row'[..c + 1] && mask[..c + 1] == mask'[..c + 1]
    requires c + 1 >= terminal <==> c + 1 >= terminal'
    ensures var t := Treat(row, mask, terminal, policy, c);
            && t == Treat(row', mask', terminal', policy, c)
            && (t.Carried? ==> t.source < c)
            && Shown(row, c, t) == Shown(row', c, t)
  {
    forall k | 0 <= k <= c ensures row[k] == row'[k] && mask[k] == mask'[k] {
      assert row[k] == row[..c + 1][k] && row'[k] == row'[..c + 1][k];
      assert mask[k] == mask[..c + 1][k] && mask'[k] == mask'[..c + 1][k];
    }
    assert row[..c] == row[..c + 1][..c] && row'[..c] == row'[..c + 1][..c];
    LastFiniteAgrees(row, row', c);
  }

  // ---- masks -------------------------------------------------------------------

  /** The lifetime mask a read consults: the base mask, or a late overlay that is only
      copied from column `shift` on. Barrier runs always use absolute columns. */
  datatype MaskView = MaskView(window: seq<bool>, shift: nat, terminal: int, runs: Runs, runRow: nat)

  function Inactive(mask: seq<bool>): seq<bool> {
    seq(|mask|, c requires 0 <= c < |mask| => !mask[c])
  }

  ghost predicate Shows(view: MaskView, mask: seq<bool>) {
    && view.shift + |view.window| <= |mask|
    && view.window == mask[view.shift..view.shift + |view.window|]
    && HoldsRow(view.runs, view.runRow, Inactive(mask))
  }

  predicate Covers(view: MaskView, columns: seq<nat>) {
    forall k :: 0 <= k < |columns| ==> view.shift <= columns[k] - 1 < view.shift + |view.window|
  }

  function Missing(row: seq<Cell>): seq<bool> {
    seq(|row|, c requires 0 <= c < |row| => row[c].NonFinite?)
  }

  ghost predicate Requested(row: seq<Cell>, columns: seq<nat>) {
    && (forall k :: 0 <= k < |columns| ==> 1 <= columns[k] <= |row|)
    && (forall j, k :: 0 <= j < k < |columns| ==> columns[j] <= columns[k])
  }

  // ---- one missing cell --------------------------------------------------------

  datatype Refusal = GapNotCovered | OutsideDependency | NonFiniteSource

  /** The gap run holding missing column `c` starts right after the last finite cell. */
  lemma GapNamesLastFinite(row: seq<Cell>, c: nat, start: nat, end: nat)
    requires c < |row| && MaximalRun(Missing(row), start, end) && start <= c + 1 <= end
    ensures start as int == LastFinite(row, c) + 2
  {
    var p := LastFinite(row, c);
    if p >= 0 { assert !Missing(row)[p]; }
    if start >= 2 { assert row[start - 2].Finite?; }
  }

  lemma GapFound(row: seq<Cell>, start: seq<nat>, end: seq<nat>, at: nat, c: nat)
    requires RunsExact(Missing(row), start, end, |row|) && c < |row| && row[c].NonFinite? && at <= |start|
    requires forall g :: 0 <= g < at ==> end[g] < c + 1
    requires at < |start| ==> end[at] >= c + 1
    ensures at < |start|
    ensures start[at] <= c + 1 <= end[at]
    ensures start[at] as int == LastFinite(row, c) + 2
  {
    assert Missing(row)[c];
    assert InSomeRun(start, end, c);
    var r :| 0 <= r < |start| && start[r] <= c + 1 <= end[r];
    assert MaximalRun(Missing(row), start[r], end[r]);
    assert r >= at;
    assert at == r;
    GapNamesLastFinite(row, c, start[r], end[r]);
  }

  /** The offsets of one row's entries lie inside the flat vectors. */
  ghost predicate InBounds(runs: Runs, row: nat) {
    && |runs.off| == |runs.count| && |runs.start| == |runs.end| && row < |runs.off|
    && 1 <= runs.off[row] && runs.off[row] - 1 + runs.count[row] <= |runs.start|
  }

  /** Every gap already passed ends before the column. */
  ghost predicate Passed(gaps: Runs, gapRow: nat, gapAt: nat, column: nat)
    requires InBounds(gaps, gapRow)
  {
    forall g :: 0 <= g < gaps.count[gapRow] && gaps.off[gapRow] - 1 + g < gapAt ==> RowEnd(gaps, gapRow)[g] < column
  }

  /** Advances past the gaps that end before the column. */
  method AdvanceGap(gaps: Runs, gapRow: nat, gapAt: nat, column: nat) returns (at: nat)
    requires InBounds(gaps, gapRow) && Passed(gaps, gapRow, gapAt, column)
    requires gaps.off[gapRow] - 1 <= gapAt <= gaps.off[gapRow] - 1 + gaps.count[gapRow]
    ensures gapAt <= at <= gaps.off[gapRow] - 1 + gaps.count[gapRow]
    ensures Passed(gaps, gapRow, at, column)
    ensures at < gaps.off[gapRow] - 1 + gaps.count[gapRow] ==> gaps.end[at] >= column
  {
    at := gapAt;
    while at < gaps.off[gapRow] - 1 + gaps.count[gapRow] && gaps.end[at] < column
      invariant gapAt <= at <= gaps.off[gapRow] - 1 + gaps.count[gapRow]
      invariant Passed(gaps, gapRow, at, column)
    {
      assert RowEnd(gaps, gapRow)[at - (gaps.off[gapRow] - 1)] == gaps.end[at];
      at := at + 1;
    }
  }

  lemma EntryAt(runs: Runs, row: nat, g: nat)
    requires InBounds(runs, row)
    ensures |RowStart(runs, row)| == |RowEnd(runs, row)| == runs.count[row]
    ensures g < runs.count[row] ==>
      && RowStart(runs, row)[g] == runs.start[runs.off[row] - 1 + g]
      && RowEnd(runs, row)[g] == runs.end[runs.off[row] - 1 + g]
  {
  }

  lemma PassedBelow(gaps: Runs, gapRow: nat, gapAt: nat, column: nat)
    requires InBounds(gaps, gapRow) && Passed(gaps, gapRow, gapAt, column)
    requires gaps.off[gapRow] - 1 <= gapAt <= gaps.off[gapRow] - 1 + gaps.count[gapRow]
    ensures forall g :: 0 <= g < gapAt - (gaps.off[gapRow] - 1) ==> RowEnd(gaps, gapRow)[g] < column
  {
  }

  lemma InactiveMarks(mask: seq<bool>, first: nat, last: nat)
    requires first <= last < |mask|
    ensures (exists c: nat :: first <= c <= last && Inactive(mask)[c]) <==> InactiveWithin(mask, first, last)
  {
    if InactiveWithin(mask, first, last) {
      var c :| first <= c <= last && !mask[c];
      assert Inactive(mask)[c];
    }
  }

  /** The gap summary of the row is the one its builder makes. */
  ghost predicate ExactGaps(row: seq<Cell>, gaps: Runs, gapRow: nat) {
    HoldsRow(gaps, gapRow, Missing(row))
  }

  ghost predicate AtGap(row: seq<Cell>, gaps: Runs, gapAt: nat, c: nat)
    requires c < |row|
  {
    && gapAt < |gaps.start| == |gaps.end|
    && gaps.start[gapAt] <= c + 1 <= gaps.end[gapAt]
    && gaps.start[gapAt] as int == LastFinite(row, c) + 2
  }

  /** With exact gap runs, the gap cursor stops at the gap that holds the column. */
  lemma CursorFindsGap(row: seq<Cell>, gaps: Runs, gapRow: nat, g: nat, c: nat)
    requires ExactGaps(row, gaps, gapRow) && c < |row| && row[c].NonFinite? && g <= gaps.count[gapRow]
    requires forall h :: 0 <= h < g ==> RowEnd(gaps, gapRow)[h] < c + 1
    requires g < gaps.count[gapRow] ==> RowEnd(gaps, gapRow)[g] >= c + 1
    ensures g < gaps.count[gapRow] && AtGap(row, gaps, gaps.off[gapRow] - 1 + g, c)
  {
    GapFound(row, RowStart(gaps, gapRow), RowEnd(gaps, gapRow), g, c);
    EntryAt(gaps, gapRow, g);
  }

  /** The declared dependency reaches back the carry horizon from the column. */
  predicate Reaches(dependencyFirst: nat, policy: Policy, column: nat) {
    dependencyFirst == 1 || dependencyFirst <= column - policy.maxCarry
  }

  /** What the read does with one missing, expected column; `refusal` is one of its
      internal consistency stops. None fires on exact gap runs with a long enough dependency. */
  method FillMissing(row: seq<Cell>, ghost mask: seq<bool>, view: MaskView, gaps: Runs, gapRow: nat, gapAt: nat,
                     policy: Policy, dependencyFirst: nat, c: nat)
    returns (treatment: Treatment, refusal: Option<Refusal>)
    requires c < |row| == |mask| && row[c].NonFinite? && mask[c] && c + 1 < view.terminal
    requires Shows(view, mask) && InBounds(gaps, gapRow)
    requires gaps.off[gapRow] - 1 <= gapAt <= gaps.off[gapRow] - 1 + gaps.count[gapRow]
    requires Passed(gaps, gapRow, gapAt, c + 1)
    requires gapAt < gaps.off[gapRow] - 1 + gaps.count[gapRow] ==> gaps.end[gapAt] >= c + 1
    ensures ExactGaps(row, gaps, gapRow) && Reaches(dependencyFirst, policy, c + 1) ==> refusal.None?
    ensures ExactGaps(row, gaps, gapRow) && refusal.None? ==> treatment == Treat(row, mask, view.terminal, policy, c)
    ensures treatment.Carried? ==>
      treatment.source <= c && treatment.source + 1 >= dependencyFirst && c - treatment.source <= policy.maxCarry
  {
    if ExactGaps(row, gaps, gapRow) {
      ghost var g: nat := gapAt - (gaps.off[gapRow] - 1);
      PassedBelow(gaps, gapRow, gapAt, c + 1);
      EntryAt(gaps, gapRow, g);
      CursorFindsGap(row, gaps, gapRow, g, c);
    }
    if !(gapAt < gaps.off[gapRow] - 1 + gaps.count[gapRow]
         && gaps.start[gapAt] <= c + 1 <= gaps.end[gapAt]) {
      return Unfilled, Some(GapNotCovered);
    }
    var candidate: int := gaps.start[gapAt] as int - 2;
    var first := if candidate < 0 then 0 else candidate;
    InactiveMarks(mask, first, c);
    var barrier := AnyMarked(view.runs, view.runRow, Inactive(mask), first, c);
    if barrier {
      return Structural, None;
    }
    if !policy.carryAllowed || candidate < 0 {
      return Unfilled, None;
    }
    if c - candidate > policy.maxCarry {
      return Expired, None;
    }
    if candidate + 1 < dependencyFirst {
      return Unfilled, Some(OutsideDependency);
    }
    if row[candidate].NonFinite? {
      return Unfilled, Some(NonFiniteSource);
    }
    return Carried(candidate), None;
  }

  // ---- one instrument's window ---------------------------------------------------

  datatype RowFacts = RowFacts(finite: nat, carried: nat, usedBefore: bool, structural: bool, expired: bool)

  ghost function Treatments(row: seq<Cell>, mask: seq<bool>, terminal: int, policy: Policy,
                            columns: seq<nat>): (ts: seq<Treatment>)
    requires |row| == |mask| && Requested(row, columns)
    ensures |ts| == |columns|
    ensures forall k :: 0 <= k < |ts| ==> ts[k] == Treat(row, mask, terminal, policy, columns[k] - 1)
  {
    seq(|columns|, k requires 0 <= k < |columns| => Treat(row, mask, terminal, policy, columns[k] - 1))
  }

  predicate IsFilled(t: Treatment) { t.Own? || t.Carried? }
  predicate IsCarried(t: Treatment) { t.Carried? }

  predicate UsesBefore(columns: seq<nat>, t: Treatment) {
    t.Carried? && |columns| > 0 && t.source + 1 < columns[0]
  }

  /** The value shown stands in a column before the first one requested. */
  ghost predicate ShowsEarlier(columns: seq<nat>, t: Treatment) {
    exists p: nat :: t == Carried(p) && columns != [] && columns[0] > p + 1
  }

  /** Counts and flags as the naive treatments give them. */
  ghost predicate FactsOf(columns: seq<nat>, ts: seq<Treatment>, facts: RowFacts) {
    && facts.finite == Count(ts, IsFilled)
    && facts.carried == Count(ts, IsCarried)
    && (facts.usedBefore <==> exists k :: 0 <= k < |ts| && ShowsEarlier(columns, ts[k]))
    && (facts.structural <==> exists k :: 0 <= k < |ts| && ts[k].Structural?)
    && (facts.expired <==> exists k :: 0 <= k < |ts| && ts[k].Expired?)
  }

  function NoFacts(): RowFacts { RowFacts(0, 0, false, false, false) }

  function AddFact(columns: seq<nat>, facts: RowFacts, t: Treatment): RowFacts {
    RowFacts(
      facts.finite + (if IsFilled(t) then 1 else 0),
      facts.carried + (if t.Carried? then 1 else 0),
      facts.usedBefore || UsesBefore(columns, t),
      facts.structural || t.Structural?,
      facts.expired || t.Expired?)
  }

  lemma AddFactKeeps(columns: seq<nat>, ts: seq<Treatment>, facts: RowFacts, t: Treatment)
    requires FactsOf(columns, ts, facts)
    ensures FactsOf(columns, ts + [t], AddFact(columns, facts, t))
  {
    CountSnoc(ts, t, IsFilled);
    CountSnoc(ts, t, IsCarried);
    var all := ts + [t];
    assert all[|ts|] == t;
    forall k | 0 <= k < |ts| ensures all[k] == ts[k] {}
  }

  /** The reads one requested column causes: itself, then its carry source. */
  function AccessesFor(column: nat, t: Treatment): seq<nat>
    requires column >= 1
  {
    [column - 1] + if t.Carried? then [t.source] else []
  }

  /** The source columns read, in order. */
  ghost function Accesses(columns: seq<nat>, ts: seq<Treatment>): seq<nat>
    requires |ts| <= |columns| && forall k :: 0 <= k < |columns| ==> columns[k] >= 1
  {
    if ts == [] then []
    else
      var last := |ts| - 1;
      Accesses(columns, ts[..last]) + AccessesFor(columns[last], ts[last])
  }

  /** A read is of a requested column, or of one at most the carry horizon before a
      requested column and not before the declared dependency. */
  ghost predicate WithinReach(columns: seq<nat>, policy: Policy, dependencyFirst: nat, a: nat) {
    exists k :: 0 <= k < |columns|
      && (a + 1 == columns[k]
          || (a + 1 <= columns[k] <= a + 1 + policy.maxCarry && dependencyFirst <= a + 1))
  }

  method ReadCell(row: seq<Cell>, ghost mask: seq<bool>, view: MaskView, gaps: Runs, gapRow: nat, gapAt: nat,
                  policy: Policy, dependencyFirst: nat, column: nat)
    returns (treatment: Treatment, at: nat, refusal: Option<Refusal>)
    requires 1 <= column <= |row| == |mask| && view.shift <= column - 1 < view.shift + |view.window|
    requires Shows(view, mask) && InBounds(gaps, gapRow)
    requires gaps.off[gapRow] - 1 <= gapAt <= gaps.off[gapRow] - 1 + gaps.count[gapRow]
    requires Passed(gaps, gapRow, gapAt, column)
    ensures gapAt <= at <= gaps.off[gapRow] - 1 + gaps.count[gapRow]
    ensures Passed(gaps, gapRow, at, column)
    ensures ExactGaps(row, gaps, gapRow) && Reaches(dependencyFirst, policy, column) ==> refusal.None?
    ensures ExactGaps(row, gaps, gapRow) && refusal.None? ==>
      treatment == Treat(row, mask, view.terminal, policy, column - 1)
    ensures treatment.Carried? ==>
      && treatment.source + 1 <= column <= treatment.source + 1 + policy.maxCarry
      && dependencyFirst <= treatment.source + 1
  {
    var c := column - 1;
    at, refusal := gapAt, None;
    if row[c].Finite? {
      treatment := Own;
      return;
    }
    assert view.window[c - view.shift] == mask[c];
    if !view.window[c - view.shift] || c + 1 >= view.terminal {
      treatment := Structural;
      return;
    }
    at := AdvanceGap(gaps, gapRow, gapAt, column);
    treatment, refusal := FillMissing(row, mask, view, gaps, gapRow, at, policy, dependencyFirst, c);
  }

  /** A window short of observations is structural when any requested column is. */
  method ShortWindow(ghost mask: seq<bool>, view: MaskView, columns: seq<nat>) returns (structural: bool)
    requires Shows(view, mask) && Covers(view, columns)
    ensures structural <==> exists k :: 0 <= k < |columns| && (!mask[columns[k] - 1] || columns[k] >= view.terminal)
  {
    structural := false;
    for k := 0 to |columns|
      invariant structural <==> exists i :: 0 <= i < k && (!mask[columns[i] - 1] || columns[i] >= view.terminal)
    {
      assert view.window[columns[k] - 1 - view.shift] == mask[columns[k] - 1];
      if !view.window[columns[k] - 1 - view.shift] || columns[k] >= view.terminal {
        structural := true;
        return;
      }
    }
  }

  ghost predicate BoundedTreatment(columns: seq<nat>, policy: Policy, dependencyFirst: nat, k: nat, t: Treatment)
    requires k < |columns|
  {
    t.Carried? ==>
      t.source + 1 <= columns[k] <= t.source + 1 + policy.maxCarry && dependencyFirst <= t.source + 1
  }

  lemma {:induction false} AccessesWithinReach(columns: seq<nat>, ts: seq<Treatment>, policy: Policy,
                                               dependencyFirst: nat)
    requires |ts| <= |columns| && forall k :: 0 <= k < |columns| ==> columns[k] >= 1
    requires forall k :: 0 <= k < |ts| ==> BoundedTreatment(columns, policy, dependencyFirst, k, ts[k])
    ensures forall a :: a in Accesses(columns, ts) ==> WithinReach(columns, policy, dependencyFirst, a)
  {
    if ts != [] {
      var last := |ts| - 1;
      AccessesWithinReach(columns, ts[..last], policy, dependencyFirst);
      assert WithinReach(columns, policy, dependencyFirst, columns[last] - 1);
      if ts[last].Carried? {
        assert BoundedTreatment(columns, policy, dependencyFirst, last, ts[last]);
        assert WithinReach(columns, policy, dependencyFirst, ts[last].source);
      }
    }
  }

  /** The window's treatments so far: exact when the gap summary is. */
  ghost predicate Progress(row: seq<Cell>, mask: seq<bool>, terminal: int, policy: Policy, dependencyFirst: nat,
                           columns: seq<nat>, exact: bool, done: seq<Treatment>)
    requires |row| == |mask| && Requested(row, columns)
  {
    && |done| <= |columns|
    && (forall k :: 0 <= k < |done| ==> BoundedTreatment(columns, policy, dependencyFirst, k, done[k]))
    && (exact ==> forall k :: 0 <= k < |done| ==> done[k] == Treat(row, mask, terminal, policy, columns[k] - 1))
  }

  ghost predicate ShowsTreatments(row: seq<Cell>, columns: seq<nat>, done: seq<Treatment>, shown: seq<Cell>) {
    && |done| <= |shown| && |done| <= |columns|
    && forall k :: 0 <= k < |done| ==>
         && 1 <= columns[k] <= |row| && (done[k].Carried? ==> done[k].source < |row|)
         && shown[k] == Shown(row, columns[k] - 1, done[k])
  }

  lemma PassedLater(gaps: Runs, gapRow: nat, at: nat, column: nat, later: nat)
    requires InBounds(gaps, gapRow) && Passed(gaps, gapRow, at, column) && column <= later
    ensures Passed(gaps, gapRow, at, later)
  {
  }

  lemma ProgressStep(row: seq<Cell>, mask: seq<bool>, terminal: int, policy: Policy, dependencyFirst: nat,
                     columns: seq<nat>, exact: bool, done: seq<Treatment>, t: Treatment)
    requires |row| == |mask| && Requested(row, columns) && |done| < |columns|
    requires Progress(row, mask, terminal, policy, dependencyFirst, columns, exact, done)
    requires BoundedTreatment(columns, policy, dependencyFirst, |done|, t)
    requires exact ==> t == Treat(row, mask, terminal, policy, columns[|done|] - 1)
    ensures Progress(row, mask, terminal, policy, dependencyFirst, columns, exact, done + [t])
  {
  }

  lemma ShowsStep(row: seq<Cell>, columns: seq<nat>, done: seq<Treatment>, shown: seq<Cell>, after: seq<Cell>,
                  t: Treatment)
    requires Requested(row, columns) && |done| < |columns| == |shown|
    requires ShowsTreatments(row, columns, done, shown)
    requires t.Carried? ==> t.source < |row|
    requires after == shown[|done| := Shown(row, columns[|done|] - 1, t)]
    ensures ShowsTreatments(row, columns, done + [t], after)
  {
  }

  lemma AccessStep(columns: seq<nat>, done: seq<Treatment>, all: seq<Treatment>, t: Treatment)
    requires |done| < |columns| && forall k :: 0 <= k < |columns| ==> columns[k] >= 1
    requires all == done + [t]
    ensures Accesses(columns, all) == Accesses(columns, done) + AccessesFor(columns[|done|], t)
  {
    assert all[..|all| - 1] == done;
    assert all[|all| - 1] == t;
  }

  /** Writes one output cell: the stored cell first, then a carried value over it. */
  method WriteCell(row: seq<Cell>, column: nat, treatment: Treatment, target: array<Cell>, time: nat)
    returns (accesses: seq<nat>)
    requires 1 <= column <= |row| && time < target.Length && (treatment.Carried? ==> treatment.source < |row|)
    modifies target
    ensures target[..] == old(target[..])[time := Shown(row, column - 1, treatment)]
    ensures accesses == AccessesFor(column, treatment)
  {
    target[time] := row[column - 1];
    accesses := [column - 1];
    if treatment.Carried? {
      target[time] := row[treatment.source];
      accesses := accesses + [treatment.source];
    }
  }

  /** What the fill loop keeps after each requested column. */
  ghost predicate Filled(row: seq<Cell>, mask: seq<bool>, terminal: int, policy: Policy, dependencyFirst: nat,
                         columns: seq<nat>, exact: bool, done: seq<Treatment>,
                         facts: RowFacts, trace: seq<nat>, shown: seq<Cell>)
    requires |row| == |mask| && Requested(row, columns)
  {
    && Progress(row, mask, terminal, policy, dependencyFirst, columns, exact, done)
    && FactsOf(columns, done, facts)
    && trace == Accesses(columns, done)
    && ShowsTreatments(row, columns, done, shown)
  }

  lemma FilledStep(row: seq<Cell>, mask: seq<bool>, terminal: int, policy: Policy, dependencyFirst: nat,
                   columns: seq<nat>, exact: bool, done: seq<Treatment>,
                   facts: RowFacts, trace: seq<nat>, shown: seq<Cell>, t: Treatment, after: seq<Cell>)
    requires |row| == |mask| && Requested(row, columns) && |done| < |columns| == |shown|
    requires Filled(row, mask, terminal, policy, dependencyFirst, columns, exact, done, facts, trace, shown)
    requires BoundedTreatment(columns, policy, dependencyFirst, |done|, t)
    requires exact ==> t == Treat(row, mask, terminal, policy, columns[|done|] - 1)
    requires after == shown[|done| := Shown(row, columns[|done|] - 1, t)]
    ensures Filled(row, mask, terminal, policy, dependencyFirst, columns, exact, done + [t],
                   AddFact(columns, facts, t), trace + AccessesFor(columns[|done|], t), after)
  {
    ProgressStep(row, mask, terminal, policy, dependencyFirst, columns, exact, done, t);
    ShowsStep(row, columns, done, shown, after, t);
    AccessStep(columns, done, done + [t], t);
    AddFactKeeps(columns, done, facts, t);
  }

  lemma FilledStart(row: seq<Cell>, mask: seq<bool>, terminal: int, policy: Policy, dependencyFirst: nat,
                    columns: seq<nat>, exact: bool, shown: seq<Cell>)
    requires |row| == |mask| && Requested(row, columns)
    ensures Filled(row, mask, terminal, policy, dependencyFirst, columns, exact, [], NoFacts(), [], shown)
  {
  }

  lemma PassedStart(gaps: Runs, gapRow: nat)
    requires InBounds(gaps, gapRow)
    ensures Passed(gaps, gapRow, gaps.off[gapRow] - 1, 0)
  {
  }

  /** The fill loop: writes the window into `target` and accumulates its facts and trace. */
  method FillWindow(row: seq<Cell>, ghost mask: seq<bool>, view: MaskView, gaps: Runs, gapRow: nat, columns: seq<nat>,
                    policy: Policy, dependencyFirst: nat, target: array<Cell>)
    returns (facts: RowFacts, trace: seq<nat>, refusal: Option<Refusal>, ghost done: seq<Treatment>)
    requires |row| == |mask| && Requested(row, columns) && Covers(view, columns)
    requires Shows(view, mask) && InBounds(gaps, gapRow) && target.Length == |columns|
    modifies target
    ensures refusal.None? ==> |done| == |columns|
    ensures refusal.None? ==>
      Filled(row, mask, view.terminal, policy, dependencyFirst, columns, ExactGaps(row, gaps, gapRow),
             done, facts, trace, target[..])
    ensures ExactGaps(row, gaps, gapRow) && (columns != [] ==> Reaches(dependencyFirst, policy, columns[0])) ==>
      refusal.None?
  {
    hide Filled, AddFact, AccessesFor, Treat, Shown, BoundedTreatment, Passed, Shows, ExactGaps;
    FilledStart(row, mask, view.terminal, policy, dependencyFirst, columns, ExactGaps(row, gaps, gapRow), target[..]);
    PassedStart(gaps, gapRow);
    facts, trace, refusal, done := NoFacts(), [], None, [];
    ghost var exact := ExactGaps(row, gaps, gapRow);
    var gapAt := gaps.off[gapRow] - 1;
    for time := 0 to |columns|
      invariant |done| == time
      invariant gaps.off[gapRow] - 1 <= gapAt <= gaps.off[gapRow] - 1 + gaps.count[gapRow]
      invariant Passed(gaps, gapRow, gapAt, if time == 0 then 0 else columns[time - 1])
      invariant Filled(row, mask, view.terminal, policy, dependencyFirst, columns, exact, done, facts, trace,
                       target[..])
    {
      PassedLater(gaps, gapRow, gapAt, if time == 0 then 0 else columns[time - 1], columns[time]);
      var treatment, at, stop := ReadCell(row, mask, view, gaps, gapRow, gapAt, policy, dependencyFirst, columns[time]);
      if stop.Some? {
        refusal := stop;
        return;
      }
      ghost var shown := target[..];
      var accesses := WriteCell(row, columns[time], treatment, target, time);
      FilledStep(row, mask, view.terminal, policy, dependencyFirst, columns, exact, done, facts, trace, shown,
                 treatment, target[..]);
      facts, trace, gapAt := AddFact(columns, facts, treatment), trace + accesses, at;
      done := done + [treatment];
    }
  }
}
