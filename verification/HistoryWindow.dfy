/** `ledgr_cpp_history_bar_compact` end to end: run summaries are prepared once,
    then each requested instrument's window is read against its mask. */
module HistoryWindow {
  import opened Wrappers
  import opened Ordering
  import opened HistoryRuns
  import opened HistoryRead

  /** Some requested column is outside the expected lifetime or terminal. */
  ghost predicate AnyStructuralColumn(mask: seq<bool>, terminal: int, columns: seq<nat>)
    requires forall k :: 0 <= k < |columns| ==> 1 <= columns[k] <= |mask|
  {
    exists k :: 0 <= k < |columns| && (!mask[columns[k] - 1] || columns[k] >= terminal)
  }

  /** One instrument's answer is the naive scan's: every cell, every summary, every access. */
  ghost predicate IsNaive(row: seq<Cell>, mask: seq<bool>, terminal: int, policy: Policy, minObservations: nat,
                          columns: seq<nat>, shown: seq<Cell>, facts: RowFacts, trace: seq<nat>)
    requires |row| == |mask| && Requested(row, columns)
  {
    var ts := Treatments(row, mask, terminal, policy, columns);
    && |shown| == |columns|
    && ShowsTreatments(row, columns, ts, shown)
    && FactsOf(columns, ts, facts.(structural := exists k :: 0 <= k < |ts| && ts[k].Structural?))
    && (facts.structural <==>
          (exists k :: 0 <= k < |ts| && ts[k].Structural?)
          || (facts.finite < minObservations && AnyStructuralColumn(mask, terminal, columns)))
    && trace == Accesses(columns, ts)
  }

  /** Two reads whose data agree up to a column show the same cell there, whatever else
      their requests, and whatever later columns made of their run summaries. */
  lemma NaiveIgnoresLater(
    row: seq<Cell>, mask: seq<bool>, terminal: int, columns: seq<nat>,
    shown: seq<Cell>, facts: RowFacts, trace: seq<nat>, k: nat,
    row': seq<Cell>, mask': seq<bool>, terminal': int, columns': seq<nat>,
    shown': seq<Cell>, facts': RowFacts, trace': seq<nat>, k': nat, policy: Policy, min: nat, min': nat)
    requires |row| == |mask| && Requested(row, columns)
    requires IsNaive(row, mask, terminal, policy, min, columns, shown, facts, trace)
    requires |row'| == |mask'| && Requested(row', columns')
    requires IsNaive(row', mask', terminal', policy, min', columns', shown', facts', trace')
    requires k < |columns| && k' < |columns'| && columns[k] == columns'[k']
    requires row[..columns[k]] == row'[..columns[k]] && mask[..columns[k]] == mask'[..columns[k]]
    requires columns[k] >= terminal <==> columns[k] >= terminal'
    ensures shown[k] == shown'[k']
  {
    var c := columns[k] - 1;
    NoLookAhead(row, mask, terminal, row', mask', terminal', policy, c);
    assert Treatments(row, mask, terminal, policy, columns)[k] == Treat(row, mask, terminal, policy, c);
    assert Treatments(row', mask', terminal', policy, columns')[k'] == Treat(row', mask', terminal', policy, c);
  }

  lemma ExactDoneIsTreatments(row: seq<Cell>, mask: seq<bool>, terminal: int, policy: Policy, dependencyFirst: nat,
                              columns: seq<nat>, done: seq<Treatment>)
    requires |row| == |mask| && Requested(row, columns) && |done| == |columns|
    requires Progress(row, mask, terminal, policy, dependencyFirst, columns, true, done)
    ensures done == Treatments(row, mask, terminal, policy, columns)
  {
  }

  /** One instrument's read; every source read stays within reach whatever the summaries say. */
  method ReadInstrument(row: seq<Cell>, ghost mask: seq<bool>, view: MaskView, gaps: Runs, gapRow: nat,
                        columns: seq<nat>,
                        policy: Policy, dependencyFirst: nat, minObservations: nat, target: array<Cell>)
    returns (facts: RowFacts, trace: seq<nat>, refusal: Option<Refusal>)
    requires |row| == |mask| && Requested(row, columns) && Covers(view, columns)
    requires Shows(view, mask) && InBounds(gaps, gapRow) && target.Length == |columns|
    modifies target
    ensures ExactGaps(row, gaps, gapRow) && (columns != [] ==> Reaches(dependencyFirst, policy, columns[0])) ==>
      refusal.None?
    ensures ExactGaps(row, gaps, gapRow) && refusal.None? ==>
      IsNaive(row, mask, view.terminal, policy, minObservations, columns, target[..], facts, trace)
    ensures refusal.None? ==> forall a :: a in trace ==> WithinReach(columns, policy, dependencyFirst, a)
  {
    ghost var done;
    facts, trace, refusal, done := FillWindow(row, mask, view, gaps, gapRow, columns, policy, dependencyFirst, target);
    if refusal.None? {
      AccessesWithinReach(columns, done, policy, dependencyFirst);
      if ExactGaps(row, gaps, gapRow) {
        ExactDoneIsTreatments(row, mask, view.terminal, policy, dependencyFirst, columns, done);
      }
      if facts.finite < minObservations {
        var short := ShortWindow(mask, view, columns);
        facts := facts.(structural := facts.structural || short);
      }
    }
  }

  // ---- the whole request ---------------------------------------------------------

  /** An instrument's late lifetime overlay, over the whole axis. */
  datatype Overlay = Overlay(mask: seq<bool>, terminal: int)

  datatype Store = Store(cells: seq<seq<Cell>>, expected: seq<seq<bool>>, terminal: seq<int>, width: nat)

  ghost predicate ValidStore(store: Store) {
    && |store.cells| == |store.expected| == |store.terminal|
    && forall r :: 0 <= r < |store.cells| ==> |store.cells[r]| == |store.expected[r]| == store.width
  }

  ghost function MaskOf(store: Store, overlays: map<nat, Overlay>, i: nat, r: nat): seq<bool>
    requires r < |store.expected|
  {
    if i in overlays then overlays[i].mask else store.expected[r]
  }

  ghost function TerminalOf(store: Store, overlays: map<nat, Overlay>, i: nat, r: nat): int
    requires r < |store.terminal|
  {
    if i in overlays then overlays[i].terminal else store.terminal[r]
  }

  /** Gap runs of the whole store, prepared with it. */
  method PrepareGaps(store: Store) returns (gaps: Runs)
    ensures |gaps.off| == |store.cells|
    ensures forall r :: 0 <= r < |store.cells| ==> ExactGaps(store.cells[r], gaps, r)
  {
    var marked := seq(|store.cells|, r requires 0 <= r < |store.cells| => Missing(store.cells[r]));
    gaps := BuildRuns(marked);
    forall r | 0 <= r < |store.cells| ensures ExactGaps(store.cells[r], gaps, r) {
      assert HoldsRow(gaps, r, marked[r]);
    }
  }

  /** Barrier runs of a family of masks, prepared with them. */
  method PrepareBarriers(masks: seq<seq<bool>>) returns (runs: Runs)
    ensures |runs.off| == |masks|
    ensures forall r :: 0 <= r < |masks| ==> HoldsRow(runs, r, Inactive(masks[r]))
  {
    var marked := seq(|masks|, r requires 0 <= r < |masks| => Inactive(masks[r]));
    runs := BuildRuns(marked);
    forall r | 0 <= r < |masks| ensures HoldsRow(runs, r, Inactive(masks[r])) {
      assert HoldsRow(runs, r, marked[r]);
    }
  }

  /** `max(1, first column - carry horizon)`, or 1 for an empty request: the last column that
      reaches back the horizon. */
  function DependencyFirst(columns: seq<nat>, policy: Policy): (d: nat)
    requires columns != [] ==> columns[0] >= 1
    ensures d >= 1
    ensures columns == [] ==> d == 1
    ensures columns != [] ==> d <= columns[0] && Reaches(d, policy, columns[0])
    ensures columns != [] ==> forall later :: later > d ==> !Reaches(later, policy, columns[0])
  {
    if columns == [] || columns[0] <= policy.maxCarry then 1 else columns[0] - policy.maxCarry
  }

  /** The mask an instrument is read against: its overlay, copied from the dependency on, or the base mask. */
  method ViewFor(store: Store, overlays: map<nat, Overlay>, barriers: Runs, i: nat, r: nat, columns: seq<nat>,
                 dependencyFirst: nat)
    returns (view: MaskView)
    requires ValidStore(store) && r < |store.cells| && |barriers.off| == |store.cells|
    requires forall q :: 0 <= q < |store.cells| ==> HoldsRow(barriers, q, Inactive(store.expected[q]))
    requires i in overlays ==> |overlays[i].mask| == store.width
    requires Requested(store.cells[r], columns) && 1 <= dependencyFirst
    requires if columns == [] then dependencyFirst == 1 else dependencyFirst <= columns[0]
    ensures Shows(view, MaskOf(store, overlays, i, r)) && Covers(view, columns)
    ensures view.terminal == TerminalOf(store, overlays, i, r)
  {
    if i in overlays {
      var mask := overlays[i].mask;
      var runs := PrepareBarriers([mask]);
      var last := if columns == [] then dependencyFirst - 1 else columns[|columns| - 1];
      var shift := dependencyFirst - 1;
      assert HoldsRow(runs, 0, Inactive([mask][0]));
      view := MaskView(mask[shift..last], shift, overlays[i].terminal, runs, 0);
    } else {
      view := MaskView(store.expected[r], 0, store.terminal[r], barriers, r);
    }
  }

  datatype Window = Window(cells: seq<Cell>, facts: RowFacts, trace: seq<nat>)

  ghost predicate WindowIsNaive(store: Store, overlays: map<nat, Overlay>, policy: Policy, minObservations: nat,
                                columns: seq<nat>, i: nat, r: nat, w: Window)
  {
    && r < |store.cells| && r < |store.expected| && r < |store.terminal|
    && |store.cells[r]| == |MaskOf(store, overlays, i, r)| && Requested(store.cells[r], columns)
    && IsNaive(store.cells[r], MaskOf(store, overlays, i, r), TerminalOf(store, overlays, i, r), policy,
               minObservations, columns, w.cells, w.facts, w.trace)
    && forall a :: a in w.trace ==> WithinReach(columns, policy, DependencyFirst(columns, policy), a)
  }

  /** The request: with prepared summaries no consistency stop fires, and every
      instrument's window is the naive one. `rows` and `columns` are one-based. */
  method CompactRead(store: Store, overlays: map<nat, Overlay>, rows: seq<nat>, columns: seq<nat>,
                     policy: Policy, minObservations: nat)
    returns (windows: seq<Window>)
    requires ValidStore(store)
    requires forall i :: i in overlays ==> |overlays[i].mask| == store.width
    requires forall i :: 0 <= i < |rows| ==> 1 <= rows[i] <= |store.cells|
    requires forall k :: 0 <= k < |columns| ==> 1 <= columns[k] <= store.width
    requires forall j, k :: 0 <= j < k < |columns| ==> columns[j] <= columns[k]
    ensures |windows| == |rows|
    ensures forall i: nat :: i < |rows| ==>
      WindowIsNaive(store, overlays, policy, minObservations, columns, i, rows[i] - 1, windows[i])
  {
    hide WindowIsNaive, ExactGaps, HoldsRow, Shows, MaskOf, TerminalOf;
    var gaps := PrepareGaps(store);
    var barriers := PrepareBarriers(store.expected);
    var dependencyFirst := DependencyFirst(columns, policy);
    windows := [];
    for i := 0 to |rows|
      invariant |windows| == i
      invariant forall j: nat :: j < i ==>
        WindowIsNaive(store, overlays, policy, minObservations, columns, j, rows[j] - 1, windows[j])
    {
      var r := rows[i] - 1;
      var view := ViewFor(store, overlays, barriers, i, r, columns, dependencyFirst);
      var w := ReadPrepared(store, overlays, view, gaps, i, r, columns, policy, minObservations);
      windows := windows + [w];
    }
  }

  method ReadPrepared(store: Store, ghost overlays: map<nat, Overlay>, view: MaskView, gaps: Runs, ghost i: nat, r: nat,
                      columns: seq<nat>, policy: Policy, minObservations: nat)
    returns (w: Window)
    requires ValidStore(store) && r < |store.cells| && ExactGaps(store.cells[r], gaps, r)
    requires i in overlays ==> |overlays[i].mask| == store.width
    requires Requested(store.cells[r], columns) && Covers(view, columns)
    requires Shows(view, MaskOf(store, overlays, i, r)) && view.terminal == TerminalOf(store, overlays, i, r)
    ensures WindowIsNaive(store, overlays, policy, minObservations, columns, i, r, w)
  {
    var target := new Cell[|columns|](_ => NonFinite(0));
    var facts, trace, refusal := ReadInstrument(store.cells[r], MaskOf(store, overlays, i, r), view, gaps, r, columns,
                                                policy, DependencyFirst(columns, policy), minObservations, target);
    w := Window(target[..], facts, trace);
  }
}
