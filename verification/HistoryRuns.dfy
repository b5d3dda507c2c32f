/** Sparse maximal runs of marked columns, row by row, and the searches over them. */
module HistoryRuns {

  /** Rows share two flat vectors; row `r` owns `count[r]` entries from `off[r]` on.
      Offsets and run bounds are one-based and inclusive. */
  datatype Runs = Runs(off: seq<nat>, count: seq<nat>, start: seq<nat>, end: seq<nat>)

  /** Run `r` is a maximal block of marked columns. */
  ghost predicate MaximalRun(marked: seq<bool>, start: nat, end: nat) {
    && 1 <= start <= end <= |marked|
    && (forall c :: start - 1 <= c < end ==> marked[c])
    && (start == 1 || !marked[start - 2])
    && (end == |marked| || !marked[end])
  }

  ghost predicate InSomeRun(start: seq<nat>, end: seq<nat>, c: nat)
    requires |start| == |end|
  {
    exists r :: 0 <= r < |start| && start[r] <= c + 1 <= end[r]
  }

  /** The runs are the maximal blocks of marked columns below `upTo`, in order, and all of them. */
  ghost predicate RunsExact(marked: seq<bool>, start: seq<nat>, end: seq<nat>, upTo: nat) {
    && |start| == |end|
    && (forall r :: 0 <= r < |start| ==> MaximalRun(marked, start[r], end[r]))
    && (forall r, q :: 0 <= r < q < |start| ==> end[r] < start[q])
    && (forall c: nat :: c < upTo <= |marked| && marked[c] ==> InSomeRun(start, end, c))
  }

  ghost predicate HoldsRow(runs: Runs, row: nat, marked: seq<bool>) {
    && |runs.off| == |runs.count| && |runs.start| == |runs.end| && row < |runs.off|
    && 1 <= runs.off[row] && runs.off[row] - 1 + runs.count[row] <= |runs.start|
    && RunsExact(marked, RowStart(runs, row), RowEnd(runs, row), |marked|)
  }

  ghost function RowStart(runs: Runs, row: nat): seq<nat>
    requires row < |runs.off| == |runs.count|
    requires 1 <= runs.off[row] && runs.off[row] - 1 + runs.count[row] <= |runs.start|
  {
    runs.start[runs.off[row] - 1..runs.off[row] - 1 + runs.count[row]]
  }

  ghost function RowEnd(runs: Runs, row: nat): seq<nat>
    requires row < |runs.off| == |runs.count|
    requires 1 <= runs.off[row] && runs.off[row] - 1 + runs.count[row] <= |runs.end|
  {
    runs.end[runs.off[row] - 1..runs.off[row] - 1 + runs.count[row]]
  }

  /** Skips columns until one with the given marking, or the end. */
  method Skip(marked: seq<bool>, from: nat, mark: bool) returns (column: nat)
    requires from <= |marked|
    ensures from <= column <= |marked|
    ensures forall c :: from <= c < column ==> marked[c] == mark
    ensures column < |marked| ==> marked[column] != mark
  {
    column := from;
    while column < |marked| && marked[column] == mark
      invariant from <= column <= |marked|
      invariant forall c :: from <= c < column ==> marked[c] == mark
    {
      column := column + 1;
    }
  }

  lemma AppendRun(marked: seq<bool>, start: seq<nat>, end: seq<nat>, from: nat, first: nat, column: nat)
    requires RunsExact(marked, start, end, from)
    requires forall r :: 0 <= r < |end| ==> end[r] <= from
    requires from <= first < column <= |marked|
    requires forall c :: from <= c < first ==> !marked[c]
    requires forall c :: first <= c < column ==> marked[c]
    requires first == from ==> first == 0 || !marked[first - 1]
    requires column < |marked| ==> !marked[column]
    ensures RunsExact(marked, start + [first + 1], end + [column], column)
    ensures forall r :: 0 <= r < |end + [column]| ==> (end + [column])[r] <= column
  {
    assert MaximalRun(marked, first + 1, column);
    forall c: nat | c < column && marked[c] ensures InSomeRun(start + [first + 1], end + [column], c) {
      if c < from {
        assert InSomeRun(start, end, c);
        var r :| 0 <= r < |start| && start[r] <= c + 1 <= end[r];
        assert (start + [first + 1])[r] == start[r] && (end + [column])[r] == end[r];
      } else {
        assert (start + [first + 1])[|start|] == first + 1 && (end + [column])[|start|] == column;
      }
    }
  }

  /** One row's maximal runs. */
  method RowRuns(marked: seq<bool>) returns (start: seq<nat>, end: seq<nat>)
    ensures RunsExact(marked, start, end, |marked|)
  {
    start, end := [], [];
    var column := 0;
    while column < |marked|
      invariant column <= |marked|
      invariant RunsExact(marked, start, end, column)
      invariant forall r :: 0 <= r < |end| ==> end[r] <= column
      invariant column < |marked| && column > 0 ==> !marked[column]
    {
      var first := Skip(marked, column, false);
      if first == |marked| {
        NoMoreRuns(marked, start, end, column);
        return;
      }
      var next := Skip(marked, first, true);
      AppendRun(marked, start, end, column, first, next);
      start, end := start + [first + 1], end + [next];
      column := next;
    }
  }

  lemma NoMoreRuns(marked: seq<bool>, start: seq<nat>, end: seq<nat>, from: nat)
    requires RunsExact(marked, start, end, from) && from <= |marked|
    requires forall c :: from <= c < |marked| ==> !marked[c]
    ensures RunsExact(marked, start, end, |marked|)
  {
  }

  /** `ledgr_cpp_history_gap_runs` and `ledgr_cpp_history_false_runs`: every row's
      maximal runs in one pair of vectors. */
  method BuildRuns(marked: seq<seq<bool>>) returns (runs: Runs)
    ensures |runs.off| == |marked|
    ensures forall row :: 0 <= row < |marked| ==> HoldsRow(runs, row, marked[row])
  {
    var off: seq<nat>, count: seq<nat>, start: seq<nat>, end: seq<nat> := [], [], [], [];
    for row := 0 to |marked|
      invariant |off| == |count| == row && |start| == |end|
      invariant forall r :: 0 <= r < row ==> HoldsRow(Runs(off, count, start, end), r, marked[r])
    {
      var rowStart, rowEnd := RowRuns(marked[row]);
      ghost var before := Runs(off, count, start, end);
      off, count := off + [|start| + 1], count + [|rowStart|];
      start, end := start + rowStart, end + rowEnd;
      forall r | 0 <= r <= row ensures HoldsRow(Runs(off, count, start, end), r, marked[r]) {
        if r < row { RowKept(before, Runs(off, count, start, end), r, marked[r]); }
        else {
          assert RowStart(Runs(off, count, start, end), r) == rowStart;
          assert RowEnd(Runs(off, count, start, end), r) == rowEnd;
        }
      }
    }
    runs := Runs(off, count, start, end);
  }

  lemma RowKept(before: Runs, after: Runs, row: nat, marked: seq<bool>)
    requires HoldsRow(before, row, marked)
    requires |after.off| == |after.count| && |after.start| == |after.end|
    requires before.off <= after.off && before.count <= after.count
    requires before.start <= after.start && before.end <= after.end
    ensures HoldsRow(after, row, marked)
  {
    assert RowStart(after, row) == RowStart(before, row);
    assert RowEnd(after, row) == RowEnd(before, row);
  }

  ghost predicate EndsBefore(end: seq<nat>, k: int, first: nat) {
    k <= |end| && forall r :: 0 <= r < k ==> end[r] < first + 1
  }

  ghost predicate EndsFrom(end: seq<nat>, k: int, first: nat) {
    0 <= k && forall r :: k <= r < |end| ==> end[r] >= first + 1
  }

  /** Run ends rise, so one of them decides all on its side. */
  lemma EndsSplit(marked: seq<bool>, start: seq<nat>, end: seq<nat>, m: nat, first: nat)
    requires RunsExact(marked, start, end, |marked|) && m < |end|
    ensures if end[m] < first + 1 then EndsBefore(end, m + 1, first) else EndsFrom(end, m, first)
  {
    forall r | 0 <= r < |end| ensures (r <= m ==> end[r] <= end[m]) && (m <= r ==> end[m] <= end[r]) {
      if r < m { EndsIncrease(marked, start, end, r, m); }
      if m < r { EndsIncrease(marked, start, end, m, r); }
    }
  }

  /** Whether some marked column lies in [first, last], by binary search on run ends. */
  method AnyMarked(runs: Runs, row: nat, ghost marked: seq<bool>, first: nat, last: nat) returns (hit: bool)
    requires HoldsRow(runs, row, marked) && first <= last < |marked|
    ensures hit <==> exists c: nat :: first <= c <= last && marked[c]
  {
    var base := runs.off[row] - 1;
    var limit := base + runs.count[row];
    var low, high := base, limit;
    hide RunsExact;
    ghost var start, end := RowStart(runs, row), RowEnd(runs, row);
    while low < high
      invariant base <= low <= high <= limit
      invariant EndsBefore(end, low - base, first)
      invariant EndsFrom(end, high - base, first)
    {
      var middle := low + (high - low) / 2;
      assert runs.end[middle] == end[middle - base];
      EndsSplit(marked, start, end, middle - base, first);
      if runs.end[middle] < first + 1 { low := middle + 1; } else { high := middle; }
    }
    hit := low < limit && runs.start[low] <= last + 1;
    FirstRunDecides(marked, start, end, low - base, first, last);
  }

  lemma EndsIncrease(marked: seq<bool>, start: seq<nat>, end: seq<nat>, r: nat, q: nat)
    requires RunsExact(marked, start, end, |marked|) && r <= q < |end|
    ensures end[r] <= end[q]
  {
    if r < q { assert MaximalRun(marked, start[q], end[q]); }
  }

  lemma FirstRunDecides(marked: seq<bool>, start: seq<nat>, end: seq<nat>, at: nat, first: nat, last: nat)
    requires RunsExact(marked, start, end, |marked|) && at <= |start| && first <= last < |marked|
    requires forall r :: 0 <= r < at ==> end[r] < first + 1
    requires forall r :: at <= r < |end| ==> end[r] >= first + 1
    ensures (at < |start| && start[at] <= last + 1) <==> exists c: nat :: first <= c <= last && marked[c]
  {
    if at < |start| && start[at] <= last + 1 {
      assert MaximalRun(marked, start[at], end[at]);
      var c: nat := if start[at] - 1 >= first then start[at] - 1 else first;
      assert marked[c];
    }
    if c: nat :| first <= c <= last && marked[c] {
      assert InSomeRun(start, end, c);
      var r :| 0 <= r < |start| && start[r] <= c + 1 <= end[r];
      assert at <= r;
      if at < r { assert MaximalRun(marked, start[at], end[at]); }
    }
  }
}
