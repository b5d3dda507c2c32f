/** The valuation clock: it reads each column of closes once as pulses advance, yet what it
    reports at a pulse is a backward scan for the last observed close. */
module ValuationClock {
  import opened Wrappers
  import opened Ordering

  /** One instrument's closes by column; missing where none was observed. */
  type Closes = seq<Option<real>>

  // ---- the direct definition ------------------------------------------------------------

  /** The last observed close at or before column `c`, looking backwards. */
  function BackScan(row: Closes, c: nat): (at: Option<nat>)
    requires c < |row|
    ensures at.Some? ==> at.value <= c && row[at.value].Some? && forall j :: at.value < j <= c ==> row[j].None?
    ensures at.None? ==> forall j :: 0 <= j <= c ==> row[j].None?
  {
    if row[c].Some? then Some(c) else if c == 0 then None else BackScan(row, c - 1)
  }

  datatype Source = MissingClose | ExpiredClose | CurrentClose | StaleClose | FrozenClose

  datatype Mark = Mark(mark: Option<real>, reference: Option<real>, sourceAt: Option<nat>, age: Option<nat>,
                       source: Source, permissible: bool, frozen: bool)

  /** A mark at column `c`: the last observed close if it is fresh enough, or if a held
      position may freeze it. */
  function DirectMark(row: Closes, c: nat, maxSessions: nat, mayFreeze: bool): Mark
    requires c < |row|
  {
    match BackScan(row, c)
    case None => Mark(None, None, None, None, MissingClose, false, false)
    case Some(p) =>
      var age := c - p;
      if age <= maxSessions then
        Mark(row[p], row[p], Some(p), Some(age), if age == 0 then CurrentClose else StaleClose, true, false)
      else if mayFreeze then Mark(row[p], row[p], Some(p), Some(age), FrozenClose, false, true)
      else Mark(None, row[p], Some(p), Some(age), ExpiredClose, false, false)
  }

  /** The latest column through `c` with an observed close. */
  ghost predicate LastObserved(row: Closes, c: nat, p: nat)
    requires c < |row|
  {
    p <= c && row[p] != None && forall j :: p < j <= c ==> row[j] == None
  }

  /** What each label says: the close is the column's own, or no older than the horizon, or older
      and frozen because the position may be, or older and expired, or there is none. Only the
      first three are marks, and only the first two are permissible. */
  lemma LabelsMean(row: Closes, c: nat, maxSessions: nat, mayFreeze: bool)
    requires c < |row|
    ensures var m := DirectMark(row, c, maxSessions, mayFreeze);
      && (m.source == MissingClose <==> forall j :: 0 <= j <= c ==> row[j] == None)
      && (m.source == MissingClose ==> m.reference == None && m.sourceAt == None && m.age == None)
      && (m.source == CurrentClose <==> row[c] != None)
      && (forall p: nat :: LastObserved(row, c, p) ==>
            && (m.source == StaleClose <==> 0 < c - p <= maxSessions)
            && (m.source == FrozenClose <==> maxSessions < c - p && mayFreeze)
            && (m.source == ExpiredClose <==> maxSessions < c - p && !mayFreeze)
            && m.reference == row[p] && m.sourceAt == Some(p) && m.age == Some(c - p))
      && (m.permissible <==> m.source == CurrentClose || m.source == StaleClose)
      && (m.frozen <==> m.source == FrozenClose)
      && m.mark == (if m.permissible || m.frozen then m.reference else None)
  {
    var at := BackScan(row, c);
    forall p: nat | LastObserved(row, c, p) ensures at == Some(p) { }
  }

  lemma {:induction false} ScanIgnoresLater(a: Closes, b: Closes, c: nat)
    requires c < |a| && c < |b| && a[..c + 1] == b[..c + 1]
    ensures BackScan(a, c) == BackScan(b, c)
  {
    assert a[c] == a[..c + 1][c] == b[..c + 1][c] == b[c];
    if c > 0 {
      assert a[..c] == a[..c + 1][..c];
      assert b[..c] == b[..c + 1][..c];
      ScanIgnoresLater(a, b, c - 1);
    }
  }

  /** No later close influences a mark. */
  lemma MarkIgnoresLater(a: Closes, b: Closes, c: nat, maxSessions: nat, mayFreeze: bool)
    requires c < |a| && c < |b| && a[..c + 1] == b[..c + 1]
    ensures DirectMark(a, c, maxSessions, mayFreeze) == DirectMark(b, c, maxSessions, mayFreeze)
  {
    ScanIgnoresLater(a, b, c);
    if BackScan(a, c).Some? {
      var p := BackScan(a, c).value;
      assert a[p] == a[..c + 1][p] == b[..c + 1][p] == b[p];
    }
  }

  // ---- the running state -----------------------------------------------------------------

  /** The last observed close among the first `seen` columns. */
  function LastSeen(row: Closes, seen: nat): Option<nat>
    requires seen <= |row|
  {
    if seen == 0 then None else BackScan(row, seen - 1)
  }

  ghost predicate CarriesAt(row: Closes, seen: nat, close: Option<real>, at: Option<nat>) {
    && seen <= |row| && at == LastSeen(row, seen)
    && close == if at.Some? then row[at.value] else None
  }

  ghost predicate Rectangular(closes: seq<Closes>, width: nat) {
    forall i :: 0 <= i < |closes| ==> |closes[i]| == width
  }

  ghost predicate Increasing(columns: seq<nat>, width: nat) {
    && (forall i :: 0 <= i < |columns| ==> columns[i] < width)
    && forall i, j :: 0 <= i < j < |columns| ==> columns[i] < columns[j]
  }

  datatype Refusal = OutsideCalendar | OutOfOrder | BadAxis

  predicate GoodAxis(ids: seq<int>, axis: seq<int>) {
    && (forall i :: 0 <= i < |axis| ==> axis[i] in ids)
    && (forall i, j :: 0 <= i < j < |axis| ==> axis[i] != axis[j])
  }

  lemma AxisMeans(ids: seq<int>, axis: seq<int>)
    ensures GoodAxis(ids, axis) <==> Distinct(axis) && forall id :: id in axis ==> id in ids
  {
    if forall id :: id in axis ==> id in ids {
      forall i | 0 <= i < |axis| ensures axis[i] in ids { assert axis[i] in axis; }
    }
  }

  /** One column: observed closes replace what was carried. */
  method ReadColumn(closes: seq<Closes>, j: nat, lastClose: seq<Option<real>>, lastPulse: seq<Option<nat>>)
    returns (close: seq<Option<real>>, at: seq<Option<nat>>)
    requires |lastClose| == |lastPulse| == |closes|
    requires forall i :: 0 <= i < |closes| ==> j < |closes[i]| && CarriesAt(closes[i], j, lastClose[i], lastPulse[i])
    ensures |close| == |at| == |closes|
    ensures forall i :: 0 <= i < |closes| ==> CarriesAt(closes[i], j + 1, close[i], at[i])
  {
    close, at := lastClose, lastPulse;
    for i := 0 to |closes|
      invariant |close| == |at| == |closes|
      invariant forall k :: 0 <= k < i ==> CarriesAt(closes[k], j + 1, close[k], at[k])
      invariant forall k :: i <= k < |closes| ==> close[k] == lastClose[k] && at[k] == lastPulse[k]
    {
      assert CarriesAt(closes[i], j, lastClose[i], lastPulse[i]);
      if closes[i][j].Some? { close, at := close[i := closes[i][j]], at[i := Some(j)]; }
    }
  }

  /** What a carried close reports at the target column. */
  function Report(close: Option<real>, at: Option<nat>, target: nat, maxSessions: nat, mayFreeze: bool): Mark {
    var age := if at.None? || at.value > target then None else Some(target - at.value);
    var permissible := age.Some? && age.value <= maxSessions;
    var frozen := mayFreeze && !permissible && age.Some?;
    var source :=
      if frozen then FrozenClose
      else if permissible then (if age.value == 0 then CurrentClose else StaleClose)
      else if age.Some? then ExpiredClose else MissingClose;
    Mark(if permissible || frozen then close else None, close, at, age, source, permissible, frozen)
  }

  lemma ReportIsDirect(row: Closes, target: nat, close: Option<real>, at: Option<nat>, maxSessions: nat,
                       mayFreeze: bool)
    requires target < |row| && CarriesAt(row, target + 1, close, at)
    ensures Report(close, at, target, maxSessions, mayFreeze) == DirectMark(row, target, maxSessions, mayFreeze)
  {
  }

  lemma OneMoreColumn(n: nat, j: nat)
    ensures n * (j + 1) == n * j + n
  {
  }

  class Clock {
    const ids: seq<int>
    const closes: seq<Closes>
    const width: nat
    const columns: seq<nat>
    const maxSessions: nat
    const freeze: bool
    var lastClose: seq<Option<real>>
    var lastPulse: seq<Option<nat>>
    var current: nat
    var closeCellsRead: nat

    /** Columns read so far: through the current pulse's. */
    function Seen(): nat
      requires current <= |columns|
      reads this
    {
      if current == 0 then 0 else columns[current - 1] + 1
    }

    /** Every instrument carries its last observed close, and each cell was read once. */
    ghost predicate Valid()
      reads this
    {
      && |ids| == |closes| && Distinct(ids) && Rectangular(closes, width) && Increasing(columns, width)
      && current <= |columns| && |lastClose| == |lastPulse| == |closes|
      && (forall i :: 0 <= i < |closes| ==> CarriesAt(closes[i], Seen(), lastClose[i], lastPulse[i]))
      && closeCellsRead == |closes| * Seen()
    }

    constructor (ids: seq<int>, closes: seq<Closes>, width: nat, columns: seq<nat>, maxSessions: nat, freeze: bool)
      requires |ids| == |closes| && Distinct(ids) && Rectangular(closes, width) && Increasing(columns, width)
      ensures Valid() && current == 0 && this.ids == ids && this.closes == closes && this.width == width
      ensures this.columns == columns && this.maxSessions == maxSessions && this.freeze == freeze
    {
      this.ids, this.closes, this.width, this.columns := ids, closes, width, columns;
      this.maxSessions, this.freeze := maxSessions, freeze;
      lastClose, lastPulse := seq(|closes|, _ => None), seq(|closes|, _ => None);
      current, closeCellsRead := 0, 0;
    }

    /** Reads the columns from the first unread one through the pulse's own. */
    method ReadTo(pulse: nat)
      requires Valid() && current < pulse <= |columns|
      modifies this
      ensures Valid() && current == pulse
    {
      var from, target := Seen(), columns[pulse - 1];
      var close, at, read := lastClose, lastPulse, closeCellsRead;
      assert from <= target;
      for j := from to target + 1
        invariant |close| == |at| == |closes|
        invariant forall i :: 0 <= i < |closes| ==> CarriesAt(closes[i], j, close[i], at[i])
        invariant read == |closes| * j
      {
        close, at := ReadColumn(closes, j, close, at);
        read := read + |closes|;
        OneMoreColumn(|closes|, j);
      }
      lastClose, lastPulse, closeCellsRead, current := close, at, read, pulse;
    }

    predicate MayFreeze(held: Option<seq<bool>>, k: nat)
      requires held.Some? ==> k < |held.value|
    {
      freeze && held.Some? && held.value[k]
    }

    /** The direct mark of an id at a column. */
    ghost predicate IsMarkAt(mark: Mark, id: int, target: nat, mayFreeze: bool) {
      && |ids| == |closes| && id in ids && target < |closes[Position(ids, id)]|
      && mark == DirectMark(closes[Position(ids, id)], target, maxSessions, mayFreeze)
    }

    method Marks(axis: seq<int>, held: Option<seq<bool>>, target: nat) returns (marks: seq<Mark>)
      requires Valid() && current > 0 && target == columns[current - 1] && GoodAxis(ids, axis)
      requires held.Some? ==> |held.value| == |axis|
      ensures |marks| == |axis|
      ensures forall k :: 0 <= k < |axis| ==> IsMarkAt(marks[k], axis[k], target, MayFreeze(held, k))
    {
      marks := [];
      for k := 0 to |axis|
        invariant |marks| == k
        invariant forall i :: 0 <= i < k ==> IsMarkAt(marks[i], axis[i], target, MayFreeze(held, i))
      {
        var row := Position(ids, axis[k]);
        ReportIsDirect(closes[row], target, lastClose[row], lastPulse[row], maxSessions, MayFreeze(held, k));
        marks := marks + [Report(lastClose[row], lastPulse[row], target, maxSessions, MayFreeze(held, k))];
      }
    }

    /** One call. A refused call changes nothing; an accepted one reports, for every id on
        the axis, the direct mark at the pulse's column. */
    method Advance(pulse: int, axis: seq<int>, held: Option<seq<bool>>) returns (r: Result<seq<Mark>, Refusal>)
      requires Valid() && (held.Some? ==> |held.value| == |axis|)
      modifies this
      ensures Valid()
      ensures r == Failure(OutsideCalendar) <==> !(1 <= pulse <= |columns|)
      ensures r == Failure(OutOfOrder) <==> 1 <= pulse <= |columns| && pulse < old(current)
      ensures r == Failure(BadAxis) <==>
        1 <= pulse <= |columns| && pulse >= old(current) && !(Distinct(axis) && forall id :: id in axis ==> id in ids)
      ensures r.Failure? ==> current == old(current) && closeCellsRead == old(closeCellsRead)
      ensures r.Failure? ==> lastClose == old(lastClose) && lastPulse == old(lastPulse)
      ensures r.Success? ==> current == pulse && closeCellsRead == |closes| * (columns[pulse - 1] + 1)
      ensures r.Success? ==> |r.value| == |axis|
      ensures r.Success? ==> forall k :: 0 <= k < |axis| ==>
        IsMarkAt(r.value[k], axis[k], columns[pulse - 1], freeze && held != None && held.value[k])
    {
      if !(1 <= pulse <= |columns|) { return Failure(OutsideCalendar); }
      if pulse < current { return Failure(OutOfOrder); }
      AxisMeans(ids, axis);
      if !GoodAxis(ids, axis) { return Failure(BadAxis); }
      if pulse > current { ReadTo(pulse); }
      var marks := Marks(axis, held, columns[pulse - 1]);
      r := Success(marks);
    }
  }
}
