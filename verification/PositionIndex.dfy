/** "Position at time t" without replaying: one sorted key column answers every
    (instrument, time) pair, and agrees with replaying the ledger up to that time. */
module PositionIndex {
  import opened Wrappers
  import opened Ordering
  import opened SpotFifo
  import opened SpotKernel
  import opened LotStore
  import opened AccountingReplay
  import opened ReplayLoop
  import MixedRadix

  // ---- the per-time reader --------------------------------------------------------------

  predicate UpTo(e: Event, t: int) { e.ts <= t }

  function Before(events: seq<Event>, t: int): seq<Event> { Filter(events, (e: Event) => UpTo(e, t)) }

  lemma BeforePrepared(events: seq<Event>, t: int, count: nat)
    requires AllPrepared(events, count)
    ensures AllPrepared(Before(events, t), count)
  {
    FilterMembers(events, (e: Event) => UpTo(e, t));
    var kept := Before(events, t);
    forall i | 0 <= i < |kept| ensures Prepared(kept[i], count) {
      assert kept[i] in kept;
      var j :| 0 <= j < |events| && events[j] == kept[i];
    }
  }

  /** The reader that selects the events at or before a time and replays them. */
  function ReplayAsof(a: Account, events: seq<Event>, t: int): Result<History, Refused>
    requires AllPrepared(events, |a.books|)
  {
    BeforePrepared(events, t, |a.books|);
    Replay(a, Before(events, t))
  }

  // ---- chronological ledgers ---------------------------------------------------------------

  predicate Chronological(events: seq<Event>) {
    forall i, j :: 0 <= i < j < |events| ==> events[i].ts <= events[j].ts
  }

  /** No event comes right after one with a later timestamp. */
  lemma {:induction false} ChronologicalMeans(events: seq<Event>)
    ensures Chronological(events) <==> forall i :: 0 < i < |events| ==> !(events[i].ts < events[i - 1].ts)
  {
    if events != [] {
      var n := |events| - 1;
      ChronologicalMeans(events[..n]);
      assert forall i :: 0 <= i < n ==> events[..n][i] == events[i];
      if n > 0 && (forall i :: 0 < i < |events| ==> !(events[i].ts < events[i - 1].ts)) {
        assert events[n - 1].ts <= events[n].ts;
      }
    }
  }

  function PrefixCount(events: seq<Event>, t: int): (k: nat)
    requires Chronological(events)
    ensures k <= |events|
    ensures forall i :: 0 <= i < k ==> events[i].ts <= t
    ensures forall i :: k <= i < |events| ==> events[i].ts > t
  {
    FindInterval(events, (e: Event) => UpTo(e, t))
  }

  /** When timestamps never decrease, the events up to a time are a prefix of the ledger. */
  lemma BeforeIsPrefix(events: seq<Event>, t: int)
    requires Chronological(events)
    ensures Before(events, t) == events[..PrefixCount(events, t)]
  {
    FilterIsSlice(events, (e: Event) => UpTo(e, t), 0, PrefixCount(events, t));
  }

  // ---- the last event of an instrument --------------------------------------------------------

  predicate Reports(e: Event, q: nat) { Target(e) == Some(q) }

  /** `i` is the last of the first `k` events that reports `q`. */
  ghost predicate IsLast(events: seq<Event>, q: nat, k: nat, i: nat) {
    && i < k <= |events| && Reports(events[i], q)
    && forall j :: i < j < k ==> !Reports(events[j], q)
  }

  ghost predicate Silent(events: seq<Event>, q: nat, k: nat)
    requires k <= |events|
  {
    forall j :: 0 <= j < k ==> !Reports(events[j], q)
  }

  predicate Flat(a: Account) { forall q :: 0 <= q < |a.books| ==> a.books[q].net == 0.0 }

  /** The position after the last event of the instrument is its net after the whole prefix. */
  lemma LastHolds(a: Account, events: seq<Event>, q: nat, k: nat, i: nat)
    requires AllPrepared(events, |a.books|) && Replay(a, events).Success? && q < |a.books| && IsLast(events, q, k, i)
    ensures Replay(a, events[..k]).Success?
    ensures Replay(a, events).value.marks[i].position == Some(Replay(a, events[..k]).value.account.books[q].net)
  {
    hide Replay;
    MarkIsPrefix(a, events, i);
    assert Reports(events[i], q);
    forall j | i + 1 <= j < k ensures Target(events[j]) != Some(q) { assert !Reports(events[j], q); }
    QuietStretch(a, events, q, i + 1, k);
  }

  lemma SilentHolds(a: Account, events: seq<Event>, q: nat, k: nat)
    requires AllPrepared(events, |a.books|) && Replay(a, events).Success? && q < |a.books|
    requires k <= |events| && Silent(events, q, k)
    ensures Replay(a, events[..k]).Success?
    ensures Replay(a, events[..k]).value.account.books[q] == a.books[q]
  {
    forall j | 0 <= j < k ensures Target(events[j]) != Some(q) { assert !Reports(events[j], q); }
    QuietStretch(a, events, q, 0, k);
    assert events[..0] == [];
  }

  // ---- the key column ------------------------------------------------------------------------

  /** One keyed row: instrument, then place in the ledger. */
  datatype Keyed = Keyed(key: int, inst: nat, after: real)

  function Key(width: nat, inst: nat, place: nat): int { (inst + 1) * width + place }

  ghost predicate Marked(events: seq<Event>, marks: seq<Mark>) {
    |marks| == |events| && forall i :: 0 <= i < |events| ==> (Target(events[i]).Some? ==> marks[i].position.Some?)
  }

  function RowAt(events: seq<Event>, marks: seq<Mark>, i: nat): Keyed
    requires Marked(events, marks) && i < |events| && Target(events[i]).Some?
  {
    var inst := Target(events[i]).value;
    Keyed(Key(|events| + 1, inst, i + 1), inst, marks[i].position.value)
  }

  /** A row for each of the first `k` events that reports an instrument. */
  function KeyedRows(events: seq<Event>, marks: seq<Mark>, k: nat): seq<Keyed>
    requires Marked(events, marks) && k <= |events|
  {
    if k == 0 then []
    else KeyedRows(events, marks, k - 1) + if Target(events[k - 1]).Some? then [RowAt(events, marks, k - 1)] else []
  }

  ghost predicate IsRowAt(events: seq<Event>, marks: seq<Mark>, r: Keyed, i: nat)
    requires Marked(events, marks) && i < |events|
  {
    Target(events[i]).Some? && r == RowAt(events, marks, i)
  }

  lemma {:induction false} RowHasEvent(events: seq<Event>, marks: seq<Mark>, k: nat, r: Keyed) returns (i: nat)
    requires Marked(events, marks) && k <= |events| && r in KeyedRows(events, marks, k)
    ensures i < k && IsRowAt(events, marks, r, i)
  {
    if r in KeyedRows(events, marks, k - 1) {
      i := RowHasEvent(events, marks, k - 1, r);
    } else {
      i := k - 1;
    }
  }

  lemma {:induction false} EventHasRow(events: seq<Event>, marks: seq<Mark>, k: nat, i: nat)
    requires Marked(events, marks) && i < k <= |events| && Target(events[i]).Some?
    ensures RowAt(events, marks, i) in KeyedRows(events, marks, k)
  {
    if i < k - 1 { EventHasRow(events, marks, k - 1, i); }
  }

  predicate KeyLe(r: Keyed, s: Keyed) { r.key <= s.key }

  function Index(events: seq<Event>, marks: seq<Mark>): (index: seq<Keyed>)
    requires Marked(events, marks)
    ensures SortedBy(index, KeyLe)
  {
    SortSorted(KeyedRows(events, marks, |events|), KeyLe);
    Sort(KeyedRows(events, marks, |events|), KeyLe)
  }

  /** One search: the last row at or below the key, if it belongs to the instrument. */
  function Lookup(index: seq<Keyed>, width: nat, q: nat, prefix: nat): real
    requires SortedBy(index, KeyLe)
  {
    var x := Key(width, q, prefix);
    var hit := FindInterval(index, (r: Keyed) => r.key <= x);
    if hit > 0 && index[hit - 1].inst == q then index[hit - 1].after else 0.0
  }

  /** Every event of `q` in the prefix lies at or before the found row. */
  lemma EarlierRow(events: seq<Event>, marks: seq<Mark>, q: nat, k: nat, j: nat, hit: nat)
    requires Marked(events, marks) && j < k <= |events| && Reports(events[j], q)
    requires var index := Index(events, marks);
      hit == FindInterval(index, (r: Keyed) => r.key <= Key(|events| + 1, q, k))
    ensures 0 < hit <= |Index(events, marks)|
    ensures Key(|events| + 1, q, j + 1) <= Index(events, marks)[hit - 1].key
  {
    var index := Index(events, marks);
    EventHasRow(events, marks, |events|, j);
    SortMembers(KeyedRows(events, marks, |events|), KeyLe);
    var r := RowAt(events, marks, j);
    assert r in index;
    var p :| 0 <= p < |index| && index[p] == r;
    assert r.key <= Key(|events| + 1, q, k);
    assert p < hit;
    assert p == hit - 1 || KeyLe(index[p], index[hit - 1]);
  }

  /** The found row is an event's row. */
  lemma RowOfHit(events: seq<Event>, marks: seq<Mark>, p: nat) returns (i: nat)
    requires Marked(events, marks) && p < |Index(events, marks)|
    ensures i < |events| && IsRowAt(events, marks, Index(events, marks)[p], i)
  {
    SortMembers(KeyedRows(events, marks, |events|), KeyLe);
    assert Index(events, marks)[p] in Index(events, marks);
    i := RowHasEvent(events, marks, |events|, Index(events, marks)[p]);
  }

  /** The search finds the last event of the instrument in the prefix. */
  lemma LookupFindsLast(events: seq<Event>, marks: seq<Mark>, q: nat, k: nat) returns (last: Option<nat>)
    requires Marked(events, marks) && k <= |events|
    ensures last.Some? ==> IsLast(events, q, k, last.value)
    ensures last.Some? ==>
      marks[last.value].position == Some(Lookup(Index(events, marks), |events| + 1, q, k))
    ensures last.None? ==> Silent(events, q, k) && Lookup(Index(events, marks), |events| + 1, q, k) == 0.0
  {
    hide Index;
    var width, index := |events| + 1, Index(events, marks);
    var hit := FindInterval(index, (r: Keyed) => r.key <= Key(width, q, k));
    if hit > 0 && index[hit - 1].inst == q {
      var i := RowOfHit(events, marks, hit - 1);
      assert i + 1 <= k;
      forall j | i < j < k ensures !Reports(events[j], q) {
        if Reports(events[j], q) { EarlierRow(events, marks, q, k, j, hit); }
      }
      return Some(i);
    }
    forall j | 0 <= j < k ensures !Reports(events[j], q) {
      if Reports(events[j], q) {
        EarlierRow(events, marks, q, k, j, hit);
        var i := RowOfHit(events, marks, hit - 1);
        MixedRadix.Lexicographic(width, q + 1, j + 1, index[hit - 1].inst + 1, i + 1);
        MixedRadix.Lexicographic(width, index[hit - 1].inst + 1, i + 1, q + 1, k);
        assert false;
      }
    }
    return None;
  }

  // ---- the readers --------------------------------------------------------------------------

  /** What replaying the events at or before `t` says of `q`'s position. */
  ghost function PositionAsof(a: Account, events: seq<Event>, q: nat, t: int): real
    requires AllPrepared(events, |a.books|) && q < |a.books|
  {
    var r := ReplayAsof(a, events, t);
    if r.Success? then r.value.account.books[q].net else 0.0
  }

  lemma ReplayIsMarked(a: Account, events: seq<Event>)
    requires AllPrepared(events, |a.books|) && Replay(a, events).Success?
    ensures Marked(events, Replay(a, events).value.marks)
  {
    forall i | 0 <= i < |events| && Target(events[i]).Some?
      ensures Replay(a, events).value.marks[i].position.Some?
    {
      MarkIsPrefix(a, events, i);
    }
  }

  /** What the index says of a position: nothing held until an event reports the instrument. */
  ghost function IndexedAt(a: Account, events: seq<Event>, q: nat, t: int): real
    requires AllPrepared(events, |a.books|) && q < |a.books| && Chronological(events)
  {
    if Silent(events, q, PrefixCount(events, t)) then 0.0 else PositionAsof(a, events, q, t)
  }

  /** From any start, that is the per-time reader's position if and only if some event has
      reported the instrument by then, or nothing of it was held at the start. */
  lemma IndexedIsAsof(a: Account, events: seq<Event>, q: nat, t: int)
    requires AllPrepared(events, |a.books|) && Replay(a, events).Success? && q < |a.books| && Chronological(events)
    ensures IndexedAt(a, events, q, t) == PositionAsof(a, events, q, t)
       <==> !Silent(events, q, PrefixCount(events, t)) || a.books[q].net == 0.0
  {
    hide Replay;
    BeforeIsPrefix(events, t);
    if Silent(events, q, PrefixCount(events, t)) { SilentHolds(a, events, q, PrefixCount(events, t)); }
  }

  /** One search answers what the per-time reader answers of a reported instrument. */
  lemma LookupIsAsof(a: Account, events: seq<Event>, q: nat, t: int)
    requires AllPrepared(events, |a.books|) && Replay(a, events).Success? && q < |a.books| && Chronological(events)
    ensures Marked(events, Replay(a, events).value.marks)
    ensures Lookup(Index(events, Replay(a, events).value.marks), |events| + 1, q, PrefixCount(events, t))
         == IndexedAt(a, events, q, t)
  {
    hide Index, Lookup, Replay;
    var k := PrefixCount(events, t);
    ReplayIsMarked(a, events);
    BeforeIsPrefix(events, t);
    var last := LookupFindsLast(events, Replay(a, events).value.marks, q, k);
    if last.Some? {
      assert Reports(events[last.value], q);
      LastHolds(a, events, q, k, last.value);
    }
  }

  /** A query: an instrument, if the ledger knows it, and a time, if there is one. */
  datatype Query = Query(inst: Option<nat>, time: Option<int>)

  function Answer(index: seq<Keyed>, events: seq<Event>, query: Query): real
    requires SortedBy(index, KeyLe) && Chronological(events)
  {
    if query.inst.None? || query.time.None? then 0.0
    else Lookup(index, |events| + 1, query.inst.value, PrefixCount(events, query.time.value))
  }

  /** `positions_at_pairs`: nothing when timestamps decrease. */
  function PositionsAtPairs(events: seq<Event>, marks: seq<Mark>, queries: seq<Query>): Option<seq<real>>
    requires Marked(events, marks)
  {
    if !Chronological(events) then None
    else
      var index := Index(events, marks);
      Some(seq(|queries|, i requires 0 <= i < |queries| && SortedBy(index, KeyLe) && Chronological(events) =>
        Answer(index, events, queries[i])))
  }

  ghost function Expected(a: Account, events: seq<Event>, query: Query): real
    requires AllPrepared(events, |a.books|) && (query.inst.Some? ==> query.inst.value < |a.books|)
    requires Chronological(events)
  {
    if query.inst.None? || query.time.None? then 0.0
    else IndexedAt(a, events, query.inst.value, query.time.value)
  }

  /** From any start, every pair gets the position that replaying the ledger up to its time
      gives a reported instrument, and zero otherwise; the index declines exactly when
      timestamps decrease. */
  lemma PairsAreAsof(a: Account, events: seq<Event>, queries: seq<Query>)
    requires AllPrepared(events, |a.books|) && Replay(a, events).Success?
    requires forall i :: 0 <= i < |queries| && queries[i].inst.Some? ==> queries[i].inst.value < |a.books|
    ensures Marked(events, Replay(a, events).value.marks)
    ensures PositionsAtPairs(events, Replay(a, events).value.marks, queries).Some? <==> Chronological(events)
    ensures var out := PositionsAtPairs(events, Replay(a, events).value.marks, queries);
      out.Some? ==>
        |out.value| == |queries| && forall i :: 0 <= i < |queries| ==> out.value[i] == Expected(a, events, queries[i])
  {
    hide Index, Lookup, Replay, IndexedAt;
    ReplayIsMarked(a, events);
    if Chronological(events) {
      var out := PositionsAtPairs(events, Replay(a, events).value.marks, queries).value;
      forall i | 0 <= i < |queries| ensures out[i] == Expected(a, events, queries[i]) {
        if queries[i].inst.Some? && queries[i].time.Some? {
          LookupIsAsof(a, events, queries[i].inst.value, queries[i].time.value);
        }
      }
    }
  }

  /** `positions_timeline`: every instrument at every time, by the same search. An empty
      ledger knows no instruments. */
  function Timeline(events: seq<Event>, marks: seq<Mark>, count: nat, times: seq<int>): Option<seq<seq<real>>>
    requires Marked(events, marks)
  {
    if events == [] then Some(seq(|times|, i => []))
    else if !Chronological(events) then None
    else
      var index := Index(events, marks);
      Some(seq(|times|, i requires 0 <= i < |times| && SortedBy(index, KeyLe) && Chronological(events) =>
        TimelineColumn(index, events, count, times[i])))
  }

  function TimelineColumn(index: seq<Keyed>, events: seq<Event>, count: nat, t: int): (column: seq<real>)
    requires SortedBy(index, KeyLe) && Chronological(events)
    ensures |column| == count
    ensures forall q :: 0 <= q < count ==> column[q] == Lookup(index, |events| + 1, q, PrefixCount(events, t))
  {
    var prefix := PrefixCount(events, t);
    seq(count, q requires 0 <= q < count && SortedBy(index, KeyLe) => Lookup(index, |events| + 1, q, prefix))
  }

  /** The timeline is the per-time reader at each of its times. */
  lemma TimelineIsAsof(a: Account, events: seq<Event>, times: seq<int>)
    requires AllPrepared(events, |a.books|) && Replay(a, events).Success? && Flat(a)
    ensures Marked(events, Replay(a, events).value.marks)
    ensures var out := Timeline(events, Replay(a, events).value.marks, |a.books|, times);
      && (out.Some? <==> Chronological(events))
      && (out.Some? && events != [] ==>
            && |out.value| == |times|
            && forall i :: 0 <= i < |times| ==> IsAsofColumn(a, events, times[i], out.value[i]))
  {
    hide Index, Lookup;
    ReplayIsMarked(a, events);
    if Chronological(events) && events != [] {
      var out := Timeline(events, Replay(a, events).value.marks, |a.books|, times).value;
      forall i | 0 <= i < |times| ensures IsAsofColumn(a, events, times[i], out[i]) {
        forall q: nat | q < |a.books| ensures out[i][q] == PositionAsof(a, events, q, times[i]) {
          LookupIsAsof(a, events, q, times[i]);
          IndexedIsAsof(a, events, q, times[i]);
        }
      }
    }
  }

  ghost predicate IsAsofColumn(a: Account, events: seq<Event>, t: int, column: seq<real>)
    requires AllPrepared(events, |a.books|)
  {
    |column| == |a.books| && forall q :: 0 <= q < |a.books| ==> column[q] == PositionAsof(a, events, q, t)
  }

  // ---- the per-time reader as it runs ------------------------------------------------------

  function FlatAccount(count: nat): (a: Account)
    ensures |a.books| == count && Flat(a)
  {
    AccountOf(EmptyStore(count), 0.0, 0)
  }

  /** `positions_asof`: reads the events at or before a time and replays them from nothing. */
  method PositionsAsof(count: nat, events: seq<Event>, t: int) returns (r: Result<seq<real>, Refused>)
    requires AllPrepared(events, count)
    ensures r.Success? <==> ReplayAsof(FlatAccount(count), events, t).Success?
    ensures r.Success? ==> IsAsofColumn(FlatAccount(count), events, t, r.value)
  {
    hide Replay;
    var seen := Before(events, t);
    BeforePrepared(events, t, count);
    var zero := seq(count, _ => 0.0);
    var out := ReplayEvents(EmptyStore(count), 0.0, zero, seen);
    if out.Failure? { return Failure(out.error); }
    forall q: nat | q < count ensures out.value.positions[q] == PositionAsof(FlatAccount(count), events, q, t) {
      if !Touched(seen, |seen|, q) { UntouchedStaysFlat(FlatAccount(count), seen, q); }
    }
    r := Success(out.value.positions);
  }

  lemma UntouchedStaysFlat(a: Account, events: seq<Event>, q: nat)
    requires AllPrepared(events, |a.books|) && Replay(a, events).Success? && q < |a.books|
    requires !Touched(events, |events|, q)
    ensures Replay(a, events).value.account.books[q] == a.books[q]
  {
    hide Replay;
    assert events[..|events|] == events;
    forall j: nat | j < |events| ensures !Reports(events[j], q) { }
    SilentHolds(a, events, q, |events|);
  }
}
