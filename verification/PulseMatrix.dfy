/** The instrument-by-pulse position matrix. Each instrument's book depends on its own events
    only, so its row is searched in those alone, whatever the others' timestamps do. */
module PulseMatrix {
  import opened Wrappers
  import opened Ordering
  import opened SpotFifo
  import opened SpotKernel
  import opened LotCells
  import opened LotStore
  import opened AccountingReplay
  import opened PositionIndex

  // ---- one book at a time --------------------------------------------------------------------

  /** What an event that reports an instrument does to its book; nothing if it is refused. */
  function BookAfter(book: Book, e: Event): Option<Book> {
    match e
    case CashEvent(_, _, _) => Some(book)
    case OpeningEvent(_, _, _, qty, costBasis) => Some(if qty == 0.0 then book else OpenLot(book, qty, costBasis))
    case FillEvent(_, _, _, side, qty, price, _) => FilledBook(book, side, qty, price)
    case DispositionEvent(_, _, _, before, quantity, mark, modelPnl) =>
      DisposedBook(book, before, quantity, mark, modelPnl)
  }

  function FilledBook(book: Book, side: Side, qty: real, price: real): Option<Book> {
    if Blocked(Closed(book, side, qty, price)) then None else Some(ApplyFill(book, side, qty, price).book)
  }

  function DisposedBook(book: Book, before: real, quantity: real, mark: real, modelPnl: real): Option<Book> {
    var side := DispositionSide(before);
    var e := ApplyFill(book, side, quantity, mark);
    if before == 0.0 || Abs(before) != quantity || mark < 0.0 then None
    else if Blocked(Closed(book, side, quantity, mark)) || e.book.net != 0.0 || e.book.lots != [] then None
    else
      DustPositive(e.realized, e.realized, e.realized, e.realized);
      if !NearlyEqual(e.realized, modelPnl, Dust(e.realized, e.realized, e.realized, e.realized)) then None
      else Some(e.book)
  }

  /** What an event makes of instrument `q`'s book. */
  function BookOn(book: Book, e: Event, q: nat): Option<Book> {
    if Reports(e, q) then BookAfter(book, e) else Some(book)
  }

  lemma TargetIsLocal(a: Account, e: Event)
    requires Prepared(e, |a.books|)
    ensures var out := ApplyEvent(a, e);
      match Target(e)
      case None => out.Success? && out.value.account.books == a.books
      case Some(q) =>
        && (out.Success? <==> BookAfter(a.books[q], e).Some?)
        && (out.Success? ==> out.value.account.books == a.books[q := BookAfter(a.books[q], e).value])
  {
    hide ApplyFill, Closed, Dust, NearlyEqual, Blocked;
    if e.DispositionEvent? {
      var delta := ApplyFill(a.books[e.inst], DispositionSide(e.before), e.quantity, e.mark).realized;
      assert delta - 0.0 == delta;
    }
  }

  /** Whether an event is accepted, and what becomes of the book it reports, is decided by that
      book alone; no other book changes. */
  lemma EventIsLocal(a: Account, e: Event)
    requires Prepared(e, |a.books|)
    ensures ApplyEvent(a, e).Success? <==> forall q: nat :: q < |a.books| ==> BookOn(a.books[q], e, q).Some?
    ensures ApplyEvent(a, e).Success? ==>
      forall q: nat :: q < |a.books| ==> BookOn(a.books[q], e, q) == Some(ApplyEvent(a, e).value.account.books[q])
  {
    hide ApplyEvent, BookAfter;
    TargetIsLocal(a, e);
    if Target(e).Some? { assert Reports(e, Target(e).value); }
  }

  function ReplayBook(book: Book, events: seq<Event>): Option<Book> {
    if events == [] then Some(book)
    else
      var before := ReplayBook(book, events[..|events| - 1]);
      if before.None? then None else BookAfter(before.value, events[|events| - 1])
  }

  lemma ReplayBookSnoc(book: Book, events: seq<Event>, e: Event)
    ensures var before := ReplayBook(book, events);
      ReplayBook(book, events + [e]) == if before.None? then None else BookAfter(before.value, e)
  {
    assert (events + [e])[..|events|] == events;
  }

  lemma {:induction false} ReplayBookPrefix(book: Book, events: seq<Event>, k: nat)
    requires ReplayBook(book, events).Some? && k <= |events|
    ensures ReplayBook(book, events[..k]).Some?
    decreases |events| - k
  {
    hide BookAfter;
    if k == |events| {
      assert events[..k] == events;
    } else {
      ReplayBookPrefix(book, events, k + 1);
      assert events[..k + 1][..k] == events[..k];
    }
  }

  /** The instrument's own events, in ledger order. */
  function Own(events: seq<Event>, q: nat): seq<Event> { Filter(events, (e: Event) => Reports(e, q)) }

  lemma OwnSnoc(events: seq<Event>, q: nat, k: nat)
    requires k < |events|
    ensures Own(events[..k + 1], q) == Own(events[..k], q) + if Reports(events[k], q) then [events[k]] else []
  {
    assert events[..k + 1] == events[..k] + [events[k]];
    FilterSnoc(events[..k], events[k], (e: Event) => Reports(e, q));
  }

  lemma OwnBefore(events: seq<Event>, q: nat, t: int)
    ensures Own(Before(events, t), q) == Before(Own(events, q), t)
  {
    FilterSwap(events, (e: Event) => UpTo(e, t), (e: Event) => Reports(e, q));
  }

  /** The instrument's book after its own events. */
  function OwnBook(a: Account, events: seq<Event>, q: nat): Option<Book>
    requires q < |a.books|
  {
    ReplayBook(a.books[q], Own(events, q))
  }

  ghost predicate AllOwn(a: Account, events: seq<Event>) {
    forall q :: 0 <= q < |a.books| ==> OwnBook(a, events, q).Some?
  }

  ghost predicate AgreesWithOwn(a: Account, events: seq<Event>, q: nat)
    requires AllPrepared(events, |a.books|) && q < |a.books|
  {
    var r := Replay(a, events);
    r.Success? ==> OwnBook(a, events, q) == Some(r.value.account.books[q])
  }

  lemma OwnBookSnoc(a: Account, events: seq<Event>, q: nat, n: nat)
    requires q < |a.books| && |events| == n + 1
    ensures OwnBook(a, events, q)
         == if OwnBook(a, events[..n], q).None? then None else BookOn(OwnBook(a, events[..n], q).value, events[n], q)
  {
    hide BookAfter, Own, ReplayBook;
    OwnSnoc(events, q, n);
    assert events[..n + 1] == events;
    assert Own(events[..n], q) + [] == Own(events[..n], q);
    ReplayBookSnoc(a.books[q], Own(events[..n], q), events[n]);
  }

  /** Replaying a ledger is replaying every instrument's own events: it is accepted exactly
      when they all are, and leaves the books they leave. */
  lemma {:induction false} ReplayIsLocal(a: Account, events: seq<Event>)
    requires AllPrepared(events, |a.books|)
    ensures Replay(a, events).Success? <==> AllOwn(a, events)
    ensures forall q: nat :: q < |a.books| ==> AgreesWithOwn(a, events, q)
  {
    hide ApplyEvent, OwnBook;
    if events == [] {
      NothingOwn(a);
    } else {
      var n := |events| - 1;
      ReplayIsLocal(a, events[..n]);
      forall q: nat | q < |a.books|
        ensures OwnBook(a, events[..n], q).None? ==> OwnBook(a, events, q).None?
      {
        OwnBookSnoc(a, events, q, n);
      }
      if Replay(a, events[..n]).Success? { LastIsLocal(a, events, n); }
    }
  }

  lemma NothingOwn(a: Account)
    ensures forall q: nat :: q < |a.books| ==> OwnBook(a, [], q) == Some(a.books[q])
  {
  }

  lemma LastIsLocal(a: Account, events: seq<Event>, n: nat)
    requires AllPrepared(events, |a.books|) && |events| == n + 1 && Replay(a, events[..n]).Success?
    requires AllOwn(a, events[..n]) && forall q: nat :: q < |a.books| ==> AgreesWithOwn(a, events[..n], q)
    ensures Replay(a, events).Success? <==> AllOwn(a, events)
    ensures forall q: nat :: q < |a.books| ==> AgreesWithOwn(a, events, q)
  {
    hide ApplyEvent, BookOn, OwnBook;
    var before := Replay(a, events[..n]).value.account;
    EventIsLocal(before, events[n]);
    forall q: nat | q < |a.books| ensures OwnBook(a, events, q) == BookOn(before.books[q], events[n], q) {
      assert AgreesWithOwn(a, events[..n], q);
      OwnBookSnoc(a, events, q, n);
    }
  }

  // ---- the rows of an instrument ------------------------------------------------------------

  /** The places, among the first `k` events, that report `q`. */
  function RowsOfInstrument(events: seq<Event>, q: nat, k: nat): (rows: seq<nat>)
    requires k <= |events|
    ensures forall i :: 0 <= i < |rows| ==> rows[i] < k && Reports(events[rows[i]], q)
    ensures forall i, j :: 0 <= i < j < |rows| ==> rows[i] < rows[j]
  {
    if k == 0 then []
    else RowsOfInstrument(events, q, k - 1) + if Reports(events[k - 1], q) then [k - 1] else []
  }

  function Picked(events: seq<Event>, rows: seq<nat>): (own: seq<Event>)
    requires forall i :: 0 <= i < |rows| ==> rows[i] < |events|
    ensures |own| == |rows| && forall i :: 0 <= i < |rows| ==> own[i] == events[rows[i]]
  {
    seq(|rows|, i requires 0 <= i < |rows| && rows[i] < |events| => events[rows[i]])
  }

  lemma {:induction false} RowsPickOwn(events: seq<Event>, q: nat, k: nat)
    requires k <= |events|
    ensures Picked(events, RowsOfInstrument(events, q, k)) == Own(events[..k], q)
  {
    if k > 0 {
      RowsPickOwn(events, q, k - 1);
      OwnSnoc(events, q, k - 1);
    }
  }

  lemma {:induction false} RowsGrow(events: seq<Event>, q: nat, k: nat, n: nat)
    requires k <= n <= |events|
    ensures RowsOfInstrument(events, q, k) <= RowsOfInstrument(events, q, n)
    decreases n
  {
    if k < n { RowsGrow(events, q, k, n - 1); }
  }

  /** The events up to one of the instrument's own rows hold its rows up to that one. */
  lemma OwnUpToRow(events: seq<Event>, q: nat, at: nat)
    requires at < |RowsOfInstrument(events, q, |events|)|
    ensures |Own(events, q)| == |RowsOfInstrument(events, q, |events|)|
    ensures Own(events[..RowsOfInstrument(events, q, |events|)[at] + 1], q) == Own(events, q)[..at + 1]
  {
    hide Own;
    var rows := RowsOfInstrument(events, q, |events|);
    var i := rows[at];
    RowsPickOwn(events, q, |events|);
    assert events[..|events|] == events;
    RowsPickOwn(events, q, i + 1);
    RowsGrow(events, q, i + 1, |events|);
    var some := RowsOfInstrument(events, q, i + 1);
    assert some[|some| - 1] == i && rows[|some| - 1] == i;
    assert |some| - 1 == at;
    assert Picked(events, some) == Picked(events, rows)[..at + 1];
  }

  // ---- positions at pulses ---------------------------------------------------------------------

  /** What replaying the instrument's own events at or before a time leaves of it, once there are any. */
  ghost function PulseAt(a: Account, events: seq<Event>, inst: Option<nat>, t: int): real
    requires inst.Some? ==> inst.value < |a.books|
  {
    if inst.None? then 0.0
    else
      var own := Before(Own(events, inst.value), t);
      var book := ReplayBook(a.books[inst.value], own);
      if own == [] || book.None? then 0.0 else book.value.net
  }

  /** When every instrument's own timestamps never decrease, the per-time reader accepts any
      time, and the pulse position is its answer exactly when the instrument has an event by
      then or nothing of it was held at the start. */
  lemma PulseIsAsof(a: Account, events: seq<Event>, q: nat, t: int)
    requires AllPrepared(events, |a.books|) && Replay(a, events).Success? && q < |a.books|
    requires forall p: nat :: p < |a.books| ==> Chronological(Own(events, p))
    ensures ReplayAsof(a, events, t).Success?
    ensures PulseAt(a, events, Some(q), t) == PositionAsof(a, events, q, t)
       <==> Before(Own(events, q), t) != [] || a.books[q].net == 0.0
  {
    hide Replay, Own, ReplayBook, Chronological;
    ReplayIsLocal(a, events);
    BeforePrepared(events, t, |a.books|);
    forall p: nat | p < |a.books|
      ensures OwnBook(a, Before(events, t), p).Some?
      ensures OwnBook(a, Before(events, t), p) == ReplayBook(a.books[p], Before(Own(events, p), t))
    {
      assert OwnBook(a, events, p).Some?;
      OwnBefore(events, p, t);
      BeforeIsPrefix(Own(events, p), t);
      ReplayBookPrefix(a.books[p], Own(events, p), PrefixCount(Own(events, p), t));
    }
    ReplayIsLocal(a, Before(events, t));
    assert AgreesWithOwn(a, Before(events, t), q);
    NoOwnHolds(a.books[q]);
  }

  lemma NoOwnHolds(book: Book)
    ensures ReplayBook(book, []) == Some(book)
  {
  }

  /** In a ledger whose timestamps never decrease it is the position the index finds. */
  lemma PulseIsIndexed(a: Account, events: seq<Event>, q: nat, t: int)
    requires AllPrepared(events, |a.books|) && Replay(a, events).Success? && q < |a.books| && Chronological(events)
    ensures PulseAt(a, events, Some(q), t) == IndexedAt(a, events, q, t)
  {
    hide Replay, Own, PulseAt, PositionAsof;
    forall p: nat | p < |a.books| ensures Chronological(Own(events, p)) { OwnIsChronological(events, p); }
    PulseIsAsof(a, events, q, t);
    SilentHasNoOwn(events, q, t);
    if Before(Own(events, q), t) == [] { NoOwnIsZero(a, events, q, t); }
  }

  lemma NoOwnIsZero(a: Account, events: seq<Event>, q: nat, t: int)
    requires q < |a.books| && Before(Own(events, q), t) == []
    ensures PulseAt(a, events, Some(q), t) == 0.0
  {
  }

  lemma OwnIsChronological(events: seq<Event>, q: nat)
    requires Chronological(events)
    ensures Chronological(Own(events, q))
  {
    RowsPickOwn(events, q, |events|);
    assert events[..|events|] == events;
  }

  lemma SilentHasNoOwn(events: seq<Event>, q: nat, t: int)
    requires Chronological(events)
    ensures Before(Own(events, q), t) == [] <==> Silent(events, q, PrefixCount(events, t))
  {
    var k := PrefixCount(events, t);
    OwnBefore(events, q, t);
    BeforeIsPrefix(events, t);
    FilterMembers(events[..k], (e: Event) => Reports(e, q));
    if Own(events[..k], q) != [] {
      assert Own(events[..k], q)[0] in Own(events[..k], q);
      var j :| 0 <= j < k && events[..k][j] == Own(events[..k], q)[0];
      assert Reports(events[j], q);
    }
    if !Silent(events, q, k) {
      var j :| 0 <= j < k && Reports(events[j], q);
      assert events[..k][j] in events[..k];
    }
  }

  /** The kept position of the last own event at or before a time. */
  function AtPulse(events: seq<Event>, marks: seq<Mark>, q: nat, t: int): real
    requires Marked(events, marks) && Chronological(Picked(events, RowsOfInstrument(events, q, |events|)))
  {
    var rows := RowsOfInstrument(events, q, |events|);
    var at := PrefixCount(Picked(events, rows), t);
    if at > 0 then marks[rows[at - 1]].position.value else 0.0
  }

  /** The position kept for one of the instrument's own rows is that of its events up to it. */
  lemma LastRowHolds(a: Account, events: seq<Event>, q: nat, at: nat)
    requires AllPrepared(events, |a.books|) && Replay(a, events).Success? && q < |a.books|
    requires at < |RowsOfInstrument(events, q, |events|)|
    ensures at < |Own(events, q)| && ReplayBook(a.books[q], Own(events, q)[..at + 1]).Some?
    ensures Replay(a, events).value.marks[RowsOfInstrument(events, q, |events|)[at]].position
         == Some(ReplayBook(a.books[q], Own(events, q)[..at + 1]).value.net)
  {
    hide Replay, Own, ReplayBook, RowsOfInstrument, Target;
    var i := RowsOfInstrument(events, q, |events|)[at];
    assert Reports(events[i], q);
    MarkIsPrefix(a, events, i);
    OwnUpToRow(events, q, at);
    ReplayIsLocal(a, events[..i + 1]);
    assert AgreesWithOwn(a, events[..i + 1], q);
  }

  lemma AtPulseIsOwn(a: Account, events: seq<Event>, q: nat, t: int)
    requires AllPrepared(events, |a.books|) && Replay(a, events).Success? && q < |a.books|
    requires Chronological(Picked(events, RowsOfInstrument(events, q, |events|)))
    ensures Marked(events, Replay(a, events).value.marks)
    ensures AtPulse(events, Replay(a, events).value.marks, q, t) == PulseAt(a, events, Some(q), t)
  {
    hide Replay, Own, ReplayBook, RowsOfInstrument, Target, AllPrepared, Marked;
    ReplayIsMarked(a, events);
    var rows := RowsOfInstrument(events, q, |events|);
    var own := Picked(events, rows);
    RowsPickOwn(events, q, |events|);
    assert events[..|events|] == events;
    BeforeIsPrefix(own, t);
    var at := PrefixCount(own, t);
    if at > 0 { LastRowHolds(a, events, q, at - 1); }
  }

  ghost predicate IsPulseRow(a: Account, events: seq<Event>, inst: Option<nat>, pulses: seq<int>, row: seq<real>)
    requires inst.Some? ==> inst.value < |a.books|
  {
    |row| == |pulses| && forall p :: 0 <= p < |row| ==> row[p] == PulseAt(a, events, inst, pulses[p])
  }

  /** One row: a search in the instrument's own timestamps for every pulse. */
  method PulseRow(ghost a: Account, events: seq<Event>, marks: seq<Mark>, q: nat, pulses: seq<int>)
    returns (row: Option<seq<real>>)
    requires AllPrepared(events, |a.books|) && Replay(a, events).Success? && marks == Replay(a, events).value.marks
    requires q < |a.books|
    ensures row.None? <==> !Chronological(Own(events, q))
    ensures row.Some? ==> IsPulseRow(a, events, Some(q), pulses, row.value)
  {
    hide Replay, PulseAt, AtPulse, Own, RowsOfInstrument;
    ReplayIsMarked(a, events);
    RowsPickOwn(events, q, |events|);
    assert events[..|events|] == events;
    if !Chronological(Picked(events, RowsOfInstrument(events, q, |events|))) { return None; }
    var found := [];
    for p := 0 to |pulses|
      invariant |found| == p && forall i :: 0 <= i < p ==> found[i] == PulseAt(a, events, Some(q), pulses[i])
    {
      AtPulseIsOwn(a, events, q, pulses[p]);
      found := found + [AtPulse(events, marks, q, pulses[p])];
    }
    row := Some(found);
  }

  /** The search of this instrument's row stops: its own timestamps decrease. */
  predicate StopsRow(events: seq<Event>, inst: Option<nat>) { inst.Some? && !Chronological(Own(events, inst.value)) }

  /** `positions_at_pulses`: the matrix, a row at a time; nothing when the timestamps of a
      requested instrument's own events decrease. */
  method PositionsAtPulses(ghost a: Account, events: seq<Event>, marks: seq<Mark>, insts: seq<Option<nat>>,
                           pulses: seq<int>)
    returns (out: Option<seq<seq<real>>>)
    requires AllPrepared(events, |a.books|) && Replay(a, events).Success? && marks == Replay(a, events).value.marks
    requires forall j :: 0 <= j < |insts| && insts[j].Some? ==> insts[j].value < |a.books|
    ensures out.None? <==> exists j :: 0 <= j < |insts| && StopsRow(events, insts[j])
    ensures out.Some? ==> |out.value| == |insts|
    ensures out.Some? ==> forall j :: 0 <= j < |insts| ==> IsPulseRow(a, events, insts[j], pulses, out.value[j])
  {
    hide Replay, PulseAt, Own;
    var blank := seq(|pulses|, _ => 0.0);
    UnknownRow(a, events, pulses, blank);
    var rows := [];
    for j := 0 to |insts|
      invariant |rows| == j && forall i :: 0 <= i < j ==> !StopsRow(events, insts[i])
      invariant forall i :: 0 <= i < j ==> IsPulseRow(a, events, insts[i], pulses, rows[i])
    {
      match insts[j]
      case None => rows := rows + [blank];
      case Some(q) =>
        var row := PulseRow(a, events, marks, q, pulses);
        if row.None? { return None; }
        rows := rows + [row.value];
    }
    out := Some(rows);
  }

  lemma UnknownRow(a: Account, events: seq<Event>, pulses: seq<int>, row: seq<real>)
    requires |row| == |pulses| && forall p :: 0 <= p < |row| ==> row[p] == 0.0
    ensures IsPulseRow(a, events, None, pulses, row)
  {
  }
}
