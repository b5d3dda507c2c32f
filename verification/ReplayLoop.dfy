/** The replay loop over the ledger-side lot store, against the replay of AccountingReplay. */
module ReplayLoop {
  import opened Wrappers
  import opened SpotFifo
  import opened SpotKernel
  import opened LotCells
  import opened LotStore
  import opened AccountingReplay

  /** Cash and numbering play no part in booking a fill. */
  lemma SettleIgnoresCash(s: Store, cash: real, t: Store, inst: nat, e: Effect, fee: real)
    requires ValidStore(s) && ValidStore(t) && inst < |s.cells| && Ledger(t) == Settle(Ledger(s), inst, e, fee)
    ensures AccountOf(t, cash, 0) == Settle(AccountOf(s, cash, 0), inst, e, fee)
  {
  }

  method BookStoreFill(s: Store, inst: nat, side: Side, qty: real, price: real, fee: real, ghost cash: real)
    returns (r: Result<(Store, Leg), Refused>)
    requires ValidStore(s) && inst < |s.cells|
    ensures r.Success? ==> ValidStore(r.value.0) && |r.value.0.cells| == |s.cells|
    ensures BookFill(AccountOf(s, cash, 0), inst, side, qty, price, fee)
         == if r.Failure? then Failure(r.error) else Success(Outcome(AccountOf(r.value.0, cash, 0), r.value.1))
  {
    hide ApplyFill, Closed, Blocked, Settle, Live;
    var out := ApplyStoreFill(s, inst, side, qty, price, fee);
    if out.None? { return Failure(BlockedByZeroLot); }
    SettleIgnoresCash(s, cash, out.value.0, inst, ApplyFill(BooksOf(s)[inst], side, qty, price), fee);
    r := Success(out.value);
  }

  /** `ledgr_lot_apply_opening`. */
  method OpenInStore(s: Store, inst: nat, qty: real, costBasis: real, ghost cash: real) returns (t: Store)
    requires ValidStore(s) && inst < |s.cells|
    ensures ValidStore(t) && |t.cells| == |s.cells|
    ensures AccountOf(t, cash, 0) == BookOpening(AccountOf(s, cash, 0), inst, qty, costBasis)
  {
    hide Live, Append;
    if qty == 0.0 { return s; }
    var cells := Append(s.cells[inst], Lot(qty, costBasis));
    var basis := s.basis[inst] + qty * costBasis;
    var net := s.net[inst] + qty;
    t := s.(cells := s.cells[inst := cells], net := s.net[inst := net], basis := s.basis[inst := basis],
            total := s.total - s.basis[inst] + basis);
    BooksUpdate(s, inst, cells, net, basis, t);
  }

  /** `ledgr_lot_apply_event` for a disposition. */
  method DisposeInStore(s: Store, inst: nat, before: real, quantity: real, mark: real, modelPnl: real, ghost cash: real)
    returns (r: Result<(Store, Leg), Refused>)
    requires ValidStore(s) && inst < |s.cells|
    ensures r.Success? ==> ValidStore(r.value.0) && |r.value.0.cells| == |s.cells|
    ensures Dispose(AccountOf(s, cash, 0), inst, before, quantity, mark, modelPnl)
         == if r.Failure? then Failure(r.error) else Success(Outcome(AccountOf(r.value.0, cash, 0), r.value.1))
  {
    hide BookFill, Live, NearlyEqual;
    if before == 0.0 || Abs(before) != quantity || mark < 0.0 { return Failure(MalformedDisposition); }
    var out := BookStoreFill(s, inst, DispositionSide(before), quantity, mark, 0.0, cash);
    if out.Failure? { return out; }
    var after, delta := out.value.0, out.value.1.realizedDelta;
    if after.net[inst] != 0.0 || LiveCount(after.cells[inst]) != 0 { return Failure(PositionRemains); }
    var tol := Dust(delta, delta, delta, delta);
    DustPositive(delta, delta, delta, delta);
    if !NearlyEqual(delta, modelPnl, tol) { return Failure(PnlMismatch); }
    r := out;
  }

  method BookStoreEvent(s: Store, e: Event, ghost cash: real) returns (r: Result<(Store, Leg), Refused>)
    requires ValidStore(s) && Prepared(e, |s.cells|)
    ensures r.Success? ==> ValidStore(r.value.0) && |r.value.0.cells| == |s.cells|
    ensures BookEvent(AccountOf(s, cash, 0), e)
         == if r.Failure? then Failure(r.error) else Success(Outcome(AccountOf(r.value.0, cash, 0), r.value.1))
  {
    hide BookFill, Dispose, BookOpening, Live;
    match e
    case FillEvent(_, inst, _, side, qty, price, fee) =>
      r := BookStoreFill(s, inst, side, qty, price, fee, cash);
    case CashEvent(_, _, _) =>
      r := Success((s, NO_LEG));
    case OpeningEvent(_, inst, _, qty, costBasis) =>
      var t := OpenInStore(s, inst, qty, costBasis, cash);
      r := Success((t, NO_LEG));
    case DispositionEvent(_, inst, _, before, quantity, mark, modelPnl) =>
      r := DisposeInStore(s, inst, before, quantity, mark, modelPnl, cash);
  }

  datatype Replayed = Replayed(store: Store, cash: real, positions: seq<real>, marks: seq<Mark>)

  /** Some event up to `k` reported this instrument. */
  ghost predicate Touched(events: seq<Event>, k: nat, q: nat) {
    exists i :: 0 <= i < k && i < |events| && Target(events[i]) == Some(q)
  }

  /** A reported instrument shows its net; any other keeps its initial position. */
  ghost predicate PositionsFollow(initial: seq<real>, books: seq<Book>, events: seq<Event>, k: nat,
                                  positions: seq<real>) {
    && |positions| == |books| == |initial|
    && forall q :: 0 <= q < |positions| ==>
         positions[q] == if Touched(events, k, q) then books[q].net else initial[q]
  }

  lemma FollowStep(initial: seq<real>, a: Account, events: seq<Event>, k: nat, positions: seq<real>, next: seq<real>)
    requires k < |events| && Prepared(events[k], |a.books|) && PositionsFollow(initial, a.books, events, k, positions)
    requires ApplyEvent(a, events[k]).Success?
    requires next == match Target(events[k])
      case None => positions
      case Some(q) => positions[q := ApplyEvent(a, events[k]).value.account.books[q].net]
    ensures PositionsFollow(initial, ApplyEvent(a, events[k]).value.account.books, events, k + 1, next)
  {
    hide ApplyEvent;
    forall q: nat | q < |next|
      ensures next[q]
           == if Touched(events, k + 1, q) then ApplyEvent(a, events[k]).value.account.books[q].net else initial[q]
    {
      if Target(events[k]) != Some(q) {
        OthersUntouched(a, events[k], q);
        assert Touched(events, k + 1, q) <==> Touched(events, k, q);
      }
    }
  }

  /** `ledgr_replay_accounting_events`. */
  method ReplayEvents(start: Store, initialCash: real, initialPositions: seq<real>, events: seq<Event>)
    returns (r: Result<Replayed, Refused>)
    requires ValidStore(start) && |initialPositions| == |start.cells| && AllPrepared(events, |start.cells|)
    ensures var spec := Replay(AccountOf(start, initialCash, 0), events);
      match r
      case Failure(refused) => spec == Failure(refused)
      case Success(out) =>
        && ValidStore(out.store) && spec == Success(History(AccountOf(out.store, out.cash, 0), out.marks))
        && PositionsFollow(initialPositions, BooksOf(out.store), events, |events|, out.positions)
  {
    hide ApplyEvent, Live;
    var store, cash, positions, marks := start, initialCash, initialPositions, [];
    ghost var a := AccountOf(start, initialCash, 0);
    for i := 0 to |events|
      invariant ValidStore(store) && |store.cells| == |start.cells|
      invariant Replay(a, events[..i]) == Success(History(AccountOf(store, cash, 0), marks))
      invariant PositionsFollow(initialPositions, BooksOf(store), events, i, positions)
    {
      ghost var before := AccountOf(store, cash, 0);
      var e := events[i];
      cash := cash + e.cashDelta;
      var out := StepStore(store, e, before, cash);
      ReplaySnoc(a, events, i);
      if out.Failure? {
        Stops(a, events, i);
        return Failure(out.error);
      }
      store := out.value.0;
      var position: Option<real> := None;
      ghost var reported := positions;
      if Target(e).Some? {
        positions := positions[Target(e).value := store.net[Target(e).value]];
        position := Some(positions[Target(e).value]);
      }
      FollowStep(initialPositions, before, events, i, reported, positions);
      marks := marks + [Mark(cash, position, store.realized, store.total, out.value.1)];
    }
    assert events[..|events|] == events;
    r := Success(Replayed(store, cash, positions, marks));
  }

  method StepStore(s: Store, e: Event, ghost before: Account, cash: real) returns (r: Result<(Store, Leg), Refused>)
    requires ValidStore(s) && Prepared(e, |s.cells|)
    requires before == AccountOf(s, before.cash, 0) && cash == before.cash + e.cashDelta
    ensures r.Success? ==> ValidStore(r.value.0) && |r.value.0.cells| == |s.cells|
    ensures ApplyEvent(before, e)
         == if r.Failure? then Failure(r.error) else Success(Outcome(AccountOf(r.value.0, cash, 0), r.value.1))
  {
    hide BookEvent, Live;
    r := BookStoreEvent(s, e, cash);
  }

  /** A refused prefix refuses the ledger. */
  lemma {:induction false} Stops(a: Account, events: seq<Event>, k: nat)
    requires AllPrepared(events, |a.books|) && k < |events| && Replay(a, events[..k + 1]).Failure?
    ensures Replay(a, events) == Replay(a, events[..k + 1])
    decreases |events| - k
  {
    hide ApplyEvent;
    if k + 1 == |events| {
      assert events[..k + 1] == events;
    } else {
      ReplaySnoc(a, events, k + 1);
      Stops(a, events, k + 1);
    }
  }
}
