/** Replaying the accounting ledger: fills, cash flows, opening positions and dispositions
    in event order, with the running values kept for each event. */
module AccountingReplay {
  import opened Wrappers
  import opened SpotFifo
  import opened SpotKernel
  import opened LotCells
  import opened LotStore

  /** A ledger event, with the cash delta recorded on it. */
  datatype Event =
    | FillEvent(ts: int, inst: nat, cashDelta: real, side: Side, qty: real, price: real, fee: real)
    | CashEvent(ts: int, target: Option<nat>, cashDelta: real)
    | OpeningEvent(ts: int, inst: nat, cashDelta: real, qty: real, costBasis: real)
    | DispositionEvent(ts: int, inst: nat, cashDelta: real, before: real, quantity: real, mark: real, modelPnl: real)

  /** The instrument whose position an event reports, if any. */
  function Target(e: Event): Option<nat> {
    if e.CashEvent? then e.target else Some(e.inst)
  }

  /** What event preparation lets through. */
  predicate Prepared(e: Event, count: nat) {
    && (Target(e).Some? ==> Target(e).value < count)
    && match e
       case FillEvent(_, _, _, _, qty, price, fee) => qty > 0.0 && price > 0.0 && fee >= 0.0
       case CashEvent(_, _, _) => true
       case OpeningEvent(_, _, _, _, _) => true
       case DispositionEvent(_, _, cashDelta, before, quantity, mark, _) =>
         quantity > 0.0 && mark >= 0.0 && cashDelta == before * mark
  }

  datatype Refused = BlockedByZeroLot | MalformedDisposition | PositionRemains | PnlMismatch

  function DispositionSide(before: real): Side { if before > 0.0 then Sell else Buy }

  /** `all.equal` on two numbers: relative to the first unless it is within the tolerance. */
  predicate NearlyEqual(target: real, current: real, tol: real)
    requires tol > 0.0
  {
    var gap := Abs(target - current);
    target == current || (if Abs(target) > tol then gap / Abs(target) else gap) <= tol
  }

  function OpenLot(book: Book, qty: real, costBasis: real): Book {
    Book(book.lots + [Lot(qty, costBasis)], book.net + qty, book.basis + qty * costBasis)
  }

  const NO_LEG: Leg := Leg(0.0, 0.0, 0.0, 0.0)

  /** What one event did: the account after it and, for fills and dispositions, its leg. */
  datatype Outcome = Outcome(account: Account, leg: Leg)

  function BookFill(a: Account, inst: nat, side: Side, qty: real, price: real, fee: real): Result<Outcome, Refused>
    requires inst < |a.books|
  {
    if Blocked(Closed(a.books[inst], side, qty, price)) then Failure(BlockedByZeroLot)
    else
      var e := ApplyFill(a.books[inst], side, qty, price);
      Success(Outcome(Settle(a, inst, e, fee), LegOf(e, fee)))
  }

  /** A disposition sells the whole position at the mark and must leave nothing behind. */
  function Dispose(a: Account, inst: nat, before: real, quantity: real, mark: real,
                   modelPnl: real): Result<Outcome, Refused>
    requires inst < |a.books|
  {
    if before == 0.0 || Abs(before) != quantity || mark < 0.0 then Failure(MalformedDisposition)
    else
      var out := BookFill(a, inst, DispositionSide(before), quantity, mark, 0.0);
      if out.Failure? then out
      else if out.value.account.books[inst].net != 0.0 || out.value.account.books[inst].lots != []
      then Failure(PositionRemains)
      else
        var delta := out.value.leg.realizedDelta;
        DustPositive(delta, delta, delta, delta);
        if !NearlyEqual(delta, modelPnl, Dust(delta, delta, delta, delta)) then Failure(PnlMismatch) else out
  }

  /** The stated profit lies within the tolerance of the realized one, on either side: within
      it as it is, or scaled by the realized profit when that is larger than the tolerance. */
  lemma NearlyEqualMeans(target: real, current: real, tol: real)
    requires tol > 0.0
    ensures var width := tol * (if Abs(target) > tol then Abs(target) else 1.0);
      NearlyEqual(target, current, tol) <==> target - width <= current <= target + width
  {
    var gap := Abs(target - current);
    if Abs(target) > tol {
      assert gap / Abs(target) <= tol <==> gap <= tol * Abs(target) by {
        assert gap / Abs(target) * Abs(target) == gap;
        QuotientAtMost(gap, Abs(target), tol);
      }
    }
    if target == current { assert tol * (if Abs(target) > tol then Abs(target) else 1.0) >= 0.0; }
  }

  lemma QuotientAtMost(x: real, y: real, z: real)
    requires y > 0.0
    ensures x / y <= z <==> x <= z * y
  {
    assert x / y * y == x;
    if x / y <= z { assert (z - x / y) * y >= 0.0; }
    if x / y > z { assert (x / y - z) * y > 0.0; }
  }

  /** A disposition is accepted exactly when it sells the position it states, at a price not
      below zero, leaves neither lots nor a net, and states the profit it realizes. */
  lemma DisposeAccepts(a: Account, inst: nat, before: real, quantity: real, mark: real, modelPnl: real)
    requires inst < |a.books|
    ensures var side := if before > 0.0 then Sell else Buy;
      var e := ApplyFill(a.books[inst], side, quantity, mark);
      var tol := Dust(e.realized, e.realized, e.realized, e.realized);
      var width := tol * (if Abs(e.realized) > tol then Abs(e.realized) else 1.0);
      Dispose(a, inst, before, quantity, mark, modelPnl).Success? <==>
        && (before == quantity > 0.0 || (before == -quantity < 0.0)) && mark >= 0.0
        && !Blocked(Closed(a.books[inst], side, quantity, mark)) && e.book.lots == [] && e.book.net == 0.0
        && e.realized - width <= modelPnl <= e.realized + width
  {
    hide ApplyFill, Closed, Dust, NearlyEqual, Blocked;
    var side := if before > 0.0 then Sell else Buy;
    var delta := ApplyFill(a.books[inst], side, quantity, mark).realized;
    assert delta - 0.0 == delta;
    DustPositive(delta, delta, delta, delta);
    NearlyEqualMeans(delta, modelPnl, Dust(delta, delta, delta, delta));
  }

  function BookOpening(a: Account, inst: nat, qty: real, costBasis: real): Account
    requires inst < |a.books|
  {
    if qty == 0.0 then a
    else
      var book := OpenLot(a.books[inst], qty, costBasis);
      a.(books := a.books[inst := book], total := a.total - a.books[inst].basis + book.basis)
  }

  /** One event's effect on the lots. */
  function BookEvent(a: Account, e: Event): Result<Outcome, Refused>
    requires Prepared(e, |a.books|)
  {
    match e
    case FillEvent(_, inst, _, side, qty, price, fee) => BookFill(a, inst, side, qty, price, fee)
    case CashEvent(_, _, _) => Success(Outcome(a, NO_LEG))
    case OpeningEvent(_, inst, _, qty, costBasis) => Success(Outcome(BookOpening(a, inst, qty, costBasis), NO_LEG))
    case DispositionEvent(_, inst, _, before, quantity, mark, modelPnl) =>
      Dispose(a, inst, before, quantity, mark, modelPnl)
  }

  /** One event in full: its recorded cash delta and its effect on the lots. */
  function ApplyEvent(a: Account, e: Event): (r: Result<Outcome, Refused>)
    requires Prepared(e, |a.books|)
    ensures r.Success? ==> |r.value.account.books| == |a.books|
  {
    BookEvent(a.(cash := a.cash + e.cashDelta), e)
  }

  /** The values replay keeps for an event. */
  datatype Mark = Mark(cash: real, position: Option<real>, realized: real, basis: real, leg: Leg)

  function MarkOf(o: Outcome, e: Event): Mark
    requires Prepared(e, |o.account.books|)
  {
    Mark(o.account.cash, if Target(e).None? then None else Some(o.account.books[Target(e).value].net),
         o.account.realized, o.account.total, o.leg)
  }

  datatype History = History(account: Account, marks: seq<Mark>)

  ghost predicate AllPrepared(events: seq<Event>, count: nat) {
    forall i :: 0 <= i < |events| ==> Prepared(events[i], count)
  }

  /** The whole replay, event by event. */
  function Replay(a: Account, events: seq<Event>): (r: Result<History, Refused>)
    requires AllPrepared(events, |a.books|)
    ensures r.Success? ==> |r.value.account.books| == |a.books| && |r.value.marks| == |events|
  {
    if events == [] then Success(History(a, []))
    else
      var n := |events| - 1;
      var before := Replay(a, events[..n]);
      if before.Failure? then before
      else
        var out := ApplyEvent(before.value.account, events[n]);
        if out.Failure? then Failure(out.error)
        else Success(History(out.value.account, before.value.marks + [MarkOf(out.value, events[n])]))
  }

  // ---- prefixes ------------------------------------------------------------------------

  lemma ReplaySnoc(a: Account, events: seq<Event>, k: nat)
    requires AllPrepared(events, |a.books|) && k < |events|
    ensures var before, r := Replay(a, events[..k]), Replay(a, events[..k + 1]);
      if before.Failure? then r == before
      else
        var out := ApplyEvent(before.value.account, events[k]);
        r == if out.Failure? then Failure(out.error)
             else Success(History(out.value.account, before.value.marks + [MarkOf(out.value, events[k])]))
  {
    assert events[..k + 1][..k] == events[..k];
  }

  /** An accepted ledger's prefixes are accepted, and its marks are the prefixes' own. */
  lemma {:induction false} PrefixReplay(a: Account, events: seq<Event>, k: nat)
    requires AllPrepared(events, |a.books|) && Replay(a, events).Success? && k <= |events|
    ensures Replay(a, events[..k]).Success?
    ensures Replay(a, events[..k]).value.marks == Replay(a, events).value.marks[..k]
    decreases |events| - k
  {
    hide Replay, ApplyEvent, MarkOf, Prepared;
    var all := Replay(a, events).value.marks;
    if k == |events| {
      assert events[..k] == events;
      assert all[..k] == all;
    } else {
      PrefixReplay(a, events, k + 1);
      ReplaySnoc(a, events, k);
      var marks := Replay(a, events[..k]).value.marks;
      assert all[..k + 1][..k] == all[..k];
      assert marks == Replay(a, events[..k + 1]).value.marks[..k];
    }
  }

  /** So each kept value is what replaying the ledger up to that event gives. */
  lemma MarkIsPrefix(a: Account, events: seq<Event>, i: nat)
    requires AllPrepared(events, |a.books|) && Replay(a, events).Success? && i < |events|
    ensures Replay(a, events[..i + 1]).Success?
    ensures var mark, then' := Replay(a, events).value.marks[i], Replay(a, events[..i + 1]).value.account;
      && mark.cash == then'.cash && mark.realized == then'.realized && mark.basis == then'.total
      && (Target(events[i]).Some? ==> mark.position == Some(then'.books[Target(events[i]).value].net))
      && (Target(events[i]).None? ==> mark.position == None)
  {
    PrefixReplay(a, events, i + 1);
    PrefixReplay(a, events, i);
    ReplaySnoc(a, events, i);
    assert Replay(a, events).value.marks[i] == Replay(a, events[..i + 1]).value.marks[i];
  }

  /** An event leaves every other instrument's book alone. */
  lemma OthersUntouched(a: Account, e: Event, q: nat)
    requires Prepared(e, |a.books|) && q < |a.books| && Target(e) != Some(q) && ApplyEvent(a, e).Success?
    ensures ApplyEvent(a, e).value.account.books[q] == a.books[q]
  {
    hide ApplyFill, Closed, Dust;
  }

  /** Between two prefixes without an event of an instrument its book does not change. */
  lemma {:induction false} QuietStretch(a: Account, events: seq<Event>, q: nat, i: nat, k: nat)
    requires AllPrepared(events, |a.books|) && Replay(a, events).Success? && q < |a.books| && i <= k <= |events|
    requires forall j :: i <= j < k ==> Target(events[j]) != Some(q)
    ensures Replay(a, events[..i]).Success? && Replay(a, events[..k]).Success?
    ensures Replay(a, events[..k]).value.account.books[q] == Replay(a, events[..i]).value.account.books[q]
    decreases k - i
  {
    hide Replay, ApplyEvent, MarkOf, Prepared;
    PrefixReplay(a, events, i);
    PrefixReplay(a, events, k);
    if i < k {
      QuietStretch(a, events, q, i, k - 1);
      ReplaySnoc(a, events, k - 1);
      OthersUntouched(Replay(a, events[..k - 1]).value.account, events[k - 1], q);
    }
  }

  // ---- zero lots ---------------------------------------------------------------------------

  ghost predicate ZeroFree(a: Account) { forall i :: 0 <= i < |a.books| ==> NoZeroLot(a.books[i].lots) }

  lemma BookingStaysZeroFree(a: Account, inst: nat, side: Side, qty: real, price: real, fee: real)
    requires ZeroFree(a) && inst < |a.books|
    ensures BookFill(a, inst, side, qty, price, fee).Success?
    ensures ZeroFree(BookFill(a, inst, side, qty, price, fee).value.account)
  {
    hide ApplyFill, Closed, NoZeroLot;
    BlockedNeedsZeroLot(a.books[inst], side, qty, price);
    FillKeepsLots(a.books[inst], side, qty, price);
  }

  lemma EventStaysZeroFree(a: Account, e: Event)
    requires Prepared(e, |a.books|) && ZeroFree(a)
    ensures ApplyEvent(a, e).Failure? ==> ApplyEvent(a, e).error != BlockedByZeroLot
    ensures ApplyEvent(a, e).Success? ==> ZeroFree(ApplyEvent(a, e).value.account)
  {
    hide BookFill, Dust, NearlyEqual;
    var paid := a.(cash := a.cash + e.cashDelta);
    match e
    case FillEvent(_, inst, _, side, qty, price, fee) => BookingStaysZeroFree(paid, inst, side, qty, price, fee);
    case CashEvent(_, _, _) =>
    case OpeningEvent(_, _, _, _, _) =>
    case DispositionEvent(_, inst, _, before, quantity, mark, _) =>
      BookingStaysZeroFree(paid, inst, DispositionSide(before), quantity, mark, 0.0);
  }

  /** From any account without zero lots, of mixed signs or not, no ledger ever makes one, so
      replay never stops on one. */
  lemma {:induction false} NeverBlocked(a: Account, events: seq<Event>)
    requires AllPrepared(events, |a.books|) && ZeroFree(a)
    ensures Replay(a, events) != Failure(BlockedByZeroLot)
    ensures Replay(a, events).Success? ==> ZeroFree(Replay(a, events).value.account)
  {
    hide ApplyEvent, ZeroFree;
    if events != [] {
      var n := |events| - 1;
      NeverBlocked(a, events[..n]);
      if Replay(a, events[..n]).Success? { EventStaysZeroFree(Replay(a, events[..n]).value.account, events[n]); }
    }
  }

  // ---- conservation -----------------------------------------------------------------------

  /** What an event brings in from outside: cash and basis not exchanged for each other. */
  function Contribution(e: Event): real {
    match e
    case FillEvent(_, _, cashDelta, side, qty, price, fee) => cashDelta - CashDelta(side, qty, price, fee)
    case CashEvent(_, _, cashDelta) => cashDelta
    case OpeningEvent(_, _, cashDelta, qty, costBasis) => cashDelta + qty * costBasis
    case DispositionEvent(_, _, _, _, _, _, _) => 0.0
  }

  function EventDrift(a: Account, e: Event): real
    requires Prepared(e, |a.books|)
  {
    match e
    case FillEvent(_, inst, _, side, qty, price, _) => Drift(a.books[inst], side, qty, price)
    case DispositionEvent(_, inst, _, before, quantity, mark, _) =>
      Drift(a.books[inst], DispositionSide(before), quantity, mark)
    case _ => 0.0
  }

  lemma DispositionCash(before: real, quantity: real, mark: real)
    requires before != 0.0 && Abs(before) == quantity
    ensures before * mark == -Signed(DispositionSide(before), quantity * mark)
  {
  }

  /** Every kind of event conserves cash plus basis less realized profit, but for what it
      brings in and for dust. Fills whose recorded cash delta is the computed one, and
      dispositions, bring in nothing. */
  lemma EventConserves(a: Account, e: Event)
    requires Prepared(e, |a.books|) && ApplyEvent(a, e).Success?
    ensures Invested(ApplyEvent(a, e).value.account) == Invested(a) + Contribution(e) + EventDrift(a, e)
  {
    hide ApplyFill, Closed, Drift, CashDelta, Dust, Signed, Abs, DispositionSide;
    var paid := a.(cash := a.cash + e.cashDelta);
    match e
    case FillEvent(_, inst, _, side, qty, price, fee) =>
      CashSigned(side, qty, price, fee);
      SettleConserves(paid, inst, side, qty, price, fee);
    case CashEvent(_, _, _) =>
    case OpeningEvent(_, inst, _, qty, costBasis) =>
    case DispositionEvent(_, inst, _, before, quantity, mark, _) =>
      DispositionCash(before, quantity, mark);
      SettleConserves(paid, inst, DispositionSide(before), quantity, mark, 0.0);
  }

  function SumContributions(events: seq<Event>): real {
    if events == [] then 0.0 else SumContributions(events[..|events| - 1]) + Contribution(events[|events| - 1])
  }

  /** The dust of the whole replay. */
  function ReplayDrift(a: Account, events: seq<Event>): real
    requires AllPrepared(events, |a.books|)
  {
    if events == [] then 0.0
    else
      var n := |events| - 1;
      var before := Replay(a, events[..n]);
      ReplayDrift(a, events[..n]) + if before.Success? then EventDrift(before.value.account, events[n]) else 0.0
  }

  /** Over any accepted ledger, cash plus basis less realized profit is what it was, plus
      what came in from outside, up to dust. */
  lemma {:induction false} ReplayConserves(a: Account, events: seq<Event>)
    requires AllPrepared(events, |a.books|) && Replay(a, events).Success?
    ensures Invested(Replay(a, events).value.account)
         == Invested(a) + SumContributions(events) + ReplayDrift(a, events)
  {
    hide ApplyEvent, EventDrift, Contribution, Invested;
    if events != [] {
      var n := |events| - 1;
      ReplayConserves(a, events[..n]);
      EventConserves(Replay(a, events[..n]).value.account, events[n]);
    }
  }

  /** The limit on one event's dust. */
  function EventDriftLimit(a: Account, e: Event): real
    requires Prepared(e, |a.books|)
  {
    match e
    case FillEvent(_, inst, _, side, qty, price, _) => DriftLimit(a.books[inst], side, qty, price)
    case DispositionEvent(_, inst, _, before, quantity, mark, _) =>
      DriftLimit(a.books[inst], DispositionSide(before), quantity, mark)
    case _ => 0.0
  }

  function ReplayDriftLimit(a: Account, events: seq<Event>): real
    requires AllPrepared(events, |a.books|)
  {
    if events == [] then 0.0
    else
      var n := |events| - 1;
      var before := Replay(a, events[..n]);
      ReplayDriftLimit(a, events[..n])
      + if before.Success? then EventDriftLimit(before.value.account, events[n]) else 0.0
  }

  lemma EventDriftIsDust(a: Account, e: Event)
    requires Prepared(e, |a.books|)
    ensures Abs(EventDrift(a, e)) <= EventDriftLimit(a, e)
  {
    hide Drift, DriftLimit, Abs;
    ZeroAbs();
    match e
    case FillEvent(_, inst, _, side, qty, price, _) => DriftIsDust(a.books[inst], side, qty, price);
    case DispositionEvent(_, inst, _, before, quantity, mark, _) =>
      DriftIsDust(a.books[inst], DispositionSide(before), quantity, mark);
    case _ =>
  }

  /** The dust of a replay is no larger than one dust price and one tolerance for each fill
      and disposition. */
  lemma {:induction false} ReplayDriftIsDust(a: Account, events: seq<Event>)
    requires AllPrepared(events, |a.books|)
    ensures Abs(ReplayDrift(a, events)) <= ReplayDriftLimit(a, events)
  {
    hide EventDrift, EventDriftLimit, Abs;
    ZeroAbs();
    if events != [] {
      var n := |events| - 1;
      var before := Replay(a, events[..n]);
      ReplayDriftIsDust(a, events[..n]);
      if before.Success? {
        EventDriftIsDust(before.value.account, events[n]);
        AbsAdds(ReplayDrift(a, events[..n]), EventDrift(before.value.account, events[n]),
                ReplayDriftLimit(a, events[..n]), EventDriftLimit(before.value.account, events[n]));
      }
    }
  }
}
