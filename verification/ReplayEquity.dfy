/** Equity at each pulse from one replay: cash plus positions at their closes, and how it
    splits into opening cash, realized and unrealized profit. */
module ReplayEquity {
  import opened Wrappers
  import opened SpotFifo
  import opened SpotBasis
  import opened SpotKernel
  import opened AccountingReplay
  import opened PositionIndex
  import opened PulseMatrix
  import opened ReplayGuards

  datatype EquityRow = EquityRow(cash: real, positionsValue: real, equity: real, realized: real, unrealized: real)

  /** One column of `positions * close`, summed. */
  function MarketValue(positions: seq<real>, closes: seq<real>): real
    requires |positions| == |closes|
  {
    if positions == [] then 0.0
    else
      var n := |positions| - 1;
      MarketValue(positions[..n], closes[..n]) + positions[n] * closes[n]
  }

  /** A pulse's row: the values kept at the last event at or before it. */
  function EquityAt(events: seq<Event>, marks: seq<Mark>, initialCash: real, t: int, positions: seq<real>,
                    closes: seq<real>)
    : EquityRow
    requires Chronological(events) && |marks| == |events| && |positions| == |closes|
  {
    var at := PrefixCount(events, t);
    var cash := if at > 0 then marks[at - 1].cash else initialCash;
    var realized := if at > 0 then marks[at - 1].realized else 0.0;
    var basis := if at > 0 then marks[at - 1].basis else 0.0;
    var value := MarketValue(positions, closes);
    EquityRow(cash, value, cash + value, realized, value - basis)
  }

  /** A flat start: no basis, no realized profit, nothing held. */
  predicate OpenedFlat(a: Account) {
    Flat(a) && a.total == 0.0 && a.realized == 0.0 && a.comp == 0.0
  }

  lemma SettleCompensates(a: Account, inst: nat, e: Effect, fee: real)
    requires inst < |a.books|
    ensures Settle(a, inst, e, fee).comp == 0.0
  {
  }

  lemma EventKeepsComp(a: Account, e: Event)
    requires Prepared(e, |a.books|) && ApplyEvent(a, e).Success? && a.comp == 0.0
    ensures ApplyEvent(a, e).value.account.comp == 0.0
  {
    hide ApplyFill, Closed, Dust, Settle;
    if e.FillEvent? || e.DispositionEvent? {
      var side := if e.FillEvent? then e.side else DispositionSide(e.before);
      var qty := if e.FillEvent? then e.qty else e.quantity;
      var price := if e.FillEvent? then e.price else e.mark;
      SettleCompensates(a.(cash := a.cash + e.cashDelta), e.inst, ApplyFill(a.books[e.inst], side, qty, price),
                        if e.FillEvent? then e.fee else 0.0);
    }
  }

  /** In exact arithmetic nothing is ever left to compensate. */
  lemma {:induction false} ReplayKeepsComp(a: Account, events: seq<Event>)
    requires AllPrepared(events, |a.books|) && Replay(a, events).Success? && a.comp == 0.0
    ensures Replay(a, events).value.account.comp == 0.0
  {
    hide ApplyEvent;
    if events != [] {
      ReplayKeepsComp(a, events[..|events| - 1]);
      EventKeepsComp(Replay(a, events[..|events| - 1]).value.account, events[|events| - 1]);
    }
  }

  /** At every pulse of a ledger opened flat, equity is opening cash, what came in from
      outside by then, realized and unrealized profit, up to the replay's dust. */
  lemma EquitySplits(a: Account, events: seq<Event>, t: int, positions: seq<real>, closes: seq<real>)
    requires AllPrepared(events, |a.books|) && Replay(a, events).Success? && OpenedFlat(a)
    requires Chronological(events) && |positions| == |closes|
    ensures var row := EquityAt(events, Replay(a, events).value.marks, a.cash, t, positions, closes);
      var seen := Before(events, t);
      && AllPrepared(seen, |a.books|)
      && row.equity == a.cash + SumContributions(seen) + ReplayDrift(a, seen) + row.realized + row.unrealized
  {
    hide Replay, ReplayDrift, SumContributions, MarketValue;
    var k := PrefixCount(events, t);
    BeforeIsPrefix(events, t);
    if k > 0 {
      MarkIsPrefix(a, events, k - 1);
      ReplayConserves(a, events[..k]);
      ReplayKeepsComp(a, events[..k]);
    } else {
      NothingYet(a, events);
    }
  }

  /** A pulse's row holds the cash and the realized profit the replay has reached by then, values
      the positions at the closes, and takes as unrealized what that is above the basis. */
  lemma RowIsAsof(a: Account, events: seq<Event>, t: int, positions: seq<real>, closes: seq<real>)
    requires AllPrepared(events, |a.books|) && Replay(a, events).Success? && OpenedFlat(a)
    requires Chronological(events) && |positions| == |closes|
    ensures ReplayAsof(a, events, t).Success?
    ensures var row := EquityAt(events, Replay(a, events).value.marks, a.cash, t, positions, closes);
      var now := ReplayAsof(a, events, t).value.account;
      && row.cash == now.cash && row.realized == now.realized
      && row.positionsValue == MarketValue(positions, closes)
      && row.equity == row.cash + row.positionsValue && row.positionsValue == now.total + row.unrealized
  {
    hide Replay, MarketValue;
    var k := PrefixCount(events, t);
    BeforeIsPrefix(events, t);
    PrefixReplay(a, events, k);
    if k > 0 { MarkIsPrefix(a, events, k - 1); } else { NoEvents(a, events[..0]); }
  }

  lemma NothingYet(a: Account, events: seq<Event>)
    ensures SumContributions(events[..0]) == 0.0 && ReplayDrift(a, events[..0]) == 0.0
  {
  }

  // ---- the identity ------------------------------------------------------------------------

  /** Event `e` brings nothing in from outside. */
  predicate SelfFinanced(e: Event) { Contribution(e) == 0.0 }

  /** A fill at its computed cash delta or a disposition does so. */
  lemma TradesAreSelfFinanced(e: Event)
    ensures e.FillEvent? ==> (SelfFinanced(e) <==> e.cashDelta == CashDelta(e.side, e.qty, e.price, e.fee))
    ensures e.DispositionEvent? ==> SelfFinanced(e)
  {
    hide CashDelta;
  }

  lemma {:induction false} NothingBroughtIn(events: seq<Event>)
    requires forall i :: 0 <= i < |events| ==> SelfFinanced(events[i])
    ensures SumContributions(events) == 0.0
  {
    hide Contribution;
    if events != [] {
      NothingBroughtIn(events[..|events| - 1]);
      assert SelfFinanced(events[|events| - 1]);
    }
  }

  /** The identity the results promise: for a ledger opened flat whose events by the pulse bring
      nothing in, equity is opening cash plus realized plus unrealized profit if and only if the
      dust left by then cancels out; in particular when every event by then balances cash. */
  lemma EquityIdentity(a: Account, events: seq<Event>, t: int, positions: seq<real>, closes: seq<real>)
    requires AllPrepared(events, |a.books|) && Replay(a, events).Success? && OpenedFlat(a)
    requires Chronological(events) && |positions| == |closes|
    requires forall i :: 0 <= i < PrefixCount(events, t) ==> SelfFinanced(events[i])
    ensures var row := EquityAt(events, Replay(a, events).value.marks, a.cash, t, positions, closes);
      var seen := events[..PrefixCount(events, t)];
      && (row.equity == a.cash + row.realized + row.unrealized <==> ReplayDrift(a, seen) == 0.0)
      && (CashGuards(a, seen) ==> row.equity == a.cash + row.realized + row.unrealized)
  {
    hide Replay, ReplayDrift, SumContributions, EquityAt, CashGuardAt, SelfFinanced;
    var k := PrefixCount(events, t);
    EquitySplits(a, events, t, positions, closes);
    BeforeIsPrefix(events, t);
    PrefixReplay(a, events, k);
    NothingBroughtIn(events[..k]);
    if CashGuards(a, events[..k]) {
      GuardedLeavesNoDust(a, events[..k], k);
      assert events[..k][..k] == events[..k];
    }
  }

  // ---- unrealized profit is the mark-to-market of the live lots ------------------------------------

  /** What the live lots would gain if closed at this price. */
  function LotsGain(lots: seq<Lot>, close: real): real {
    if lots == [] then 0.0 else lots[0].qty * (close - lots[0].price) + LotsGain(lots[1..], close)
  }

  function BooksGain(books: seq<Book>, closes: seq<real>): real
    requires |books| == |closes|
  {
    if books == [] then 0.0
    else
      var n := |books| - 1;
      BooksGain(books[..n], closes[..n]) + LotsGain(books[n].lots, closes[n])
  }

  lemma GainTerm(qty: real, sum: real, close: real, price: real)
    ensures (qty + sum) * close - qty * price == qty * (close - price) + sum * close
  {
  }

  lemma {:induction false} LotsGainIs(lots: seq<Lot>, close: real)
    ensures SumQty(lots) * close - LotsValue(lots) == LotsGain(lots, close)
  {
    if lots != [] {
      LotsGainIs(lots[1..], close);
      GainTerm(lots[0].qty, SumQty(lots[1..]), close, lots[0].price);
    }
  }

  function Nets(books: seq<Book>): (nets: seq<real>)
    ensures |nets| == |books| && forall i :: 0 <= i < |nets| ==> nets[i] == books[i].net
  {
    seq(|books|, i requires 0 <= i < |books| => books[i].net)
  }

  lemma {:induction false} SumBasisSnoc(books: seq<Book>, n: nat)
    requires n + 1 == |books|
    ensures SumBasis(books) == SumBasis(books[..n]) + books[n].basis
    decreases n
  {
    if n > 0 {
      SumBasisSnoc(books[1..], n - 1);
      assert books[1..][..n - 1] == books[..n][1..];
    }
  }

  /** How far the books' basis is from the value of their lots. */
  function SumGaps(books: seq<Book>): real {
    if books == [] then 0.0 else SumGaps(books[..|books| - 1]) + Gap(books[|books| - 1])
  }

  lemma {:induction false} NoGapsSum(books: seq<Book>)
    requires NoGap(books)
    ensures SumGaps(books) == 0.0
  {
    hide Gap;
    if books != [] { NoGapsSum(books[..|books| - 1]); }
  }

  lemma {:induction false} ValueLessBasis(books: seq<Book>, closes: seq<real>)
    requires |books| == |closes| && forall i :: 0 <= i < |books| ==> Summed(books[i])
    ensures MarketValue(Nets(books), closes) - SumBasis(books) == BooksGain(books, closes) - SumGaps(books)
  {
    hide LotsValue, SumQty, LotsGain;
    if books != [] {
      var n := |books| - 1;
      ValueLessBasis(books[..n], closes[..n]);
      assert Nets(books)[..n] == Nets(books[..n]);
      SumBasisSnoc(books, n);
      LotsGainIs(books[n].lots, closes[n]);
      assert Summed(books[n]);
    }
  }

  /** At a pulse, valuing the positions as of it, the unrealized profit is what the live lots
      would gain if closed at the pulse's prices, if and only if the gaps between basis and lot
      value cancel out; in particular when every event by then kept its lots' basis. */
  lemma UnrealizedMarksLots(a: Account, events: seq<Event>, t: int, positions: seq<real>, closes: seq<real>)
    requires AllPrepared(events, |a.books|) && Replay(a, events).Success? && OpenedFlat(a) && Tallied(a)
    requires Chronological(events) && IsAsofColumn(a, events, t, positions) && |closes| == |positions|
    ensures ReplayAsof(a, events, t).Success?
    ensures var unrealized := EquityAt(events, Replay(a, events).value.marks, a.cash, t, positions, closes).unrealized;
      var after := ReplayAsof(a, events, t).value.account.books;
      && (unrealized == BooksGain(after, closes) <==> SumGaps(after) == 0.0)
      && (NoGap(a.books) && LotGuards(a, events[..PrefixCount(events, t)]) ==> unrealized == BooksGain(after, closes))
  {
    hide Replay, MarketValue, BooksGain, SumBasis, Summed, SumGaps, LotGuardAt, NoGap;
    var k := PrefixCount(events, t);
    BeforeIsPrefix(events, t);
    PrefixReplay(a, events, k);
    var after := Replay(a, events[..k]).value.account;
    ReplayStaysTallied(a, events[..k]);
    ValueLessBasis(after.books, closes);
    assert positions == Nets(after.books);
    if k > 0 { MarkIsPrefix(a, events, k - 1); } else { NoEvents(a, events[..0]); }
    if NoGap(a.books) && LotGuards(a, events[..k]) {
      GuardedLeavesNoGap(a, events[..k], k);
      assert events[..k][..k] == events[..k];
      NoGapsSum(after.books);
    }
  }

  lemma NoEvents(a: Account, events: seq<Event>)
    requires events == []
    ensures Replay(a, events) == Success(History(a, []))
  {
  }

  // ---- the curve ---------------------------------------------------------------------------------

  function Column(matrix: seq<seq<real>>, p: nat): (column: seq<real>)
    requires forall j :: 0 <= j < |matrix| ==> p < |matrix[j]|
    ensures |column| == |matrix| && forall j :: 0 <= j < |column| ==> column[j] == matrix[j][p]
  {
    seq(|matrix|, j requires 0 <= j < |matrix| && p < |matrix[j]| => matrix[j][p])
  }

  /** The requested instruments' positions at a time. */
  ghost function PositionsThen(a: Account, events: seq<Event>, insts: seq<Option<nat>>, t: int): (then': seq<real>)
    requires forall j :: 0 <= j < |insts| && insts[j].Some? ==> insts[j].value < |a.books|
    ensures |then'| == |insts| && forall j :: 0 <= j < |insts| ==> then'[j] == PulseAt(a, events, insts[j], t)
  {
    seq(|insts|, j requires 0 <= j < |insts| && (insts[j].Some? ==> insts[j].value < |a.books|) =>
      PulseAt(a, events, insts[j], t))
  }

  /** `equity_from_replay`: a row for every pulse, valued at that pulse's closes; nothing when
      timestamps decrease. */
  method EquityCurve(ghost a: Account, events: seq<Event>, marks: seq<Mark>, insts: seq<Option<nat>>,
                     pulses: seq<int>, closes: seq<seq<real>>, initialCash: real)
    returns (rows: Option<seq<EquityRow>>)
    requires AllPrepared(events, |a.books|) && Replay(a, events).Success? && marks == Replay(a, events).value.marks
    requires forall j :: 0 <= j < |insts| && insts[j].Some? ==> insts[j].value < |a.books|
    requires |closes| == |insts| && forall j :: 0 <= j < |closes| ==> |closes[j]| == |pulses|
    ensures rows.Some? <==> Chronological(events)
    ensures rows.Some? ==> |rows.value| == |pulses|
    ensures rows.Some? ==> forall p :: 0 <= p < |pulses| ==>
      rows.value[p] == EquityAt(events, marks, initialCash, pulses[p], PositionsThen(a, events, insts, pulses[p]),
                                Column(closes, p))
  {
    hide Replay, PulseAt, Own, EquityAt;
    if !Chronological(events) { return None; }
    var held := PositionsAtPulses(a, events, marks, insts, pulses);
    if held.None? {
      var j :| 0 <= j < |insts| && StopsRow(events, insts[j]);
      OwnIsChronological(events, insts[j].value);
      assert false;
    }
    var found := [];
    for p := 0 to |pulses|
      invariant |found| == p
      invariant forall i :: 0 <= i < p ==>
        found[i] == EquityAt(events, marks, initialCash, pulses[i], PositionsThen(a, events, insts, pulses[i]),
                             Column(closes, i))
    {
      var positions := Column(held.value, p);
      ColumnIsThen(a, events, insts, pulses, held.value, p);
      found := found + [EquityAt(events, marks, initialCash, pulses[p], positions, Column(closes, p))];
    }
    rows := Some(found);
  }

  lemma ColumnIsThen(a: Account, events: seq<Event>, insts: seq<Option<nat>>, pulses: seq<int>, held: seq<seq<real>>,
                     p: nat)
    requires forall j :: 0 <= j < |insts| && insts[j].Some? ==> insts[j].value < |a.books|
    requires |held| == |insts| && p < |pulses|
    requires forall j :: 0 <= j < |insts| ==> IsPulseRow(a, events, insts[j], pulses, held[j])
    ensures forall j :: 0 <= j < |held| ==> p < |held[j]|
    ensures Column(held, p) == PositionsThen(a, events, insts, pulses[p])
  {
    hide PulseAt;
    forall j | 0 <= j < |held| ensures p < |held[j]| && held[j][p] == PulseAt(a, events, insts[j], pulses[p]) {
      assert IsPulseRow(a, events, insts[j], pulses, held[j]);
    }
  }

  function EveryInstrument(count: nat): (insts: seq<Option<nat>>)
    ensures |insts| == count && forall q :: 0 <= q < count ==> insts[q] == Some(q)
  {
    seq(count, q requires 0 <= q => Some(q))
  }

  /** Over every instrument of a flat start, the curve's positions are those the per-time
      reader replays, so `EquityIdentity` and `UnrealizedMarksLots` hold along the curve. */
  lemma CurveHoldsAsof(a: Account, events: seq<Event>, t: int)
    requires AllPrepared(events, |a.books|) && Replay(a, events).Success? && Flat(a) && Chronological(events)
    ensures IsAsofColumn(a, events, t, PositionsThen(a, events, EveryInstrument(|a.books|), t))
  {
    hide Replay, PulseAt, PositionAsof;
    forall q: nat | q < |a.books| ensures PulseAt(a, events, Some(q), t) == PositionAsof(a, events, q, t) {
      PulseIsIndexed(a, events, q, t);
      IndexedIsAsof(a, events, q, t);
    }
  }

  ghost predicate AllEmpty(a: Account) { forall i :: 0 <= i < |a.books| ==> a.books[i] == Book([], 0.0, 0.0) }

  lemma EmptyIsExact(a: Account)
    requires AllEmpty(a) && a.total == 0.0
    ensures Tallied(a) && NoGap(a.books)
  {
    EmptyBasis(a.books);
  }

  lemma {:induction false} EmptyBasis(books: seq<Book>)
    requires forall i :: 0 <= i < |books| ==> books[i] == Book([], 0.0, 0.0)
    ensures SumBasis(books) == 0.0
  {
    if books != [] { EmptyBasis(books[1..]); }
  }

  /** Started from nothing, with every event self-financed and within both guards by the pulse,
      the curve's equity is opening cash, realized profit and the gain on the lots live then. */
  lemma CurveFromNothing(a: Account, events: seq<Event>, t: int, closes: seq<real>)
    requires AllPrepared(events, |a.books|) && Replay(a, events).Success? && OpenedFlat(a) && AllEmpty(a)
    requires Chronological(events) && |closes| == |a.books|
    requires forall i :: 0 <= i < PrefixCount(events, t) ==> SelfFinanced(events[i])
    requires CashGuards(a, events[..PrefixCount(events, t)]) && LotGuards(a, events[..PrefixCount(events, t)])
    ensures ReplayAsof(a, events, t).Success?
    ensures var positions := PositionsThen(a, events, EveryInstrument(|a.books|), t);
      var row := EquityAt(events, Replay(a, events).value.marks, a.cash, t, positions, closes);
      row.equity == a.cash + row.realized + BooksGain(ReplayAsof(a, events, t).value.account.books, closes)
  {
    hide Replay, EquityAt, PositionsThen, BooksGain, SelfFinanced, CashGuardAt, LotGuardAt, Tallied, NoGap;
    hide PositionAsof, ReplayAsof, AllEmpty;
    EmptyIsExact(a);
    CurveHoldsAsof(a, events, t);
    var positions := PositionsThen(a, events, EveryInstrument(|a.books|), t);
    EquityIdentity(a, events, t, positions, closes);
    UnrealizedMarksLots(a, events, t, positions, closes);
  }
}
