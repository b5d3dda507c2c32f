/** The kernel as it runs: per-instrument lot queues and running totals updated in place,
    fill by fill, against the specification in SpotKernel. */
module SpotEngine {
  import opened Wrappers
  import opened SpotFifo
  import opened SpotKernel

  /** One turn: takes from the front lot, then drops the lot or rewrites it. */
  method CloseTurn(queue: seq<Lot>, net: real, remaining: real, closeQty: real, realized: real, basisDelta: real,
                   side: Side, qty: real, price: real)
    returns (n: Closing)
    requires CanClose(side, Closing(queue, net, remaining, closeQty, realized, basisDelta))
    ensures n == CloseFront(side, qty, price, Closing(queue, net, remaining, closeQty, realized, basisDelta))
  {
    hide Dust;
    ghost var before := Closing(queue, net, remaining, closeQty, realized, basisDelta);
    ghost var turn := CloseFront(side, qty, price, before);
    var front := queue[0];
    var take := Min(Abs(front.qty), remaining);
    var realized' := realized - Signed(side, (price - front.price) * take);
    var basisDelta' := basisDelta + Signed(side, take * front.price);
    assert turn.realized == realized' && turn.basisDelta == basisDelta';
    var left := Abs(front.qty) - take;
    var remaining' := remaining - take;
    var tol := Dust(qty, take, left, remaining');
    if left <= tol {
      n := Closing(queue[1..], net - front.qty, remaining', closeQty + take, realized', basisDelta');
      assert n.lots == turn.lots && n.net == turn.net;
    } else {
      n := Closing(queue[0 := Lot(-Signed(side, left), front.price)], (net - front.qty) - Signed(side, left),
                   remaining', closeQty + take, realized', basisDelta');
      assert n.lots == turn.lots && n.net == turn.net;
    }
    if remaining' <= tol { n := n.(remaining := 0.0); }
    assert n.remaining == turn.remaining && n.closeQty == turn.closeQty;
  }

  /** The closing loop on the front of one instrument's queue. */
  method CloseOpposite(lots: seq<Lot>, net: real, side: Side, qty: real, price: real) returns (c: Closing)
    ensures c == CloseAll(side, qty, price, Closing(lots, net, qty, 0.0, 0.0, 0.0))
  {
    hide CloseAll, CloseFront;
    ghost var start := Closing(lots, net, qty, 0.0, 0.0, 0.0);
    c := Closing(lots, net, qty, 0.0, 0.0, 0.0);
    while c.remaining > 0.0 && c.lots != [] && Signed(side, c.lots[0].qty) < 0.0
      invariant CloseAll(side, qty, price, c) == CloseAll(side, qty, price, start)
      decreases |c.lots|, if c.remaining > 0.0 then 1 else 0
    {
      CloseAllUnrolls(side, qty, price, c);
      CloseFrontProgress(side, qty, price, c);
      c := CloseTurn(c.lots, c.net, c.remaining, c.closeQty, c.realized, c.basisDelta, side, qty, price);
    }
    CloseAllUnrolls(side, qty, price, c);
  }

  lemma RestIsEffect(book: Book, side: Side, qty: real, price: real, c: Closing)
    requires c == CloseAll(side, qty, price, Closing(book.lots, book.net, qty, 0.0, 0.0, 0.0))
    ensures OpenRest(book.basis, side, qty, price, c) == ApplyFill(book, side, qty, price)
  {
  }

  /** A fill's closing loop and opening leg on one instrument. */
  method CloseAndOpen(lots: seq<Lot>, net: real, basis: real, side: Side, qty: real, price: real) returns (e: Effect)
    requires qty > 0.0
    ensures e == ApplyFill(Book(lots, net, basis), side, qty, price) && e.openQty >= 0.0
  {
    hide ApplyFill, OpenRest;
    var c := CloseOpposite(lots, net, side, qty, price);
    e := OpenRest(basis, side, qty, price, c);
    RestIsEffect(Book(lots, net, basis), side, qty, price, c);
    OpenQtyNonNegative(Book(lots, net, basis), side, qty, price);
  }

  lemma ValidParts(count: nat, f: Fill)
    requires Check(count, f).None?
    ensures 0 <= f.inst < count && f.side.Some? && f.qty > 0.0
  {
  }

  function Books(lots: seq<seq<Lot>>, net: seq<real>, basis: seq<real>): (books: seq<Book>)
    requires |lots| == |net| == |basis|
    ensures |books| == |lots|
    ensures forall i :: 0 <= i < |books| ==> books[i] == Book(lots[i], net[i], basis[i])
  {
    seq(|lots|, i requires 0 <= i < |lots| && |lots| == |net| == |basis| => Book(lots[i], net[i], basis[i]))
  }

  lemma BooksSet(lots: seq<seq<Lot>>, net: seq<real>, basis: seq<real>, i: nat, book: Book)
    requires |lots| == |net| == |basis| && i < |lots|
    ensures Books(lots[i := book.lots], net[i := book.net], basis[i := book.basis])
         == Books(lots, net, basis)[i := book]
  {
  }

  /** A state that holds the fill's effect, field by field, is the batch extended by the fill. */
  lemma FillExtends(before: Batch, f: Fill, e: Effect, after: Batch)
    requires Valid(before.account, f) && e == EffectOn(before.account, f) && e.openQty >= 0.0
    requires var a, n := before.account, after.account;
      var y := (e.realized - f.fee) - a.comp;
      && n.books == a.books[f.inst := e.book] && n.total == a.total - a.books[f.inst].basis + e.book.basis
      && n.realized == a.realized + y && n.comp == ((a.realized + y) - a.realized) - y
      && n.cash == a.cash + CashDelta(f.side.value, f.qty, f.price, f.fee) && n.nextSeq == a.nextSeq + 1
    requires after.events == before.events + [
      EventRow(before.account.nextSeq, f.inst, f.side.value, f.qty, f.price, f.fee, f.ts,
               CashDelta(f.side.value, f.qty, f.price, f.fee), Signed(f.side.value, f.qty),
               after.account.realized, after.account.total)]
    requires after.rows == before.rows + RowsFor(before.account.nextSeq, f, e)
    ensures after == Extend(before, f)
  {
    hide ApplyFill, RowsFor, CashDelta, Signed;
  }

  /** Some of the first `k` fills were in this instrument. */
  ghost predicate Traded(fills: seq<Fill>, k: nat, i: nat) {
    exists j :: 0 <= j < k && j < |fills| && fills[j].inst == i
  }

  /** A filled instrument's position is its net; any other keeps the position it came with. */
  ghost predicate PositionsFollow(initial: seq<real>, books: seq<Book>, fills: seq<Fill>, k: nat,
                                  positions: seq<real>) {
    && |positions| == |books| == |initial|
    && forall i :: 0 <= i < |positions| ==> positions[i] == if Traded(fills, k, i) then books[i].net else initial[i]
  }

  lemma FollowFill(initial: seq<real>, before: Batch, fills: seq<Fill>, k: nat, was: seq<real>)
    requires k < |fills| && Valid(before.account, fills[k])
    requires PositionsFollow(initial, before.account.books, fills, k, was)
    ensures var books := Extend(before, fills[k]).account.books;
      |books| == |was| && PositionsFollow(initial, books, fills, k + 1, was[fills[k].inst := books[fills[k].inst].net])
  {
    hide ApplyFill;
    forall i: nat | i < |was| && i != fills[k].inst ensures Traded(fills, k + 1, i) <==> Traded(fills, k, i) {
    }
    assert Traded(fills, k + 1, fills[k].inst);
  }

  class Engine {
    var lots: seq<seq<Lot>>
    var net: seq<real>
    var positions: seq<real>
    var basisBy: seq<real>
    var total: real
    var realized: real
    var comp: real
    var cash: real
    var eventSeq: nat
    var events: seq<EventRow>
    var rows: seq<FillRow>

    ghost predicate Aligned()
      reads this
    {
      |lots| == |net| == |positions| == |basisBy|
    }

    /** The state the specification speaks of. */
    ghost function State(): Batch
      requires Aligned()
      reads this
    {
      Batch(Account(Books(lots, net, basisBy), total, realized, comp, cash, eventSeq), events, rows)
    }

    constructor (lots: seq<seq<Lot>>, positions: seq<real>, net: seq<real>, basisBy: seq<real>,
                 total: real, realized: real, comp: real, cash: real, eventSeq: nat)
      requires |lots| == |positions| == |net| == |basisBy|
      ensures Aligned() && this.positions == positions
      ensures State() == Batch(Account(Books(lots, net, basisBy), total, realized, comp, cash, eventSeq), [], [])
    {
      this.lots, this.positions, this.net, this.basisBy := lots, positions, net, basisBy;
      this.total, this.realized, this.comp, this.cash := total, realized, comp, cash;
      this.eventSeq, this.events, this.rows := eventSeq, [], [];
    }

    /** One fill. A refused fill changes nothing. The filled instrument's position becomes its net. */
    method Fill(f: Fill) returns (refusal: Option<Refusal>)
      requires Aligned()
      modifies this
      ensures Aligned() && |lots| == old(|lots|)
      ensures refusal == Check(|lots|, f)
      ensures refusal.Some? ==> State() == old(State()) && positions == old(positions)
      ensures refusal.None? ==> State() == Extend(old(State()), f)
      ensures refusal.None? ==> positions == old(positions)[f.inst := net[f.inst]]
    {
      hide Check, ApplyFill, RowsFor, CashDelta, Extend, Books;
      refusal := Check(|lots|, f);
      if refusal.Some? {
        return;
      }
      ghost var before := State();
      ValidParts(|lots|, f);
      var i, side := f.inst, f.side.value;
      var rest := CloseAndOpen(lots[i], net[i], basisBy[i], side, f.qty, f.price);
      var cashDelta := CashDelta(side, f.qty, f.price, f.fee);
      var y := (rest.realized - f.fee) - comp;
      var t := realized + y;
      var newTotal := total - basisBy[i] + rest.book.basis;
      var row := EventRow(eventSeq, i, side, f.qty, f.price, f.fee, f.ts, cashDelta, Signed(side, f.qty), t, newTotal);
      var fillRows := RowsFor(eventSeq, f, rest);
      BooksSet(lots, net, basisBy, i, rest.book);
      FillExtends(before, f, rest, Batch(
        Account(before.account.books[i := rest.book], newTotal, t, (t - realized) - y, cash + cashDelta, eventSeq + 1),
        events + [row], rows + fillRows));
      WriteBack(i, rest.book, newTotal, t, (t - realized) - y, cash + cashDelta);
      eventSeq, events, rows := eventSeq + 1, events + [row], rows + fillRows;
    }

    /** The new lots, net, position and basis of one instrument, and the running totals. */
    method WriteBack(i: nat, book: Book, newTotal: real, newRealized: real, newComp: real, newCash: real)
      requires Aligned() && i < |lots|
      modifies this`lots, this`net, this`positions, this`basisBy, this`total, this`realized, this`comp, this`cash
      ensures lots == old(lots)[i := book.lots] && net == old(net)[i := book.net]
      ensures positions == old(positions)[i := book.net] && basisBy == old(basisBy)[i := book.basis]
      ensures total == newTotal && realized == newRealized && comp == newComp && cash == newCash
    {
      lots, net := lots[i := book.lots], net[i := book.net];
      positions, basisBy := positions[i := book.net], basisBy[i := book.basis];
      total, realized, comp, cash := newTotal, newRealized, newComp, newCash;
    }

    /** A whole batch; the first bad fill stops it. */
    method RunBatch(fills: seq<Fill>) returns (refusal: Option<Refusal>)
      requires Aligned()
      modifies this
      ensures Aligned() && |lots| == old(|lots|)
      ensures refusal.None? ==> Run(old(State()), fills) == Success(State())
      ensures refusal.None? ==> PositionsFollow(old(positions), State().account.books, fills, |fills|, positions)
      ensures refusal.Some? ==> Run(old(State()), fills) == Failure(refusal.value)
    {
      hide Extend, Check;
      ghost var start := State();
      for k := 0 to |fills|
        invariant Aligned() && |State().account.books| == |lots| == old(|lots|)
        invariant Run(start, fills) == Run(State(), fills[k..])
        invariant PositionsFollow(old(positions), State().account.books, fills, k, positions)
      {
        assert fills[k..][0] == fills[k] && fills[k..][1..] == fills[k + 1..];
        ghost var before, was := State(), positions;
        refusal := Fill(fills[k]);
        if refusal.Some? {
          return;
        }
        ValidParts(|lots|, fills[k]);
        FollowFill(old(positions), before, fills, k, was);
      }
      refusal := None;
    }
  }
}
