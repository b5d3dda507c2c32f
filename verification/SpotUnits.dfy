/** With whole-number quantities the dust tolerance never bites, and the lot book is
    a queue of single shares: each traded share consumes the oldest opposite share or
    joins the queue. */
module SpotUnits {
  import opened SpotFifo

  /** 2^52: below it, machine epsilon times a quantity is less than one share. */
  const LIMIT: int := 4503599627370496

  datatype WholeLot = WholeLot(qty: int, price: real)

  function Embed(lots: seq<WholeLot>): (r: seq<Lot>)
    ensures |r| == |lots|
    ensures forall i :: 0 <= i < |r| ==> r[i] == Lot(lots[i].qty as real, lots[i].price)
  {
    seq(|lots|, i requires 0 <= i < |lots| => Lot(lots[i].qty as real, lots[i].price))
  }

  function AbsInt(x: int): nat { if x < 0 then -x else x }
  function MinNat(x: nat, y: nat): nat { if y < x then y else x }
  function SignedInt(side: Side, x: int): int { if side.Buy? then x else -x }

  ghost predicate Small(lots: seq<WholeLot>) {
    forall i :: 0 <= i < |lots| ==> AbsInt(lots[i].qty) < LIMIT
  }

  ghost predicate OneSide(lots: seq<WholeLot>) {
    (forall i :: 0 <= i < |lots| ==> lots[i].qty > 0) || (forall i :: 0 <= i < |lots| ==> lots[i].qty < 0)
  }

  // ---- the exact closing loop ----------------------------------------------------

  datatype WholeClosing = WholeClosing(lots: seq<WholeLot>, remaining: nat, closeQty: nat, realized: real)

  predicate CanCloseWhole(side: Side, c: WholeClosing) {
    c.remaining > 0 && c.lots != [] && SignedInt(side, c.lots[0].qty) < 0
  }

  /** Realized on `take` shares bought (or sold short) at `bought` and closed at `price`. */
  function GainOn(side: Side, price: real, bought: real, take: nat): real {
    -Signed(side, (price - bought) * take as real)
  }

  function CloseFrontWhole(side: Side, price: real, c: WholeClosing): WholeClosing
    requires CanCloseWhole(side, c)
  {
    var front := c.lots[0];
    var take := MinNat(AbsInt(front.qty), c.remaining);
    var left := AbsInt(front.qty) - take;
    WholeClosing(
      if left == 0 then c.lots[1..] else c.lots[0 := WholeLot(-SignedInt(side, left), front.price)],
      c.remaining - take,
      c.closeQty + take,
      c.realized + GainOn(side, price, front.price, take))
  }

  function CloseAllWhole(side: Side, price: real, c: WholeClosing): WholeClosing
    decreases |c.lots|, c.remaining
  {
    if CanCloseWhole(side, c) then CloseAllWhole(side, price, CloseFrontWhole(side, price, c)) else c
  }

  /** The two closings agree on lots, quantities and realized profit. */
  ghost predicate Matches(c: Closing, w: WholeClosing) {
    && c.lots == Embed(w.lots)
    && c.remaining == w.remaining as real
    && c.closeQty == w.closeQty as real
    && c.realized == w.realized
  }

  lemma DustBelowOne(qty: int, take: nat, left: nat, remaining: nat)
    requires 0 < qty < LIMIT && take < LIMIT && left < LIMIT && remaining < LIMIT
    ensures 0.0 < Dust(qty as real, take as real, left as real, remaining as real) < 1.0
  {
    DustPositive(qty as real, take as real, left as real, remaining as real);
    DustAtMost(qty as real, take as real, left as real, remaining as real, (LIMIT - 1) as real);
  }

  lemma CloseFrontMatches(side: Side, qty: int, price: real, c: Closing, w: WholeClosing)
    requires 0 < qty < LIMIT && Small(w.lots) && w.remaining <= qty && Matches(c, w)
    requires CanCloseWhole(side, w)
    ensures CanClose(side, c)
    ensures Matches(CloseFront(side, qty as real, price, c), CloseFrontWhole(side, price, w))
    ensures Small(CloseFrontWhole(side, price, w).lots)
  {
    hide Dust;
    var take := MinNat(AbsInt(w.lots[0].qty), w.remaining);
    var left: nat := AbsInt(w.lots[0].qty) - take;
    DustBelowOne(qty, take, left, w.remaining - take);
    var n, m := CloseFront(side, qty as real, price, c), CloseFrontWhole(side, price, w);
    assert Abs(c.lots[0].qty) == AbsInt(w.lots[0].qty) as real;
    assert Min(Abs(c.lots[0].qty), c.remaining) == take as real;
    assert n.lots == Embed(m.lots);
    assert n.remaining == m.remaining as real;
    assert n.closeQty == m.closeQty as real;
    assert n.realized == m.realized;
  }

  lemma {:induction false} CloseAllMatches(side: Side, qty: int, price: real, c: Closing, w: WholeClosing)
    requires 0 < qty < LIMIT && Small(w.lots) && w.remaining <= qty && Matches(c, w)
    ensures Matches(CloseAll(side, qty as real, price, c), CloseAllWhole(side, price, w))
    decreases |w.lots|, w.remaining
  {
    hide CloseFront, CloseFrontWhole;
    if CanCloseWhole(side, w) {
      CloseFrontMatches(side, qty, price, c, w);
      CloseWholeShrinks(side, price, w);
      CloseAllMatches(side, qty, price, CloseFront(side, qty as real, price, c), CloseFrontWhole(side, price, w));
    } else {
      assert !CanClose(side, c);
    }
  }

  lemma CloseWholeShrinks(side: Side, price: real, w: WholeClosing)
    requires CanCloseWhole(side, w)
    ensures var n := CloseFrontWhole(side, price, w);
      n.remaining < w.remaining && |n.lots| <= |w.lots|
  {
  }

  // ---- the whole-number fill -------------------------------------------------------

  datatype WholeEffect = WholeEffect(lots: seq<WholeLot>, closeQty: nat, openQty: nat, realized: real)

  function WholeFill(lots: seq<WholeLot>, side: Side, qty: nat, price: real): WholeEffect {
    var c := CloseAllWhole(side, price, WholeClosing(lots, qty, 0, 0.0));
    WholeEffect(
      if c.remaining > 0 then c.lots + [WholeLot(SignedInt(side, c.remaining), price)] else c.lots,
      c.closeQty, c.remaining, c.realized)
  }

  lemma {:induction false} CloseWholeKeeps(side: Side, price: real, w: WholeClosing)
    requires OneSide(w.lots) && Small(w.lots)
    ensures var n := CloseAllWhole(side, price, w);
      && OneSide(n.lots) && Small(n.lots) && !CanCloseWhole(side, n)
      && n.closeQty + n.remaining == w.closeQty + w.remaining
    decreases |w.lots|, w.remaining
  {
    if CanCloseWhole(side, w) {
      CloseWholeShrinks(side, price, w);
      CloseWholeKeeps(side, price, CloseFrontWhole(side, price, w));
    }
  }

  /** On whole quantities the kernel and the exact fill agree; nothing is lost to dust. */
  lemma FillIsWhole(book: Book, lots: seq<WholeLot>, side: Side, qty: int, price: real)
    requires book.lots == Embed(lots) && Small(lots) && OneSide(lots) && 0 < qty < LIMIT
    ensures var e, w := ApplyFill(book, side, qty as real, price), WholeFill(lots, side, qty, price);
      && e.book.lots == Embed(w.lots)
      && e.closeQty == w.closeQty as real && e.openQty == w.openQty as real && e.realized == w.realized
      && w.closeQty + w.openQty == qty
      && Small(w.lots) && OneSide(w.lots)
  {
    hide CloseAll, CloseAllWhole, RawBasis, Dust;
    var start := WholeClosing(lots, qty, 0, 0.0);
    CloseAllMatches(side, qty, price, StartClosing(book, qty as real), start);
    CloseWholeKeeps(side, price, start);
    var c := CloseAllWhole(side, price, start);
    assert Embed(c.lots + [WholeLot(SignedInt(side, c.remaining), price)])
        == Embed(c.lots) + [Lot(Signed(side, c.remaining as real), price)];
  }

  // ---- single shares ------------------------------------------------------------------

  /** One held share: bought (long) or sold short, at a price. */
  datatype Unit = Unit(side: Side, price: real)

  datatype Queue = Queue(units: seq<Unit>, closeQty: nat, realized: real)

  /** Trading one share: it takes out the oldest opposite share, or joins the queue. */
  function TradeOne(side: Side, price: real, q: Queue): Queue {
    if q.units != [] && q.units[0].side != side then
      Queue(q.units[1..], q.closeQty + 1, q.realized + Gain(side, price, q.units[0].price))
    else
      Queue(q.units + [Unit(side, price)], q.closeQty, q.realized)
  }

  /** Realized on one share. */
  function Gain(side: Side, price: real, bought: real): real {
    -Signed(side, price - bought)
  }

  function TradeMany(side: Side, price: real, n: nat, q: Queue): Queue {
    if n == 0 then q else TradeMany(side, price, n - 1, TradeOne(side, price, q))
  }

  function Copies(u: Unit, n: nat): seq<Unit> { seq(n, _ => u) }

  function UnitOf(lot: WholeLot): Unit { Unit(if lot.qty > 0 then Buy else Sell, lot.price) }

  /** The shares a lot book holds, oldest first. */
  function Units(lots: seq<WholeLot>): seq<Unit> {
    if lots == [] then [] else Copies(UnitOf(lots[0]), AbsInt(lots[0].qty)) + Units(lots[1..])
  }

  lemma {:induction false} TradeAdd(side: Side, price: real, n: nat, m: nat, q: Queue)
    ensures TradeMany(side, price, n + m, q) == TradeMany(side, price, m, TradeMany(side, price, n, q))
  {
    if n > 0 { TradeAdd(side, price, n - 1, m, TradeOne(side, price, q)); }
  }

  /** Trading `take` shares against a run of opposite shares of one price. */
  lemma {:induction false} TradeFront(side: Side, price: real, take: nat, u: Unit, k: nat, rest: seq<Unit>, q: Queue)
    requires take <= k && u.side != side && q.units == Copies(u, k) + rest
    ensures TradeMany(side, price, take, q)
         == Queue(Copies(u, k - take) + rest, q.closeQty + take, q.realized + GainOn(side, price, u.price, take))
    decreases take
  {
    hide GainOn, Gain;
    GainStep(side, price, u.price, take);
    if take > 0 {
      var next := TradeOne(side, price, q);
      assert q.units[0] == u;
      assert next.units == Copies(u, k - 1) + rest;
      TradeFront(side, price, take - 1, u, k - 1, rest, next);
    }
  }

  lemma GainStep(side: Side, price: real, bought: real, take: nat)
    ensures GainOn(side, price, bought, 0) == 0.0
    ensures take > 0 ==>
      GainOn(side, price, bought, take) == Gain(side, price, bought) + GainOn(side, price, bought, take - 1)
  {
    if take > 0 {
      assert take as real == 1.0 + (take - 1) as real;
    }
  }

  /** With no opposite share in front, every share joins the queue. */
  lemma {:induction false} TradeOpen(side: Side, price: real, n: nat, q: Queue)
    requires q.units == [] || q.units[0].side == side
    ensures TradeMany(side, price, n, q) == Queue(q.units + Copies(Unit(side, price), n), q.closeQty, q.realized)
    decreases n
  {
    var u := Unit(side, price);
    if n > 0 {
      TradeOpen(side, price, n - 1, TradeOne(side, price, q));
      assert q.units + [u] + Copies(u, n - 1) == q.units + Copies(u, n);
    } else {
      assert q.units + Copies(u, 0) == q.units;
    }
  }

  /** One turn of the closing loop is `take` single-share trades. */
  lemma CloseFrontTrades(side: Side, price: real, w: WholeClosing)
    requires CanCloseWhole(side, w)
    ensures var n := CloseFrontWhole(side, price, w);
      TradeMany(side, price, w.remaining - n.remaining, Queue(Units(w.lots), w.closeQty, w.realized))
        == Queue(Units(n.lots), n.closeQty, n.realized)
  {
    hide GainOn;
    var front := w.lots[0];
    var take := MinNat(AbsInt(front.qty), w.remaining);
    var left := AbsInt(front.qty) - take;
    var rest := w.lots[1..];
    TradeFront(side, price, take, UnitOf(front), AbsInt(front.qty), Units(rest),
               Queue(Units(w.lots), w.closeQty, w.realized));
    var n := CloseFrontWhole(side, price, w);
    if left == 0 {
      assert n.lots == rest;
      assert Copies(UnitOf(front), 0) + Units(rest) == Units(rest);
    } else {
      assert n.lots[1..] == rest;
      assert Units(n.lots) == Copies(UnitOf(n.lots[0]), AbsInt(n.lots[0].qty)) + Units(rest);
      assert UnitOf(n.lots[0]) == UnitOf(front);
    }
    assert Units(n.lots) == Copies(UnitOf(front), left) + Units(rest);
  }

  /** The closing loop as single-share trades; the rest of the fill is still to trade. */
  lemma {:induction false} CloseAllTrades(side: Side, price: real, w: WholeClosing)
    ensures var n := CloseAllWhole(side, price, w);
      && n.remaining <= w.remaining
      && TradeMany(side, price, w.remaining, Queue(Units(w.lots), w.closeQty, w.realized))
         == TradeMany(side, price, n.remaining, Queue(Units(n.lots), n.closeQty, n.realized))
    decreases |w.lots|, w.remaining
  {
    hide TradeMany, Units, CloseFrontWhole;
    if CanCloseWhole(side, w) {
      var m := CloseFrontWhole(side, price, w);
      CloseWholeShrinks(side, price, w);
      CloseFrontTrades(side, price, w);
      TradeAdd(side, price, w.remaining - m.remaining, m.remaining, Queue(Units(w.lots), w.closeQty, w.realized));
      CloseAllTrades(side, price, m);
    }
  }

  lemma {:induction false} UnitsSnoc(lots: seq<WholeLot>, lot: WholeLot)
    ensures Units(lots + [lot]) == Units(lots) + Copies(UnitOf(lot), AbsInt(lot.qty))
  {
    if lots == [] {
      assert lots + [lot] == [lot];
      assert [lot][1..] == [];
    } else {
      UnitsSnoc(lots[1..], lot);
      assert (lots + [lot])[1..] == lots[1..] + [lot];
    }
  }

  lemma FrontUnit(lots: seq<WholeLot>)
    requires lots != [] && lots[0].qty != 0
    ensures Units(lots) != [] && Units(lots)[0] == UnitOf(lots[0])
  {
  }

  /** A whole-number fill is that many single-share trades: oldest opposite shares are
      consumed first, the remainder is opened, and realized profit is the sum of the
      consumed shares' gains. */
  lemma FillIsUnitTrading(lots: seq<WholeLot>, side: Side, qty: nat, price: real)
    requires OneSide(lots) && Small(lots)
    ensures var w := WholeFill(lots, side, qty, price);
      TradeMany(side, price, qty, Queue(Units(lots), 0, 0.0)) == Queue(Units(w.lots), w.closeQty, w.realized)
  {
    var start := WholeClosing(lots, qty, 0, 0.0);
    var c := CloseAllWhole(side, price, start);
    CloseAllTrades(side, price, start);
    CloseWholeKeeps(side, price, start);
    var q := Queue(Units(c.lots), c.closeQty, c.realized);
    if c.remaining > 0 {
      if c.lots != [] { FrontUnit(c.lots); }
      TradeOpen(side, price, c.remaining, q);
      UnitsSnoc(c.lots, WholeLot(SignedInt(side, c.remaining), price));
    }
  }
}
