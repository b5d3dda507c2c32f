/** How far cash, basis, net and the live lots can part: a closing turn may drop a dust-sized
    lot, a dust-sized remainder of the fill is swallowed, and a dust-sized basis is set to
    zero. Each law holds exactly when the kernel's own guard for it does. */
module SpotBasis {
  import opened SpotFifo
  import opened SpotUnits

  // ---- lots dropped as dust ----------------------------------------------------------

  /** What a turn leaves of the front lot. */
  function LeftOf(c: Closing): real
    requires c.lots != []
  {
    Abs(c.lots[0].qty) - Min(Abs(c.lots[0].qty), c.remaining)
  }

  /** The tolerance of a turn. */
  function TurnDust(qty: real, c: Closing): real
    requires c.lots != []
  {
    var take := Min(Abs(c.lots[0].qty), c.remaining);
    Dust(qty, take, LeftOf(c), c.remaining - take)
  }

  /** What dropping the rest of a dust-sized front lot adds to basis less value. */
  function DroppedBy(side: Side, qty: real, c: Closing): real
    requires CanClose(side, c)
  {
    if LeftOf(c) <= TurnDust(qty, c) then -Signed(side, LeftOf(c) * c.lots[0].price) else 0.0
  }

  function Dropped(side: Side, qty: real, price: real, c: Closing): real
    decreases |c.lots|, if c.remaining > 0.0 then 1 else 0
  {
    if !CanClose(side, c) then 0.0
    else
      CloseFrontProgress(side, qty, price, c);
      DroppedBy(side, qty, c) + Dropped(side, qty, price, CloseFront(side, qty, price, c))
  }

  /** One tolerance times the lot's price for every turn. */
  function DroppedLimit(side: Side, qty: real, price: real, c: Closing): real
    decreases |c.lots|, if c.remaining > 0.0 then 1 else 0
  {
    if !CanClose(side, c) then 0.0
    else
      CloseFrontProgress(side, qty, price, c);
      TurnDust(qty, c) * Abs(c.lots[0].price) + DroppedLimit(side, qty, price, CloseFront(side, qty, price, c))
  }

  lemma ScaledAbs(side: Side, x: real, y: real, price: real)
    requires 0.0 <= x <= y
    ensures Abs(-Signed(side, x * price)) <= y * Abs(price)
  {
    var p := Abs(price);
    assert x * p <= y * p;
    assert price == p || price == -p;
    assert x * price == x * p || x * price == -(x * p);
  }

  /** A turn drops at most its tolerance times the price of the lot. */
  lemma TurnDropsDust(side: Side, qty: real, c: Closing)
    requires CanClose(side, c)
    ensures Abs(DroppedBy(side, qty, c)) <= TurnDust(qty, c) * Abs(c.lots[0].price)
  {
    hide Dust;
    var take := Min(Abs(c.lots[0].qty), c.remaining);
    DustPositive(qty, take, LeftOf(c), c.remaining - take);
    ScaledAbs(side, 0.0, TurnDust(qty, c), c.lots[0].price);
    if LeftOf(c) <= TurnDust(qty, c) { ScaledAbs(side, LeftOf(c), TurnDust(qty, c), c.lots[0].price); }
  }

  lemma {:induction false} DropsDust(side: Side, qty: real, price: real, c: Closing)
    ensures Abs(Dropped(side, qty, price, c)) <= DroppedLimit(side, qty, price, c)
    decreases |c.lots|, if c.remaining > 0.0 then 1 else 0
  {
    hide CloseFront, DroppedBy, TurnDust, Abs;
    if CanClose(side, c) {
      var next := CloseFront(side, qty, price, c);
      CloseFrontProgress(side, qty, price, c);
      DropsDust(side, qty, price, next);
      TurnDropsDust(side, qty, c);
      AbsAdds(DroppedBy(side, qty, c), Dropped(side, qty, price, next),
              TurnDust(qty, c) * Abs(c.lots[0].price), DroppedLimit(side, qty, price, next));
    } else {
      ZeroAbs();
    }
  }

  /** A turn moves the closed value from the lots into the basis, but for what it drops. */
  lemma CloseFrontValue(side: Side, qty: real, price: real, c: Closing)
    requires CanClose(side, c)
    ensures var n := CloseFront(side, qty, price, c);
      n.basisDelta - LotsValue(n.lots) == c.basisDelta - LotsValue(c.lots) + DroppedBy(side, qty, c)
  {
    hide Dust;
    var front := c.lots[0];
    var take := Min(Abs(front.qty), c.remaining);
    var left := LeftOf(c);
    assert front.qty == -Signed(side, take + left);
    SignedTimes(side, take + left, front.price);
    SignedTimes(side, left, front.price);
    SignedTimes(side, take, front.price);
    Distribute(front.price, take, left, 0.0);
    if !(left <= TurnDust(qty, c)) {
      ReplaceFront(c.lots, Lot(-Signed(side, left), front.price));
    }
  }

  lemma {:induction false} CloseAllValue(side: Side, qty: real, price: real, c: Closing)
    ensures var n := CloseAll(side, qty, price, c);
      n.basisDelta - LotsValue(n.lots) == c.basisDelta - LotsValue(c.lots) + Dropped(side, qty, price, c)
    decreases |c.lots|, if c.remaining > 0.0 then 1 else 0
  {
    hide CloseFront, DroppedBy, LotsValue;
    if CanClose(side, c) {
      CloseFrontProgress(side, qty, price, c);
      CloseFrontValue(side, qty, price, c);
      CloseAllValue(side, qty, price, CloseFront(side, qty, price, c));
    }
  }

  /** What a fill's closing turns drop. */
  function FillDrops(book: Book, side: Side, qty: real, price: real): real {
    Dropped(side, qty, price, StartClosing(book, qty))
  }

  function FillDropsLimit(book: Book, side: Side, qty: real, price: real): real {
    DroppedLimit(side, qty, price, StartClosing(book, qty))
  }

  /** Basis less the value of the live lots. */
  function Gap(book: Book): real { book.basis - LotsValue(book.lots) }

  /** Before zeroing, a fill changes the gap by what its closing turns drop. */
  lemma RawBasisTracksLots(book: Book, side: Side, qty: real, price: real)
    requires qty > 0.0
    ensures var c := Closed(book, side, qty, price);
      RawBasis(book.basis, side, price, c) - LotsValue(ApplyFill(book, side, qty, price).book.lots)
        == Gap(book) + FillDrops(book, side, qty, price)
  {
    hide CloseAll, Dust, Dropped, LotsValue;
    CloseAllValue(side, qty, price, StartClosing(book, qty));
    var c := Closed(book, side, qty, price);
    SumsSnoc(c.lots, Lot(Signed(side, c.remaining), price));
  }

  /** On any book, a fill moves the gap by what is dropped and what is zeroed, so by no
      more than one tolerance per closing turn, at the lot's price, and one more. */
  lemma GapGrowsByDust(book: Book, side: Side, qty: real, price: real)
    requires qty > 0.0
    ensures var e := ApplyFill(book, side, qty, price);
      var c := Closed(book, side, qty, price);
      && Gap(e.book) == Gap(book) + FillDrops(book, side, qty, price) + Zeroed(book.basis, side, qty, price, c)
      && Abs(Gap(e.book) - Gap(book))
         <= FillDropsLimit(book, side, qty, price) + Dust(RawBasis(book.basis, side, price, c), e.book.net, qty, price)
  {
    hide CloseAll, Dust, Dropped, DroppedLimit, LotsValue, Abs, RawBasis;
    var c := Closed(book, side, qty, price);
    RawBasisTracksLots(book, side, qty, price);
    DropsDust(side, qty, price, StartClosing(book, qty));
    ZeroedIsDust(book.basis, side, qty, price, c);
    AbsAdds(FillDrops(book, side, qty, price), Zeroed(book.basis, side, qty, price, c),
            FillDropsLimit(book, side, qty, price),
            Dust(RawBasis(book.basis, side, price, c), ApplyFill(book, side, qty, price).book.net, qty, price));
  }

  // ---- quantities ------------------------------------------------------------------------

  /** How much of the front lot a turn drops. */
  function DroppedQtyBy(qty: real, c: Closing): real
    requires c.lots != []
  {
    if LeftOf(c) <= TurnDust(qty, c) then LeftOf(c) else 0.0
  }

  function DroppedQty(side: Side, qty: real, price: real, c: Closing): real
    decreases |c.lots|, if c.remaining > 0.0 then 1 else 0
  {
    if !CanClose(side, c) then 0.0
    else
      CloseFrontProgress(side, qty, price, c);
      DroppedQtyBy(qty, c) + DroppedQty(side, qty, price, CloseFront(side, qty, price, c))
  }

  lemma CloseFrontNet(side: Side, qty: real, price: real, c: Closing)
    requires CanClose(side, c)
    ensures var n := CloseFront(side, qty, price, c);
      n.net - Signed(side, n.closeQty) == c.net - Signed(side, c.closeQty) + Signed(side, DroppedQtyBy(qty, c))
  {
    hide Dust;
  }

  /** Closing moves the net by what it closes and what it drops. */
  lemma {:induction false} CloseAllNet(side: Side, qty: real, price: real, c: Closing)
    ensures var n := CloseAll(side, qty, price, c);
      n.net - Signed(side, n.closeQty)
        == c.net - Signed(side, c.closeQty) + Signed(side, DroppedQty(side, qty, price, c))
    decreases |c.lots|, if c.remaining > 0.0 then 1 else 0
  {
    hide CloseFront, DroppedQtyBy;
    if CanClose(side, c) {
      CloseFrontProgress(side, qty, price, c);
      CloseFrontNet(side, qty, price, c);
      CloseAllNet(side, qty, price, CloseFront(side, qty, price, c));
    }
  }

  /** How far a fill moves the net beyond the quantity traded: what it drops, less what of
      the fill it swallows. */
  function Slip(book: Book, side: Side, qty: real, price: real): real {
    Signed(side, DroppedQty(side, qty, price, StartClosing(book, qty)) - Residual(qty, Closed(book, side, qty, price)))
  }

  /** A closing that leaves a rest of the front lot is out of quantity, so a fill never both
      drops a lot's rest and swallows its own. */
  lemma {:induction false} DropsOrSwallows(side: Side, qty: real, price: real, c: Closing)
    ensures DroppedQty(side, qty, price, c) == 0.0
         || Residual(qty, CloseAll(side, qty, price, c)) == Residual(qty, c)
    decreases |c.lots|, if c.remaining > 0.0 then 1 else 0
  {
    hide Dust, Residual, CloseFront, DroppedQtyBy;
    if CanClose(side, c) {
      CloseFrontProgress(side, qty, price, c);
      TurnDropsOrSwallows(side, qty, price, c);
      DropsOrSwallows(side, qty, price, CloseFront(side, qty, price, c));
    }
  }

  lemma TurnDropsOrSwallows(side: Side, qty: real, price: real, c: Closing)
    requires CanClose(side, c)
    ensures var n := CloseFront(side, qty, price, c);
      && (DroppedQtyBy(qty, c) == 0.0 || n.remaining == 0.0)
      && (Residual(qty, n) == Residual(qty, c) || (n.remaining == 0.0 && DroppedQtyBy(qty, c) == 0.0))
  {
    hide Dust;
    var take := Min(Abs(c.lots[0].qty), c.remaining);
    DustPositive(qty, take, LeftOf(c), c.remaining - take);
  }

  /** So nothing slips exactly when no turn drops the rest of a lot and none swallows the fill's. */
  lemma SlipsUnlessNeither(book: Book, side: Side, qty: real, price: real)
    ensures Slip(book, side, qty, price) == 0.0
       <==> DroppedQty(side, qty, price, StartClosing(book, qty)) == 0.0
            && Residual(qty, Closed(book, side, qty, price)) == 0.0
  {
    hide CloseAll, DroppedQty;
    DropsOrSwallows(side, qty, price, StartClosing(book, qty));
  }

  /** On any book whose net is summed, the net moves by the quantity traded and the slip. */
  lemma FillMovesNet(book: Book, side: Side, qty: real, price: real)
    requires Summed(book) && qty > 0.0
    ensures ApplyFill(book, side, qty, price).book.net == book.net + Signed(side, qty) + Slip(book, side, qty, price)
  {
    hide CloseAll, Dust, DroppedQty, RawBasis, CashKept;
    var c := Closed(book, side, qty, price);
    CloseAllNet(side, qty, price, StartClosing(book, qty));
    CloseAllLots(side, qty, price, StartClosing(book, qty));
    StartKept(book, side, qty, price);
    CloseAllKeeps(side, qty, price, StartClosing(book, qty));
  }

  // ---- the exact guards ----------------------------------------------------------------------

  /** The kernel sets this basis to zero. */
  predicate ZeroesBasis(raw: real, net: real, qty: real, price: real) {
    raw != 0.0 && Abs(raw) <= Dust(raw, net, qty, price)
  }

  /** The fill balances cash: what it swallows and what it zeroes cancel, or neither happens. */
  predicate BalancesCash(book: Book, side: Side, qty: real, price: real) {
    var c := Closed(book, side, qty, price);
    var raw := RawBasis(book.basis, side, price, c);
    if ZeroesBasis(raw, ApplyFill(book, side, qty, price).book.net, qty, price)
    then raw == -Signed(side, Unexecuted(qty, price, c))
    else Unexecuted(qty, price, c) == 0.0
  }

  /** On any book and for any fill, the drift is zero exactly when the guards say so. */
  lemma NoDriftIffBalanced(book: Book, side: Side, qty: real, price: real)
    ensures Drift(book, side, qty, price) == 0.0 <==> BalancesCash(book, side, qty, price)
  {
    hide CloseAll, Dust, Unexecuted, RawBasis, Abs;
    ZeroAbs();
    ZeroedIs(book.basis, side, qty, price, Closed(book, side, qty, price));
  }

  lemma ZeroedIs(basis: real, side: Side, qty: real, price: real, c: Closing)
    ensures var raw := RawBasis(basis, side, price, c);
      Zeroed(basis, side, qty, price, c)
      == if ZeroesBasis(raw, OpenRest(basis, side, qty, price, c).book.net, qty, price) then -raw else 0.0
  {
    hide Dust, RawBasis;
  }

  /** At a positive price nothing unexecuted means nothing swallowed. */
  lemma NothingUnexecuted(qty: real, price: real, c: Closing)
    requires price > 0.0
    ensures Unexecuted(qty, price, c) == 0.0 <==> Residual(qty, c) == 0.0
  {
    hide Residual;
    assert price * 0.0 == 0.0;
  }

  /** The fill's basis becomes the value of its live lots: nothing of value is dropped, or all
      there is left is set to zero and the lots are worth nothing. */
  predicate TracksLots(book: Book, side: Side, qty: real, price: real) {
    var after := ApplyFill(book, side, qty, price).book;
    var value, dropped := LotsValue(after.lots), FillDrops(book, side, qty, price);
    if Abs(value + dropped) <= Dust(value + dropped, after.net, qty, price) then value == 0.0 else dropped == 0.0
  }

  /** On any book whose basis is the value of its lots, and for any fill, it stays so exactly
      when the guard says so. */
  lemma GapStaysClosed(book: Book, side: Side, qty: real, price: real)
    requires qty > 0.0 && Gap(book) == 0.0
    ensures Gap(ApplyFill(book, side, qty, price).book) == 0.0 <==> TracksLots(book, side, qty, price)
  {
    hide CloseAll, Dust, LotsValue, Dropped, Abs, RawBasis;
    RawBasisTracksLots(book, side, qty, price);
    SettledBasis(book.basis, side, qty, price, Closed(book, side, qty, price));
  }

  lemma SettledBasis(basis: real, side: Side, qty: real, price: real, c: Closing)
    ensures var raw, after := RawBasis(basis, side, price, c), OpenRest(basis, side, qty, price, c).book;
      after.basis == if Abs(raw) <= Dust(raw, after.net, qty, price) then 0.0 else raw
  {
    hide Dust, RawBasis, Abs;
  }

  /** The basis guard does fire: one share bought from flat at 2^-60 is held with no basis. */
  lemma TinyPriceIsZeroed()
    ensures var price := 1.0 / 1152921504606846976.0;
      var e := ApplyFill(Book([], 0.0, 0.0), Buy, 1.0, price);
      && e.book == Book([Lot(1.0, price)], 1.0, 0.0)
      && Gap(e.book) == -price
      && Drift(Book([], 0.0, 0.0), Buy, 1.0, price) == -price
  {
    var price := 1.0 / 1152921504606846976.0;
    var e := ApplyFill(Book([], 0.0, 0.0), Buy, 1.0, price);
    assert e.book.lots == [Lot(1.0, price)];
    SumsSnoc([], Lot(1.0, price));
    assert [] + [Lot(1.0, price)] == [Lot(1.0, price)];
  }

  const ALMOST_ONE: real := 1.0 - 1.0 / 9007199254740992.0

  /** So does the remainder guard: buying one share against a short lot of 1 - 2^-53 closes the
      lot, opens nothing, and leaves the price of 2^-53 unpaid for. */
  lemma RemainderIsSwallowed()
    ensures var book := Book([Lot(-ALMOST_ONE, 1.0)], -ALMOST_ONE, -ALMOST_ONE);
      var e := ApplyFill(book, Buy, 1.0, 1.0);
      && Gap(book) == 0.0 && e.book == Book([], 0.0, 0.0) && e.openQty == 0.0 && e.closeQty == ALMOST_ONE
      && Drift(book, Buy, 1.0, 1.0) == -1.0 / 9007199254740992.0
  {
    var book := Book([Lot(-ALMOST_ONE, 1.0)], -ALMOST_ONE, -ALMOST_ONE);
    var start := StartClosing(book, 1.0);
    var turn := CloseFront(Buy, 1.0, 1.0, start);
    SumsSnoc([], Lot(-ALMOST_ONE, 1.0));
    assert [] + [Lot(-ALMOST_ONE, 1.0)] == [Lot(-ALMOST_ONE, 1.0)];
    assert turn == Closing([], 0.0, 0.0, ALMOST_ONE, 0.0, ALMOST_ONE);
    CloseAllUnrolls(Buy, 1.0, 1.0, start);
    CloseAllUnrolls(Buy, 1.0, 1.0, turn);
  }

  // ---- whole quantities ----------------------------------------------------------------

  /** Whole-quantity turns drop nothing. */
  lemma {:induction false} WholeDropsNothing(side: Side, qty: int, price: real, c: Closing, w: WholeClosing)
    requires 0 < qty < LIMIT && Small(w.lots) && w.remaining <= qty && Matches(c, w)
    ensures Dropped(side, qty as real, price, c) == 0.0 && DroppedQty(side, qty as real, price, c) == 0.0
    decreases |w.lots|, w.remaining
  {
    hide CloseFront, CloseFrontWhole, Dust;
    if CanCloseWhole(side, w) {
      CloseFrontMatches(side, qty, price, c, w);
      NothingDropped(side, qty, c, w);
      NothingByTurn(side, qty as real, c);
      CloseWholeShrinks(side, price, w);
      WholeDropsNothing(side, qty, price, CloseFront(side, qty as real, price, c), CloseFrontWhole(side, price, w));
    } else {
      assert !CanClose(side, c);
    }
  }

  lemma NothingByTurn(side: Side, qty: real, c: Closing)
    requires CanClose(side, c) && (LeftOf(c) <= TurnDust(qty, c) ==> LeftOf(c) == 0.0)
    ensures DroppedBy(side, qty, c) == 0.0 && DroppedQtyBy(qty, c) == 0.0
  {
    hide Dust;
    assert LeftOf(c) == 0.0 ==> LeftOf(c) * c.lots[0].price == 0.0;
  }

  lemma NothingDropped(side: Side, qty: int, c: Closing, w: WholeClosing)
    requires 0 < qty < LIMIT && Small(w.lots) && w.remaining <= qty && Matches(c, w) && CanCloseWhole(side, w)
    ensures CanClose(side, c) && (LeftOf(c) <= TurnDust(qty as real, c) ==> LeftOf(c) == 0.0)
  {
    hide Dust;
    var take := MinNat(AbsInt(w.lots[0].qty), w.remaining);
    var left: nat := AbsInt(w.lots[0].qty) - take;
    assert Abs(c.lots[0].qty) == AbsInt(w.lots[0].qty) as real;
    assert Min(Abs(c.lots[0].qty), c.remaining) == take as real;
    DustBelowOne(qty, take, left, w.remaining - take);
  }

  /** The kernel keeps a basis of this value: it is zero already, or above the tolerance. */
  predicate KeepsBasis(value: real, net: real, qty: real, price: real) {
    value == 0.0 || Abs(value) > Dust(value, net, qty, price)
  }

  /** Whole quantities drop and swallow nothing, so the net moves by the quantity traded. */
  lemma WholeSlipsNothing(book: Book, lots: seq<WholeLot>, side: Side, qty: int, price: real)
    requires book.lots == Embed(lots) && Small(lots) && OneSide(lots) && 0 < qty < LIMIT
    ensures FillDrops(book, side, qty as real, price) == 0.0
    ensures Slip(book, side, qty as real, price) == 0.0
    ensures Unexecuted(qty as real, price, Closed(book, side, qty as real, price)) == 0.0
  {
    hide CloseAll, Dust, Dropped, DroppedQty, Embed, Small, OneSide;
    WholeDropsNothing(side, qty, price, StartClosing(book, qty as real), WholeClosing(lots, qty, 0, 0.0));
    FillIsWhole(book, lots, side, qty, price);
    assert Residual(qty as real, Closed(book, side, qty as real, price)) == 0.0;
    assert price * 0.0 == 0.0;
  }

  /** So at any price both guards come down to one: on a book whose basis is the value of its
      whole lots, a whole fill keeps it so and balances cash exactly when the tolerance does
      not set a basis of non-zero value to zero. */
  lemma WholeFillIsExactUnlessZeroed(book: Book, lots: seq<WholeLot>, side: Side, qty: int, price: real)
    requires book.lots == Embed(lots) && Small(lots) && OneSide(lots) && 0 < qty < LIMIT && Gap(book) == 0.0
    ensures var e := ApplyFill(book, side, qty as real, price);
      var kept := KeepsBasis(LotsValue(e.book.lots), e.book.net, qty as real, price);
      && (TracksLots(book, side, qty as real, price) <==> kept)
      && (BalancesCash(book, side, qty as real, price) <==> kept)
  {
    hide CloseAll, Dust, LotsValue, FillDrops, Slip, Unexecuted, Embed, Small, OneSide, RawBasis, Abs;
    ZeroAbs();
    DustAboveZero(ApplyFill(book, side, qty as real, price).book.net, qty as real, price);
    RawBasisTracksLots(book, side, qty as real, price);
    WholeSlipsNothing(book, lots, side, qty, price);
  }

  lemma DustAboveZero(net: real, qty: real, price: real)
    ensures Dust(0.0, net, qty, price) > 0.0
  {
    DustPositive(0.0, net, qty, price);
  }

  // ---- whole prices ----------------------------------------------------------------

  predicate Whole(x: real) { x == x.Floor as real }

  ghost predicate WholePrices(lots: seq<WholeLot>) { forall i :: 0 <= i < |lots| ==> Whole(lots[i].price) }

  lemma {:induction false} WholeTimes(a: int, k: int)
    ensures a as real * k as real == (a * k) as real
    decreases if a < 0 then -a else a
  {
    if a > 0 {
      WholeTimes(a - 1, k);
      assert a as real * k as real == (a - 1) as real * k as real + k as real;
    } else if a < 0 {
      WholeTimes(a + 1, k);
      assert a as real * k as real == (a + 1) as real * k as real - k as real;
    }
  }

  lemma WholeInt(k: int, x: real)
    requires x == k as real
    ensures Whole(x)
  {
  }

  lemma {:induction false} LotsValueWhole(lots: seq<WholeLot>)
    requires WholePrices(lots)
    ensures Whole(LotsValue(Embed(lots)))
  {
    if lots != [] {
      LotsValueWhole(lots[1..]);
      assert Embed(lots)[1..] == Embed(lots[1..]);
      assert Whole(lots[0].price);
      var k, m := lots[0].price.Floor, LotsValue(Embed(lots[1..])).Floor;
      WholeTimes(lots[0].qty, k);
      WholeInt(lots[0].qty * k + m, LotsValue(Embed(lots)));
    }
  }

  /** A whole basis is only ever set to zero when it is zero. */
  lemma WholeBasisKept(basis: real, net: real, qty: real, price: real)
    requires Whole(basis)
    requires Abs(basis) <= (LIMIT - 1) as real && Abs(net) <= (LIMIT - 1) as real
    requires Abs(qty) <= (LIMIT - 1) as real && Abs(price) <= (LIMIT - 1) as real
    ensures KeepsBasis(basis, net, qty, price)
  {
    DustAtMost(basis, net, qty, price, (LIMIT - 1) as real);
  }

  /** In whole prices of representable size the guard never fires. */
  lemma WholePricesKeepBasis(book: Book, lots: seq<WholeLot>, side: Side, qty: int, price: real)
    requires book.lots == Embed(lots) && Small(lots) && OneSide(lots) && 0 < qty < LIMIT
    requires WholePrices(lots) && Whole(price)
    requires var e := ApplyFill(book, side, qty as real, price);
      && Abs(LotsValue(e.book.lots)) <= (LIMIT - 1) as real
      && Abs(e.book.net) <= (LIMIT - 1) as real && Abs(price) <= (LIMIT - 1) as real
    ensures var e := ApplyFill(book, side, qty as real, price);
      KeepsBasis(LotsValue(e.book.lots), e.book.net, qty as real, price)
  {
    hide CloseAll, Dust, LotsValue, KeepsBasis, Embed;
    FillIsWhole(book, lots, side, qty, price);
    WholePricesKept(lots, side, qty, price);
    LotsValueWhole(WholeFill(lots, side, qty, price).lots);
    var e := ApplyFill(book, side, qty as real, price);
    WholeBasisKept(LotsValue(e.book.lots), e.book.net, qty as real, price);
  }

  lemma {:induction false} ClosePricesKept(side: Side, price: real, w: WholeClosing)
    requires WholePrices(w.lots)
    ensures WholePrices(CloseAllWhole(side, price, w).lots)
    decreases |w.lots|, w.remaining
  {
    hide GainOn;
    if CanCloseWhole(side, w) {
      CloseWholeShrinks(side, price, w);
      ClosePricesKept(side, price, CloseFrontWhole(side, price, w));
    }
  }

  lemma WholePricesKept(lots: seq<WholeLot>, side: Side, qty: nat, price: real)
    requires WholePrices(lots) && Whole(price)
    ensures WholePrices(WholeFill(lots, side, qty, price).lots)
  {
    hide CloseAllWhole;
    ClosePricesKept(side, price, WholeClosing(lots, qty, 0, 0.0));
  }
}
