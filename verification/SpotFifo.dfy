/** One instrument's FIFO lot book under one fill, in exact arithmetic with the
    kernel's dust tolerance kept: what is closed, opened, realized and left over. */
module SpotFifo {

  datatype Lot = Lot(qty: real, price: real)

  datatype Side = Buy | Sell

  /** `x` with the direction of the fill: buying adds, selling subtracts. */
  function Signed(side: Side, x: real): real { if side.Buy? then x else -x }

  function Abs(x: real): real { if x < 0.0 then -x else x }
  function Max(x: real, y: real): real { if x < y then y else x }
  function Min(x: real, y: real): real { if y < x then y else x }

  /** Machine epsilon, 2^-52, times `x`. */
  function Eps(x: real): real { x / 4503599627370496.0 }

  function Dust(a: real, b: real, c: real, d: real): real {
    Eps(Max(1.0, Max(Abs(a), Max(Abs(b), Max(Abs(c), Abs(d))))))
  }

  /** The tolerance is 2^-52 times the largest of the four amounts and one. */
  lemma DustMeans(a: real, b: real, c: real, d: real)
    ensures var scaled, amounts := Dust(a, b, c, d) * 4503599627370496.0, [1.0, a, b, c, d];
      && (forall i :: 0 <= i < 5 ==> -scaled <= amounts[i] <= scaled)
      && exists i :: 0 <= i < 5 && (scaled == amounts[i] || scaled == -amounts[i])
  {
    var scaled, amounts := Dust(a, b, c, d) * 4503599627370496.0, [1.0, a, b, c, d];
    assert scaled == Abs(amounts[0]) || scaled == Abs(amounts[1]) || scaled == Abs(amounts[2])
        || scaled == Abs(amounts[3]) || scaled == Abs(amounts[4]);
  }

  datatype Book = Book(lots: seq<Lot>, net: real, basis: real)

  // ---- closing -----------------------------------------------------------------

  /** The running totals of the closing loop. */
  datatype Closing = Closing(
    lots: seq<Lot>, net: real, remaining: real, closeQty: real, realized: real, basisDelta: real)

  /** Something is left to fill and the front lot is on the other side. */
  predicate CanClose(side: Side, c: Closing) {
    c.remaining > 0.0 && c.lots != [] && Signed(side, c.lots[0].qty) < 0.0
  }

  /** One turn of the closing loop against the front lot. */
  function CloseFront(side: Side, qty: real, price: real, c: Closing): Closing
    requires CanClose(side, c)
  {
    var front := c.lots[0];
    var take := Min(Abs(front.qty), c.remaining);
    var left := Abs(front.qty) - take;
    var remaining := c.remaining - take;
    var tol := Dust(qty, take, left, remaining);
    Closing(
      if left <= tol then c.lots[1..] else c.lots[0 := Lot(-Signed(side, left), front.price)],
      if left <= tol then c.net - front.qty else (c.net - front.qty) - Signed(side, left),
      if remaining <= tol then 0.0 else remaining,
      c.closeQty + take,
      c.realized - Signed(side, (price - front.price) * take),
      c.basisDelta + Signed(side, take * front.price))
  }

  lemma DustPositive(a: real, b: real, c: real, d: real)
    ensures Dust(a, b, c, d) > 0.0
  {
  }

  lemma DustAtMost(a: real, b: real, c: real, d: real, m: real)
    requires m >= 1.0 && Abs(a) <= m && Abs(b) <= m && Abs(c) <= m && Abs(d) <= m
    ensures Dust(a, b, c, d) <= Eps(m)
  {
  }

  /** Each turn either removes the front lot or finishes the fill. */
  lemma CloseFrontProgress(side: Side, qty: real, price: real, c: Closing)
    requires CanClose(side, c)
    ensures var n := CloseFront(side, qty, price, c);
      |n.lots| < |c.lots| || (|n.lots| == |c.lots| && n.remaining == 0.0)
  {
    var take := Min(Abs(c.lots[0].qty), c.remaining);
    DustPositive(qty, take, Abs(c.lots[0].qty) - take, c.remaining - take);
  }

  function CloseAll(side: Side, qty: real, price: real, c: Closing): Closing
    decreases |c.lots|, if c.remaining > 0.0 then 1 else 0
  {
    if !CanClose(side, c) then c
    else
      CloseFrontProgress(side, qty, price, c);
      CloseAll(side, qty, price, CloseFront(side, qty, price, c))
  }

  /** One turn and then the rest is the whole closing loop. */
  lemma CloseAllUnrolls(side: Side, qty: real, price: real, c: Closing)
    ensures CloseAll(side, qty, price, c)
         == if CanClose(side, c) then CloseAll(side, qty, price, CloseFront(side, qty, price, c)) else c
  {
  }

  function StartClosing(book: Book, qty: real): Closing {
    Closing(book.lots, book.net, qty, 0.0, 0.0, 0.0)
  }

  // ---- the whole fill ------------------------------------------------------------

  /** A fill's effect on its instrument's book. */
  datatype Effect = Effect(book: Book, closeQty: real, openQty: real, realized: real)

  function Closed(book: Book, side: Side, qty: real, price: real): Closing {
    CloseAll(side, qty, price, StartClosing(book, qty))
  }

  /** What an opening leg adds to the basis. */
  function OpenValue(side: Side, price: real, remaining: real): real {
    if remaining > 0.0 then Signed(side, remaining) * price else 0.0
  }

  /** The book's basis after the fill, before a dust-sized basis is set to zero. */
  function RawBasis(basis: real, side: Side, price: real, c: Closing): real {
    basis + (c.basisDelta + OpenValue(side, price, c.remaining))
  }

  /** Opens what is left of the fill, if anything, and settles net and basis. */
  function OpenRest(basis: real, side: Side, qty: real, price: real, c: Closing): Effect {
    var lots := if c.remaining > 0.0 then c.lots + [Lot(Signed(side, c.remaining), price)] else c.lots;
    var net := if lots == [] then 0.0 else if c.remaining > 0.0 then c.net + Signed(side, c.remaining) else c.net;
    var raw := RawBasis(basis, side, price, c);
    Effect(Book(lots, net, if Abs(raw) <= Dust(raw, net, qty, price) then 0.0 else raw),
           c.closeQty, c.remaining, c.realized)
  }

  function ApplyFill(book: Book, side: Side, qty: real, price: real): Effect {
    OpenRest(book.basis, side, qty, price, Closed(book, side, qty, price))
  }

  // ---- invariants of a book --------------------------------------------------------

  function SumQty(lots: seq<Lot>): real {
    if lots == [] then 0.0 else lots[0].qty + SumQty(lots[1..])
  }

  function LotsValue(lots: seq<Lot>): real {
    if lots == [] then 0.0 else lots[0].qty * lots[0].price + LotsValue(lots[1..])
  }

  /** All lots are long, or all are short. */
  predicate OneSign(lots: seq<Lot>) {
    (forall i :: 0 <= i < |lots| ==> lots[i].qty > 0.0) || (forall i :: 0 <= i < |lots| ==> lots[i].qty < 0.0)
  }

  predicate NoZeroLot(lots: seq<Lot>) { forall i :: 0 <= i < |lots| ==> lots[i].qty != 0.0 }

  /** The net is the lots' quantities, summed. */
  predicate Summed(book: Book) { book.net == SumQty(book.lots) }

  predicate Consistent(book: Book) { OneSign(book.lots) && Summed(book) }

  /** The part of the fill that was neither closed nor is left to open. */
  function Residual(qty: real, c: Closing): real { qty - c.closeQty - c.remaining }

  /** At most one dust quantity is lost, and none while something is left to fill. */
  ghost predicate ResidualKept(qty: real, c: Closing) {
    && c.remaining >= 0.0 && c.closeQty >= 0.0
    && 0.0 <= Residual(qty, c) <= Eps(Max(1.0, qty))
    && (c.remaining > 0.0 ==> Residual(qty, c) == 0.0)
  }

  /** What was closed so far is in the basis and the realized profit. */
  ghost predicate CashKept(side: Side, price: real, c: Closing) {
    c.basisDelta - c.realized == Signed(side, price * c.closeQty)
  }

  lemma ReplaceFront(lots: seq<Lot>, lot: Lot)
    requires lots != []
    ensures SumQty(lots[0 := lot]) == lot.qty + SumQty(lots[1..])
    ensures LotsValue(lots[0 := lot]) == lot.qty * lot.price + LotsValue(lots[1..])
  {
    assert lots[0 := lot][1..] == lots[1..];
  }

  lemma {:induction false} SumsSnoc(lots: seq<Lot>, lot: Lot)
    ensures SumQty(lots + [lot]) == SumQty(lots) + lot.qty
    ensures LotsValue(lots + [lot]) == LotsValue(lots) + lot.qty * lot.price
  {
    if lots == [] {
      assert lots + [lot] == [lot];
    } else {
      assert (lots + [lot])[1..] == lots[1..] + [lot];
      SumsSnoc(lots[1..], lot);
    }
  }

  lemma TakeIdentity(price: real, lotPrice: real, closeQty: real, take: real)
    ensures (price - lotPrice) * take + take * lotPrice == price * take
    ensures price * closeQty + price * take == price * (closeQty + take)
  {
  }

  /** A turn keeps the net summed, the lots on one side, and zero lots away. */
  lemma CloseFrontLots(side: Side, qty: real, price: real, c: Closing)
    requires CanClose(side, c)
    ensures var n := CloseFront(side, qty, price, c);
      && (c.net == SumQty(c.lots) ==> n.net == SumQty(n.lots))
      && (OneSign(c.lots) ==> OneSign(n.lots))
      && (NoZeroLot(c.lots) ==> NoZeroLot(n.lots))
  {
    var take := Min(Abs(c.lots[0].qty), c.remaining);
    var left := Abs(c.lots[0].qty) - take;
    DustPositive(qty, take, left, c.remaining - take);
    ReplaceFront(c.lots, Lot(-Signed(side, left), c.lots[0].price));
  }

  lemma CloseFrontResidual(side: Side, qty: real, price: real, c: Closing)
    requires CanClose(side, c) && ResidualKept(qty, c) && qty > 0.0
    ensures ResidualKept(qty, CloseFront(side, qty, price, c))
  {
    var take := Min(Abs(c.lots[0].qty), c.remaining);
    var left := Abs(c.lots[0].qty) - take;
    var remaining := c.remaining - take;
    DustPositive(qty, take, left, remaining);
    if remaining > 0.0 {
      assert left == 0.0;
      DustAtMost(qty, take, left, remaining, Max(1.0, qty));
    }
  }

  lemma CloseFrontCash(side: Side, qty: real, price: real, c: Closing)
    requires CanClose(side, c) && CashKept(side, price, c)
    ensures CashKept(side, price, CloseFront(side, qty, price, c))
  {
    var take := Min(Abs(c.lots[0].qty), c.remaining);
    TakeIdentity(price, c.lots[0].price, c.closeQty, take);
  }

  /** On any lots, closing loses at most one dust quantity and books what it closed. */
  lemma {:induction false} CloseAllKeeps(side: Side, qty: real, price: real, c: Closing)
    requires qty > 0.0 && ResidualKept(qty, c) && CashKept(side, price, c)
    ensures var n := CloseAll(side, qty, price, c); ResidualKept(qty, n) && CashKept(side, price, n)
    decreases |c.lots|, if c.remaining > 0.0 then 1 else 0
  {
    hide CloseFront, ResidualKept, CashKept;
    if CanClose(side, c) {
      CloseFrontProgress(side, qty, price, c);
      CloseFrontResidual(side, qty, price, c);
      CloseFrontCash(side, qty, price, c);
      CloseAllKeeps(side, qty, price, CloseFront(side, qty, price, c));
    }
  }

  lemma {:induction false} CloseAllLots(side: Side, qty: real, price: real, c: Closing)
    ensures var n := CloseAll(side, qty, price, c);
      && !CanClose(side, n)
      && (c.net == SumQty(c.lots) ==> n.net == SumQty(n.lots))
      && (OneSign(c.lots) ==> OneSign(n.lots))
      && (NoZeroLot(c.lots) ==> NoZeroLot(n.lots))
    decreases |c.lots|, if c.remaining > 0.0 then 1 else 0
  {
    hide CloseFront, OneSign, NoZeroLot;
    if CanClose(side, c) {
      CloseFrontProgress(side, qty, price, c);
      CloseFrontLots(side, qty, price, c);
      CloseAllLots(side, qty, price, CloseFront(side, qty, price, c));
    }
  }

  lemma StartKept(book: Book, side: Side, qty: real, price: real)
    requires qty > 0.0
    ensures ResidualKept(qty, StartClosing(book, qty)) && CashKept(side, price, StartClosing(book, qty))
  {
    assert price * 0.0 == 0.0;
  }

  /** On any book a fill keeps the net summed and opens or leaves no zero lot. */
  lemma FillKeepsLots(book: Book, side: Side, qty: real, price: real)
    ensures var after := ApplyFill(book, side, qty, price).book;
      && (Summed(book) ==> Summed(after))
      && (NoZeroLot(book.lots) ==> NoZeroLot(after.lots))
  {
    hide CloseAll, CloseFront, Dust, RawBasis, OneSign;
    var c := Closed(book, side, qty, price);
    CloseAllLots(side, qty, price, StartClosing(book, qty));
    SumsSnoc(c.lots, Lot(Signed(side, c.remaining), price));
  }

  /** A consistent book stays consistent: lots of one sign whose quantities sum to the net. */
  lemma FillKeepsConsistent(book: Book, side: Side, qty: real, price: real)
    requires Consistent(book) && qty > 0.0
    ensures Consistent(ApplyFill(book, side, qty, price).book)
  {
    hide CloseAll, CloseFront, Dust, RawBasis, SumQty;
    CloseAllLots(side, qty, price, StartClosing(book, qty));
    FillKeepsLots(book, side, qty, price);
  }

  /** Any fill splits into a closed and an opened part, up to dust. */
  lemma FillSplits(book: Book, side: Side, qty: real, price: real)
    requires qty > 0.0
    ensures var e := ApplyFill(book, side, qty, price);
      && e.closeQty >= 0.0 && e.openQty >= 0.0
      && 0.0 <= qty - e.closeQty - e.openQty <= Eps(Max(1.0, qty))
      && (e.openQty > 0.0 ==> e.closeQty + e.openQty == qty)
  {
    hide CloseAll, CloseFront, CashKept;
    StartKept(book, side, qty, price);
    CloseAllKeeps(side, qty, price, StartClosing(book, qty));
  }

  /** The price of the dust that was neither closed nor opened. */
  function Unexecuted(qty: real, price: real, c: Closing): real { price * Residual(qty, c) }

  /** What setting a dust-sized basis to zero adds to the basis. */
  function Zeroed(basis: real, side: Side, qty: real, price: real, c: Closing): real {
    OpenRest(basis, side, qty, price, c).book.basis - RawBasis(basis, side, price, c)
  }

  /** What the fill's cash, basis and realized profit leave unbalanced. */
  function DriftOf(basis: real, side: Side, qty: real, price: real, c: Closing): real {
    -Signed(side, Unexecuted(qty, price, c)) + Zeroed(basis, side, qty, price, c)
  }

  function Drift(book: Book, side: Side, qty: real, price: real): real {
    DriftOf(book.basis, side, qty, price, Closed(book, side, qty, price))
  }

  lemma Distribute(price: real, a: real, b: real, c: real)
    ensures price * (a + b + c) == price * a + price * b + price * c
  {
  }

  lemma SignedTimes(side: Side, x: real, price: real)
    ensures Signed(side, x) * price == Signed(side, price * x)
    ensures x * price == price * x
  {
  }

  /** On plain amounts: what was paid is what was closed, opened and left over. */
  lemma BalanceAlgebra(side: Side, paid: real, closing: real, opening: real, left: real, basisDelta: real,
                       realized: real)
    requires paid == closing + opening + left
    requires basisDelta - realized == Signed(side, closing)
    ensures -Signed(side, paid) + (basisDelta + Signed(side, opening)) - realized == -Signed(side, left)
  {
  }

  lemma RawIsDelta(basis: real, side: Side, price: real, c: Closing)
    requires c.remaining >= 0.0
    ensures RawBasis(basis, side, price, c) == basis + (c.basisDelta + Signed(side, price * c.remaining))
  {
    SignedTimes(side, c.remaining, price);
    if c.remaining == 0.0 { assert price * c.remaining == 0.0; }
  }

  lemma RawBalances(basis: real, side: Side, qty: real, price: real, c: Closing, left: real)
    requires left == Residual(qty, c) && c.remaining >= 0.0
    requires c.basisDelta - c.realized == Signed(side, price * c.closeQty)
    ensures -Signed(side, qty * price) + (RawBasis(basis, side, price, c) - basis) - c.realized
         == -Signed(side, price * left)
  {
    Distribute(price, c.closeQty, c.remaining, left);
    assert c.closeQty + c.remaining + left == qty;
    SignedTimes(side, qty, price);
    RawIsDelta(basis, side, price, c);
    BalanceAlgebra(side, price * qty, price * c.closeQty, price * c.remaining, price * left, c.basisDelta, c.realized);
  }

  lemma ClosingBalances(basis: real, side: Side, qty: real, price: real, c: Closing)
    requires c.remaining >= 0.0 && CashKept(side, price, c)
    ensures var e := OpenRest(basis, side, qty, price, c);
      -Signed(side, qty * price) + (e.book.basis - basis) - e.realized == DriftOf(basis, side, qty, price, c)
  {
    hide Dust;
    RawBalances(basis, side, qty, price, c, Residual(qty, c));
  }

  /** Cash paid or received for the fill moves into basis and realized profit, up to drift.
      This holds on any book, whatever its lots. */
  lemma FillBalances(book: Book, side: Side, qty: real, price: real)
    requires qty > 0.0
    ensures var e := ApplyFill(book, side, qty, price);
      -Signed(side, qty * price) + (e.book.basis - book.basis) - e.realized == Drift(book, side, qty, price)
  {
    hide CloseAll, CloseFront, Dust;
    var c := Closed(book, side, qty, price);
    StartKept(book, side, qty, price);
    CloseAllKeeps(side, qty, price, StartClosing(book, qty));
    ClosingBalances(book.basis, side, qty, price, c);
  }

  lemma ScaleUp(price: real, a: real, b: real)
    requires price >= 0.0 && 0.0 <= a <= b
    ensures 0.0 <= price * a <= price * b
  {
  }

  lemma UnexecutedIsDust(qty: real, price: real, c: Closing)
    requires 0.0 <= Residual(qty, c) <= Eps(Max(1.0, qty)) && price >= 0.0
    ensures 0.0 <= Unexecuted(qty, price, c) <= price * Eps(Max(1.0, qty))
  {
    hide Residual, Eps, Max;
    ScaleUp(price, Residual(qty, c), Eps(Max(1.0, qty)));
  }

  lemma ZeroedIsDust(basis: real, side: Side, qty: real, price: real, c: Closing)
    ensures Abs(Zeroed(basis, side, qty, price, c))
         <= Dust(RawBasis(basis, side, price, c), OpenRest(basis, side, qty, price, c).book.net, qty, price)
  {
    DustPositive(RawBasis(basis, side, price, c), OpenRest(basis, side, qty, price, c).book.net, qty, price);
  }

  lemma SumWithin(side: Side, x: real, y: real, a: real, b: real)
    requires 0.0 <= x <= a && Abs(y) <= b
    ensures Abs(-Signed(side, x) + y) <= a + b
  {
  }

  lemma DriftBound(basis: real, side: Side, qty: real, price: real, c: Closing)
    requires 0.0 <= Residual(qty, c) <= Eps(Max(1.0, qty)) && price >= 0.0
    ensures Abs(DriftOf(basis, side, qty, price, c))
         <= price * Eps(Max(1.0, qty))
          + Dust(RawBasis(basis, side, price, c), OpenRest(basis, side, qty, price, c).book.net, qty, price)
  {
    hide Dust, RawBasis, OpenRest, Eps, Abs, Unexecuted, Zeroed;
    UnexecutedIsDust(qty, price, c);
    ZeroedIsDust(basis, side, qty, price, c);
    SumWithin(side, Unexecuted(qty, price, c), Zeroed(basis, side, qty, price, c), price * Eps(Max(1.0, qty)),
              Dust(RawBasis(basis, side, price, c), OpenRest(basis, side, qty, price, c).book.net, qty, price));
  }

  /** The price of one dust quantity plus one basis tolerance. */
  function DriftLimit(book: Book, side: Side, qty: real, price: real): real {
    price * Eps(Max(1.0, qty))
    + Dust(RawBasis(book.basis, side, price, Closed(book, side, qty, price)),
           ApplyFill(book, side, qty, price).book.net, qty, price)
  }

  /** On any book the drift of a fill is no larger. */
  lemma DriftIsDust(book: Book, side: Side, qty: real, price: real)
    requires qty > 0.0 && price >= 0.0
    ensures Abs(Drift(book, side, qty, price)) <= DriftLimit(book, side, qty, price)
  {
    hide CloseAll, CloseFront, Dust, Eps, RawBasis, CashKept;
    StartKept(book, side, qty, price);
    CloseAllKeeps(side, qty, price, StartClosing(book, qty));
    DriftBound(book.basis, side, qty, price, Closed(book, side, qty, price));
  }

  lemma AbsAdds(x: real, y: real, a: real, b: real)
    requires Abs(x) <= a && Abs(y) <= b
    ensures Abs(x + y) <= a + b
  {
  }

  lemma ZeroAbs()
    ensures Abs(0.0) == 0.0
  {
  }
}
