/** Runs over a fill list: in whole numbers the kernel is single-share trading on one queue
    per instrument; when the headline trade counter counts its CLOSE rows, for any numbers. */
module SpotRuns {
  import opened Wrappers
  import opened Ordering
  import opened SpotFifo
  import opened SpotUnits
  import opened SpotBasis
  import opened SpotKernel

  // ---- unit trading over a run --------------------------------------------------------

  /** One queue of single shares per instrument. */
  datatype Desk = Desk(queues: seq<seq<Unit>>, closes: nat, realized: real)

  ghost predicate WholeQty(f: Fill) {
    f.qty == f.qty.Floor as real && 0 < f.qty.Floor < LIMIT
  }

  /** Trades the fill one share at a time on its instrument's queue. */
  ghost function TradeFill(d: Desk, f: Fill): Desk
    requires 0 <= f.inst < |d.queues| && f.side.Some? && f.qty.Floor >= 0
  {
    var q := TradeMany(f.side.value, f.price, f.qty.Floor, Queue(d.queues[f.inst], 0, 0.0));
    Desk(d.queues[f.inst := q.units], d.closes + (if q.closeQty > 0 then 1 else 0), d.realized + (q.realized - f.fee))
  }

  /** The account's lots are whole, one-sided and of representable size. */
  ghost predicate Mirrors(a: Account, whole: seq<seq<WholeLot>>) {
    && |a.books| == |whole|
    && forall i :: 0 <= i < |whole| ==> MirrorsAt(a.books[i], whole[i])
  }

  ghost predicate MirrorsAt(book: Book, lots: seq<WholeLot>) {
    book.lots == Embed(lots) && Small(lots) && OneSide(lots)
  }

  ghost function UnitsOfAll(whole: seq<seq<WholeLot>>): seq<seq<Unit>> {
    seq(|whole|, i requires 0 <= i < |whole| => Units(whole[i]))
  }

  predicate IsClose(row: FillRow) { row.action == CLOSE }

  lemma CloseRows(a: Account, f: Fill)
    requires Valid(a, f)
    ensures Count(RowsOf(a, f), IsClose) == if EffectOn(a, f).closeQty > 0.0 then 1 else 0
  {
    hide ApplyFill;
    var e := EffectOn(a, f);
    var rows := RowsOf(a, f);
    if e.closeQty > 0.0 {
      if |rows| == 2 {
        assert rows == [rows[0], rows[1]];
        assert rows[1..] == [rows[1]];
        assert [rows[1]][1..] == [];
      } else {
        assert rows[1..] == [];
      }
    } else if |rows| > 0 {
      assert rows[1..] == [];
    }
  }

  lemma StepTradesUnits(a: Account, whole: seq<seq<WholeLot>>, d: Desk, f: Fill) returns (next: seq<seq<WholeLot>>)
    requires Mirrors(a, whole) && Valid(a, f) && WholeQty(f) && d.queues == UnitsOfAll(whole)
    ensures Mirrors(Step(a, f), next)
    ensures TradeFill(d, f).queues == UnitsOfAll(next)
    ensures Realized(Step(a, f)) - Realized(a) == TradeFill(d, f).realized - d.realized
    ensures Count(RowsOf(a, f), IsClose) == TradeFill(d, f).closes - d.closes
  {
    hide ApplyFill, WholeFill, TradeMany, Units;
    var side, n := f.side.value, f.qty.Floor;
    assert MirrorsAt(a.books[f.inst], whole[f.inst]);
    FillIsWhole(a.books[f.inst], whole[f.inst], side, n, f.price);
    FillIsUnitTrading(whole[f.inst], side, n, f.price);
    CompensationExact(a, f);
    CloseRows(a, f);
    next := whole[f.inst := WholeFill(whole[f.inst], side, n, f.price).lots];
    assert UnitsOfAll(next) == UnitsOfAll(whole)[f.inst := Units(next[f.inst])];
  }

  ghost function TradeAll(d: Desk, fills: seq<Fill>): Desk
    decreases |fills|
  {
    if fills == [] || !(0 <= fills[0].inst < |d.queues|) || fills[0].side.None? || fills[0].qty.Floor < 0 then d
    else TradeAll(TradeFill(d, fills[0]), fills[1..])
  }

  /** Over any fill list with whole quantities: after the run every instrument's lots are
      the shares left on its queue, realized profit is the consumed shares' gains less
      fees, and a CLOSE row was emitted for each fill that consumed a share. */
  lemma {:induction false} RunTradesUnits(b: Batch, whole: seq<seq<WholeLot>>, d: Desk, fills: seq<Fill>)
    returns (final: seq<seq<WholeLot>>)
    requires Mirrors(b.account, whole) && d.queues == UnitsOfAll(whole)
    requires Run(b, fills).Success? && forall i :: 0 <= i < |fills| ==> WholeQty(fills[i])
    ensures Mirrors(Run(b, fills).value.account, final)
    ensures TradeAll(d, fills).queues == UnitsOfAll(final)
    ensures Realized(Run(b, fills).value.account) - Realized(b.account) == TradeAll(d, fills).realized - d.realized
    ensures Count(Run(b, fills).value.rows, IsClose) - Count(b.rows, IsClose) == TradeAll(d, fills).closes - d.closes
    decreases |fills|
  {
    hide Step, EventOf, RowsOf, Mirrors, UnitsOfAll, TradeFill, Realized;
    if fills == [] {
      return whole;
    }
    var f := fills[0];
    assert WholeQty(f);
    var next := StepTradesUnits(b.account, whole, d, f);
    DeskReady(b.account, whole, d, f);
    CountConcat(b.rows, RowsOf(b.account, f), IsClose);
    final := RunTradesUnits(Extend(b, f), next, TradeFill(d, f), fills[1..]);
  }

  lemma DeskReady(a: Account, whole: seq<seq<WholeLot>>, d: Desk, f: Fill)
    requires Mirrors(a, whole) && Valid(a, f) && WholeQty(f) && d.queues == UnitsOfAll(whole)
    ensures 0 <= f.inst < |d.queues| && f.side.Some? && f.qty.Floor >= 0
  {
  }

  // ---- headline trades -------------------------------------------------------------------

  /** `ledgr_headline_closed_trade_count`'s state: a signed position per instrument. */
  datatype Headline = Headline(positions: seq<real>, closed: nat)

  predicate OppositeSigns(x: real, y: real) {
    (x > 0.0 && y < 0.0) || (x < 0.0 && y > 0.0)
  }

  function HeadlineFill(h: Headline, f: Fill): Headline
    requires 0 <= f.inst < |h.positions| && f.side.Some?
  {
    var delta := Signed(f.side.value, f.qty);
    var before := h.positions[f.inst];
    var tol := Dust(before, delta, f.qty, f.price);
    var after := before + delta;
    Headline(h.positions[f.inst := if Abs(after) <= tol then 0.0 else after],
             h.closed + if Abs(before) > tol && OppositeSigns(before, delta) then 1 else 0)
  }

  /** What the counter reads of an event: a fill, or the position change of another kind. */
  datatype Seen = FillSeen(fill: Fill) | Moved(inst: Option<nat>, delta: real)

  predicate Countable(count: nat, f: Fill) {
    0 <= f.inst < count && f.side.Some? && f.qty > 0.0 && f.price > 0.0
  }

  /** One event; a malformed fill or a position change of no instrument stops the count. */
  function HeadlineEvent(h: Headline, e: Seen): Option<Headline> {
    match e
    case FillSeen(f) => if Countable(|h.positions|, f) then Some(HeadlineFill(h, f)) else None
    case Moved(inst, delta) =>
      if delta == 0.0 then Some(h)
      else if inst.None? || inst.value >= |h.positions| then None
      else
        var before := h.positions[inst.value];
        var after := before + delta;
        var kept := if Abs(after) <= Dust(before, delta, after, after) then 0.0 else after;
        Some(h.(positions := h.positions[inst.value := kept]))
  }

  function HeadlineAll(h: Headline, events: seq<Seen>): Option<nat>
    decreases |events|
  {
    if events == [] then Some(h.closed)
    else
      var next := HeadlineEvent(h, events[0]);
      if next.None? then None else HeadlineAll(next.value, events[1..])
  }

  /** The loop over events, from positions that are all zero. */
  method HeadlineCount(count: nat, events: seq<Seen>) returns (closed: Option<nat>)
    ensures closed == HeadlineAll(Headline(seq(count, _ => 0.0), 0), events)
  {
    var h := Headline(seq(count, _ => 0.0), 0);
    ghost var start := h;
    for i := 0 to |events|
      invariant HeadlineAll(start, events) == HeadlineAll(h, events[i..])
    {
      assert events[i..][0] == events[i] && events[i..][1..] == events[i + 1..];
      var next := HeadlineEvent(h, events[i]);
      if next.None? {
        return None;
      }
      h := next.value;
    }
    return Some(h.closed);
  }

  /** What stops the count: a fill without a known instrument or side, or without a positive quantity
      and price, or a position change of no known instrument. */
  predicate Malformed(count: nat, e: Seen) {
    match e
    case FillSeen(f) => f.inst < 0 || f.inst >= count || f.side == None || f.qty <= 0.0 || f.price <= 0.0
    case Moved(inst, delta) => delta != 0.0 && (inst == None || inst.value >= count)
  }

  /** It stops exactly on a ledger that holds such an event. */
  lemma {:induction false} HeadlineStops(h: Headline, events: seq<Seen>)
    ensures HeadlineAll(h, events) == None <==> exists i :: 0 <= i < |events| && Malformed(|h.positions|, events[i])
    decreases |events|
  {
    if events != [] {
      assert forall i :: 1 <= i < |events| ==> events[i] == events[1..][i - 1];
      if HeadlineEvent(h, events[0]).Some? {
        var next := HeadlineEvent(h, events[0]).value;
        HeadlineStops(next, events[1..]);
        if i :| 0 <= i < |events[1..]| && Malformed(|next.positions|, events[1..][i]) {
          assert Malformed(|h.positions|, events[i + 1]);
        }
      } else {
        assert Malformed(|h.positions|, events[0]);
      }
    }
  }

  /** A ledger of fills only. */
  function SeenFills(fills: seq<Fill>): (events: seq<Seen>)
    ensures |events| == |fills| && forall i :: 0 <= i < |fills| ==> events[i] == FillSeen(fills[i])
  {
    seq(|fills|, i requires 0 <= i < |fills| => FillSeen(fills[i]))
  }

  /** The counter's tolerance stays below one share: its price and position, too, are below 2^52. */
  ghost predicate Representable(a: Account, f: Fill)
    requires Valid(a, f)
  {
    Abs(a.books[f.inst].net) <= (LIMIT - 1) as real && f.price <= (LIMIT - 1) as real
  }

  ghost predicate RunRepresentable(a: Account, fills: seq<Fill>)
    decreases |fills|
  {
    fills == [] || (Valid(a, fills[0]) && Representable(a, fills[0]) && RunRepresentable(Step(a, fills[0]), fills[1..]))
  }

  lemma {:induction false} WholeSum(lots: seq<WholeLot>) returns (n: int)
    requires OneSide(lots)
    ensures SumQty(Embed(lots)) == n as real
    ensures lots == [] ==> n == 0
    ensures lots != [] ==> (n > 0 <==> lots[0].qty > 0) && n != 0
    decreases |lots|
  {
    if lots == [] {
      return 0;
    }
    assert Embed(lots)[1..] == Embed(lots[1..]);
    var m := WholeSum(lots[1..]);
    n := lots[0].qty + m;
  }

  /** Lots of one sign sum to that sign. */
  lemma {:induction false} SumHasSign(lots: seq<Lot>)
    requires OneSign(lots)
    ensures lots == [] ==> SumQty(lots) == 0.0
    ensures lots != [] && lots[0].qty > 0.0 ==> SumQty(lots) > 0.0
    ensures lots != [] && lots[0].qty < 0.0 ==> SumQty(lots) < 0.0
  {
    if lots != [] {
      assert forall i :: 0 <= i < |lots[1..]| ==> lots[1..][i] == lots[i + 1];
      SumHasSign(lots[1..]);
    }
  }

  /** A fill closes something exactly when the position it meets has the other sign. */
  lemma ClosesWhenOpposite(book: Book, side: Side, qty: real, price: real)
    requires Consistent(book) && qty > 0.0
    ensures ApplyFill(book, side, qty, price).closeQty > 0.0 <==> OppositeSigns(book.net, Signed(side, qty))
  {
    hide CloseAll, CloseFront, RawBasis, Dust, SumQty;
    SumHasSign(book.lots);
    var start := StartClosing(book, qty);
    CloseAllUnrolls(side, qty, price, start);
    if CanClose(side, start) {
      CloseFrontTakes(side, qty, price, start);
      ClosedGrows(side, qty, price, CloseFront(side, qty, price, start));
    }
  }

  lemma CloseFrontTakes(side: Side, qty: real, price: real, c: Closing)
    requires CanClose(side, c)
    ensures CloseFront(side, qty, price, c).closeQty > c.closeQty
  {
  }

  lemma HeadlineTolerance(before: real, side: Side, qty: real, price: real)
    requires Abs(before) <= (LIMIT - 1) as real
    requires 0.0 < qty <= (LIMIT - 1) as real && 0.0 < price <= (LIMIT - 1) as real
    ensures 0.0 < Dust(before, Signed(side, qty), qty, price) < 1.0
  {
    DustPositive(before, Signed(side, qty), qty, price);
    DustAtMost(before, Signed(side, qty), qty, price, (LIMIT - 1) as real);
  }

  /** The counter's positions are the kernel's nets. */
  ghost predicate SamePositions(a: Account, h: Headline) {
    |h.positions| == |a.books| && forall i :: 0 <= i < |a.books| ==> h.positions[i] == a.books[i].net
  }

  /** The counter's tolerance for a fill on this position. */
  function FillDust(before: real, f: Fill): real
    requires f.side.Some?
  {
    Dust(before, Signed(f.side.value, f.qty), f.qty, f.price)
  }

  /** The tolerance swallows the position being closed. */
  predicate HidesClosing(before: real, f: Fill)
    requires f.side.Some?
  {
    OppositeSigns(before, Signed(f.side.value, f.qty)) && Abs(before) <= FillDust(before, f)
  }

  /** The tolerance swallows a position the kernel still holds, or keeps one that the kernel's
      own tolerance, in dropping a lot or a remainder, has moved. */
  predicate MisplacesRest(book: Book, f: Fill)
    requires f.side.Some?
  {
    var after, slip := book.net + Signed(f.side.value, f.qty), Slip(book, f.side.value, f.qty, f.price);
    if Abs(after) <= FillDust(book.net, f) then after + slip != 0.0 else slip != 0.0
  }

  predicate Hidden(book: Book, f: Fill)
    requires f.side.Some?
  {
    HidesClosing(book.net, f) || MisplacesRest(book, f)
  }

  /** The counter counts this fill as the kernel does. */
  ghost predicate CountAgrees(a: Account, h: Headline, f: Fill)
    requires Valid(a, f) && |h.positions| == |a.books|
  {
    HeadlineFill(h, f).closed - h.closed == Count(RowsOf(a, f), IsClose)
  }

  /** And it is left with the kernel's positions. */
  ghost predicate StepAgrees(a: Account, h: Headline, f: Fill)
    requires Valid(a, f) && |h.positions| == |a.books|
  {
    CountAgrees(a, h, f) && SamePositions(Step(a, f), HeadlineFill(h, f))
  }

  /** On any sound account with equal positions, any fill is counted right exactly when the
      tolerance does not swallow the position it closes. */
  lemma CountAgreesUnlessHidden(a: Account, h: Headline, f: Fill)
    requires Sound(a) && SamePositions(a, h) && Valid(a, f)
    ensures CountAgrees(a, h, f) <==> !HidesClosing(a.books[f.inst].net, f)
  {
    hide ApplyFill, Dust, Abs, Signed, OppositeSigns;
    assert Consistent(a.books[f.inst]);
    ClosesWhenOpposite(a.books[f.inst], f.side.value, f.qty, f.price);
    CloseRows(a, f);
  }

  /** And it leaves the kernel's positions exactly when neither tolerance misplaces the rest. */
  lemma PositionAgreesUnlessHidden(a: Account, h: Headline, f: Fill)
    requires Sound(a) && SamePositions(a, h) && Valid(a, f)
    ensures SamePositions(Step(a, f), HeadlineFill(h, f)) <==> !MisplacesRest(a.books[f.inst], f)
  {
    hide ApplyFill, Dust, Abs, Signed, Slip, SumQty;
    assert Consistent(a.books[f.inst]);
    FillMovesNet(a.books[f.inst], f.side.value, f.qty, f.price);
    OnlyFilledMoves(a, h, f);
  }

  lemma OnlyFilledMoves(a: Account, h: Headline, f: Fill)
    requires SamePositions(a, h) && Valid(a, f)
    ensures SamePositions(Step(a, f), HeadlineFill(h, f))
       <==> HeadlineFill(h, f).positions[f.inst] == EffectOn(a, f).book.net
  {
    hide ApplyFill, Dust, Abs, Signed;
    var next := HeadlineFill(h, f);
    assert Step(a, f).books[f.inst] == EffectOn(a, f).book;
    forall i | 0 <= i < |a.books| && i != f.inst ensures next.positions[i] == Step(a, f).books[i].net {
      assert h.positions[i] == a.books[i].net;
    }
  }

  lemma NetIsWhole(book: Book, lots: seq<WholeLot>, m: int)
    requires MirrorsAt(book, lots) && Consistent(book) && SumQty(Embed(lots)) == m as real
    ensures book.net == m as real
  {
  }

  /** Below one, a tolerance only hides a whole number that is zero. */
  lemma WholeIsZero(m: int, tol: real)
    requires 0.0 < tol < 1.0
    ensures Abs(m as real) <= tol <==> m == 0
  {
  }

  /** Whole numbers below 2^52, price included, are never swallowed. */
  lemma RepresentableShows(a: Account, whole: seq<seq<WholeLot>>, f: Fill)
    requires Sound(a) && Mirrors(a, whole) && Valid(a, f) && WholeQty(f) && Representable(a, f)
    ensures !Hidden(a.books[f.inst], f)
  {
    hide ApplyFill, Dust, Small, OneSide, Embed, Abs, Slip, SumQty, Unexecuted, FillDrops;
    var book, side, n := a.books[f.inst], f.side.value, f.qty.Floor;
    assert MirrorsAt(book, whole[f.inst]);
    assert Consistent(book);
    var m := WholeSum(whole[f.inst]);
    NetIsWhole(book, whole[f.inst], m);
    WholeSlipsNothing(book, whole[f.inst], side, n, f.price);
    HeadlineTolerance(book.net, side, f.qty, f.price);
    WholeIsZero(m + SignedInt(side, n), Dust(book.net, Signed(side, f.qty), f.qty, f.price));
    WholeIsZero(m, Dust(book.net, Signed(side, f.qty), f.qty, f.price));
  }

  /** No tolerance hides or misplaces a position anywhere along the run. */
  ghost predicate NeverHidden(a: Account, fills: seq<Fill>)
    decreases |fills|
  {
    fills != [] ==>
      && Valid(a, fills[0]) && !Hidden(a.books[fills[0].inst], fills[0])
      && NeverHidden(Step(a, fills[0]), fills[1..])
  }

  /** The counter agrees with the kernel, in count and positions, on every fill of the run. */
  ghost predicate RunAgrees(a: Account, h: Headline, fills: seq<Fill>)
    requires |h.positions| == |a.books|
    decreases |fills|
  {
    fills != [] ==>
      && Valid(a, fills[0]) && StepAgrees(a, h, fills[0])
      && RunAgrees(Step(a, fills[0]), HeadlineFill(h, fills[0]), fills[1..])
  }

  /** Over any fills from any sound account, the counter agrees with the kernel in count and
      positions, fill by fill, exactly when no tolerance hides or misplaces a position. */
  lemma {:induction false} HeadlineAgreesUnlessHidden(b: Batch, h: Headline, fills: seq<Fill>)
    requires Sound(b.account) && SamePositions(b.account, h) && Run(b, fills).Success?
    ensures RunAgrees(b.account, h, fills) <==> NeverHidden(b.account, fills)
    decreases |fills|
  {
    hide Step, EventOf, RowsOf, Sound, SamePositions, HeadlineFill, HidesClosing, MisplacesRest;
    hide CountAgrees;
    if fills != [] {
      var f := fills[0];
      PositionsKept(b.account, h, f);
      CountAgreesUnlessHidden(b.account, h, f);
      PositionAgreesUnlessHidden(b.account, h, f);
      if StepAgrees(b.account, h, f) {
        StepKeepsSound(b.account, f);
        HeadlineAgreesUnlessHidden(Extend(b, f), HeadlineFill(h, f), fills[1..]);
      }
    }
  }

  /** Agreeing throughout, the counter counts exactly the kernel's CLOSE rows. */
  lemma {:induction false} AgreementCounts(b: Batch, h: Headline, fills: seq<Fill>)
    requires |h.positions| == |b.account.books| && Run(b, fills).Success? && RunAgrees(b.account, h, fills)
    ensures HeadlineAll(h, SeenFills(fills)).Some?
    ensures HeadlineAll(h, SeenFills(fills)).value - h.closed
         == Count(Run(b, fills).value.rows, IsClose) - Count(b.rows, IsClose)
    decreases |fills|
  {
    hide Step, EventOf, RowsOf, HeadlineFill;
    if fills != [] {
      assert SeenFills(fills)[1..] == SeenFills(fills[1..]);
      CountConcat(b.rows, RowsOf(b.account, fills[0]), IsClose);
      AgreementCounts(Extend(b, fills[0]), HeadlineFill(h, fills[0]), fills[1..]);
    }
  }

  lemma {:induction false} RepresentableNeverHidden(b: Batch, whole: seq<seq<WholeLot>>, fills: seq<Fill>)
    requires Sound(b.account) && Mirrors(b.account, whole)
    requires Run(b, fills).Success? && RunRepresentable(b.account, fills)
    requires forall i :: 0 <= i < |fills| ==> WholeQty(fills[i])
    ensures NeverHidden(b.account, fills)
    decreases |fills|
  {
    hide Step, EventOf, RowsOf, Mirrors, Sound, Representable, HidesClosing, MisplacesRest;
    if fills != [] {
      var f := fills[0];
      assert WholeQty(f);
      RepresentableShows(b.account, whole, f);
      StepKeepsSound(b.account, f);
      var next := StepTradesUnits(b.account, whole, Desk(UnitsOfAll(whole), 0, 0.0), f);
      RepresentableNeverHidden(Extend(b, f), next, fills[1..]);
    }
  }

  /** In whole numbers below 2^52 the headline counter counts exactly the kernel's CLOSE rows. */
  lemma HeadlineCountsCloses(b: Batch, whole: seq<seq<WholeLot>>, h: Headline, fills: seq<Fill>)
    requires Sound(b.account) && Mirrors(b.account, whole) && SamePositions(b.account, h)
    requires Run(b, fills).Success? && RunRepresentable(b.account, fills)
    requires forall i :: 0 <= i < |fills| ==> WholeQty(fills[i])
    ensures HeadlineAll(h, SeenFills(fills)).Some?
    ensures HeadlineAll(h, SeenFills(fills)).value - h.closed
         == Count(Run(b, fills).value.rows, IsClose) - Count(b.rows, IsClose)
  {
    RepresentableNeverHidden(b, whole, fills);
    HeadlineAgreesUnlessHidden(b, h, fills);
    AgreementCounts(b, h, fills);
  }

  lemma PositionsKept(a: Account, h: Headline, f: Fill)
    requires SamePositions(a, h) && Valid(a, f)
    ensures |h.positions| == |a.books| == |Step(a, f).books| == |HeadlineFill(h, f).positions|
  {
  }

  const TWO_TO_53: real := 9007199254740992.0

  /** One instrument, nothing held. */
  const FLAT_ACCOUNT: Account := Account([Book([], 0.0, 0.0)], 0.0, 0.0, 0.0, 0.0, 1)

  const ONE_SHARE_TRIP: seq<Fill> := [Fill(0, Some(Buy), 1.0, 1.0, 0.0, 0), Fill(0, Some(Sell), 1.0, TWO_TO_53, 0.0, 1)]

  lemma BuyFirstShare()
    ensures ApplyFill(Book([], 0.0, 0.0), Buy, 1.0, 1.0) == Effect(Book([Lot(1.0, 1.0)], 1.0, 1.0), 0.0, 1.0, 0.0)
  {
    hide CloseAll, Dust;
    var c := Closing([], 0.0, 1.0, 0.0, 0.0, 0.0);
    CloseAllUnrolls(Buy, 1.0, 1.0, c);
    assert [] + [Lot(1.0, 1.0)] == [Lot(1.0, 1.0)];
    DustAtMost(1.0, 1.0, 1.0, 1.0, 1.0);
  }

  lemma SellItHigh()
    ensures ApplyFill(Book([Lot(1.0, 1.0)], 1.0, 1.0), Sell, 1.0, TWO_TO_53).closeQty == 1.0
    ensures ApplyFill(Book([Lot(1.0, 1.0)], 1.0, 1.0), Sell, 1.0, TWO_TO_53).openQty == 0.0
  {
    var start := StartClosing(Book([Lot(1.0, 1.0)], 1.0, 1.0), 1.0);
    var turn := CloseFront(Sell, 1.0, TWO_TO_53, start);
    assert turn.closeQty == 1.0 && turn.remaining == 0.0;
    CloseAllUnrolls(Sell, 1.0, TWO_TO_53, start);
    CloseAllUnrolls(Sell, 1.0, TWO_TO_53, turn);
  }

  lemma TwoEvents(h: Headline, e: Seen, f: Seen)
    requires HeadlineEvent(h, e).Some? && HeadlineEvent(HeadlineEvent(h, e).value, f).Some?
    ensures HeadlineAll(h, [e, f]) == Some(HeadlineEvent(HeadlineEvent(h, e).value, f).value.closed)
  {
    hide HeadlineEvent;
    var first := HeadlineEvent(h, e).value;
    var second := HeadlineEvent(first, f).value;
    assert HeadlineAll(second, []) == Some(second.closed);
    assert [f][1..] == [];
    assert HeadlineAll(first, [f]) == Some(second.closed);
    assert [e, f][1..] == [f];
  }

  lemma CounterMisses()
    ensures HeadlineAll(Headline([0.0], 0), SeenFills(ONE_SHARE_TRIP)) == Some(0)
  {
    var buy, sell := ONE_SHARE_TRIP[0], ONE_SHARE_TRIP[1];
    assert SeenFills(ONE_SHARE_TRIP) == [FillSeen(buy), FillSeen(sell)];
    assert HeadlineFill(Headline([0.0], 0), buy) == Headline([1.0], 0);
    assert HeadlineFill(Headline([1.0], 0), sell).closed == 0;
    TwoEvents(Headline([0.0], 0), FillSeen(buy), FillSeen(sell));
  }

  lemma TwoFills(b: Batch, f: Fill, g: Fill)
    requires Valid(b.account, f) && Valid(Extend(b, f).account, g)
    ensures Run(b, [f, g]) == Success(Extend(Extend(b, f), g))
  {
    hide Extend, Check;
    var first, second := Extend(b, f), Extend(Extend(b, f), g);
    assert Run(second, []) == Success(second);
    assert [g][1..] == [];
    assert Run(first, [g]) == Success(second);
    assert [f, g][1..] == [g];
  }

  lemma ClosesOfTwo(b: Batch, f: Fill, g: Fill)
    requires Valid(b.account, f) && Valid(Extend(b, f).account, g) && b.rows == []
    ensures Count(Extend(Extend(b, f), g).rows, IsClose)
         == (if EffectOn(b.account, f).closeQty > 0.0 then 1 else 0)
          + (if EffectOn(Extend(b, f).account, g).closeQty > 0.0 then 1 else 0)
  {
    hide Step, EventOf, RowsOf, EffectOn;
    CloseRows(b.account, f);
    CloseRows(Extend(b, f).account, g);
    assert [] + RowsOf(b.account, f) == RowsOf(b.account, f);
    CountConcat(RowsOf(b.account, f), RowsOf(Extend(b, f).account, g), IsClose);
  }

  lemma ExtendBooks(b: Batch, f: Fill)
    requires Valid(b.account, f)
    ensures Extend(b, f).account.books == b.account.books[f.inst := EffectOn(b.account, f).book]
  {
    hide ApplyFill, EventOf, RowsOf, CashDelta;
  }

  lemma TripIsValid(a: Account)
    requires |a.books| == 1
    ensures Valid(a, ONE_SHARE_TRIP[0]) && Valid(a, ONE_SHARE_TRIP[1])
  {
  }

  /** The bought share is held, and the sale of it is accepted. */
  lemma HeldAfterBuying()
    ensures var start := Batch(FLAT_ACCOUNT, [], []);
      && Valid(start.account, ONE_SHARE_TRIP[0])
      && Extend(start, ONE_SHARE_TRIP[0]).account.books == [Book([Lot(1.0, 1.0)], 1.0, 1.0)]
      && Valid(Extend(start, ONE_SHARE_TRIP[0]).account, ONE_SHARE_TRIP[1])
  {
    hide ApplyFill, Extend, Check;
    var start := Batch(FLAT_ACCOUNT, [], []);
    BuyFirstShare();
    TripIsValid(start.account);
    ExtendBooks(start, ONE_SHARE_TRIP[0]);
    assert [Book([], 0.0, 0.0)][0 := Book([Lot(1.0, 1.0)], 1.0, 1.0)] == [Book([Lot(1.0, 1.0)], 1.0, 1.0)];
    TripIsValid(Extend(start, ONE_SHARE_TRIP[0]).account);
  }

  lemma KernelCloses()
    ensures Run(Batch(FLAT_ACCOUNT, [], []), ONE_SHARE_TRIP).Success?
    ensures Count(Run(Batch(FLAT_ACCOUNT, [], []), ONE_SHARE_TRIP).value.rows, IsClose) == 1
  {
    hide ApplyFill, Extend, Run, Check, IsClose;
    var buy, sell := ONE_SHARE_TRIP[0], ONE_SHARE_TRIP[1];
    var start := Batch(FLAT_ACCOUNT, [], []);
    BuyFirstShare();
    SellItHigh();
    HeldAfterBuying();
    TwoFills(start, buy, sell);
    ClosesOfTwo(start, buy, sell);
    assert ONE_SHARE_TRIP == [buy, sell];
    assert EffectOn(start.account, buy).closeQty == 0.0;
    assert EffectOn(Extend(start, buy).account, sell).closeQty == 1.0;
  }

  /** Without a bound on the price the two totals part ways. From flat, one share is bought
      at 1 and sold at 2^53: the kernel closes it, and the counter counts nothing. */
  lemma HeadlineMissesHighPrice()
    ensures HeadlineAll(Headline([0.0], 0), SeenFills(ONE_SHARE_TRIP)) == Some(0)
    ensures Run(Batch(FLAT_ACCOUNT, [], []), ONE_SHARE_TRIP).Success?
    ensures Count(Run(Batch(FLAT_ACCOUNT, [], []), ONE_SHARE_TRIP).value.rows, IsClose) == 1
  {
    CounterMisses();
    KernelCloses();
  }
}
