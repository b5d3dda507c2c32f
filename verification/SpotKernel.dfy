/** `ledgr_cpp_spot_fifo_batch`: a batch of fills over all instruments, with its event
    and fill rows, and the conservation laws every run obeys. */
module SpotKernel {
  import opened Wrappers
  import opened SpotFifo
  import opened SpotBasis

  /** A proposed fill; `side` is missing when its text is neither BUY nor SELL. */
  datatype Fill = Fill(inst: int, side: Option<Side>, qty: real, price: real, fee: real, ts: int)

  /** What the kernel carries between fills. `comp` is the compensation term of `realized`. */
  datatype Account = Account(books: seq<Book>, total: real, realized: real, comp: real, cash: real, nextSeq: nat)

  datatype EventRow = EventRow(
    eventSeq: nat, inst: int, side: Side, qty: real, price: real, fee: real, ts: int,
    cashDelta: real, positionDelta: real, realized: real, costBasis: real)

  datatype Action = CLOSE | OPEN

  datatype FillRow = FillRow(
    eventSeq: nat, ts: int, inst: int, side: Side, qty: real, price: real, fee: real, realized: real, action: Action)

  datatype Refusal = BadInstrument | BadSide | BadQty | BadPrice | BadFee

  /** The kernel's checks on one fill, in order. */
  function Check(count: nat, f: Fill): Option<Refusal> {
    if !(0 <= f.inst < count) then Some(BadInstrument)
    else if f.side.None? then Some(BadSide)
    else if f.qty <= 0.0 then Some(BadQty)
    else if f.price <= 0.0 then Some(BadPrice)
    else if f.fee < 0.0 then Some(BadFee)
    else None
  }

  predicate Valid(a: Account, f: Fill) { Check(|a.books|, f).None? }

  function EffectOn(a: Account, f: Fill): Effect
    requires Valid(a, f)
  {
    ApplyFill(a.books[f.inst], f.side.value, f.qty, f.price)
  }

  function CashDelta(side: Side, qty: real, price: real, fee: real): real {
    if side.Buy? then -(qty * price + fee) else qty * price - fee
  }

  /** Books one fill's effect: lots, net and basis of its instrument, and the compensated
      realized total. Cash is the caller's. */
  function Settle(a: Account, inst: nat, e: Effect, fee: real): Account
    requires inst < |a.books|
  {
    var y := (e.realized - fee) - a.comp;
    var t := a.realized + y;
    Account(a.books[inst := e.book], a.total - a.books[inst].basis + e.book.basis,
            t, (t - a.realized) - y, a.cash, a.nextSeq)
  }

  /** The account after one fill. */
  function Step(a: Account, f: Fill): Account
    requires Valid(a, f)
  {
    Settle(a, f.inst, EffectOn(a, f), f.fee)
      .(cash := a.cash + CashDelta(f.side.value, f.qty, f.price, f.fee), nextSeq := a.nextSeq + 1)
  }

  function EventOf(a: Account, f: Fill): EventRow
    requires Valid(a, f)
  {
    var after := Step(a, f);
    EventRow(a.nextSeq, f.inst, f.side.value, f.qty, f.price, f.fee, f.ts,
             CashDelta(f.side.value, f.qty, f.price, f.fee), Signed(f.side.value, f.qty), after.realized, after.total)
  }

  /** The part of the fee charged to the closing leg. */
  function CloseFee(fee: real, closeQty: real, openQty: real): real
    requires closeQty > 0.0 ==> closeQty + openQty != 0.0
  {
    if closeQty > 0.0 then fee * closeQty / (closeQty + openQty) else 0.0
  }

  function RowsFor(eventSeq: nat, f: Fill, e: Effect): seq<FillRow>
    requires f.side.Some? && e.openQty >= 0.0
  {
    var closeFee := CloseFee(f.fee, e.closeQty, e.openQty);
    (if e.closeQty > 0.0 then
       [FillRow(eventSeq, f.ts, f.inst, f.side.value, e.closeQty, f.price, closeFee, e.realized, CLOSE)] else [])
    + (if e.openQty > 0.0 then
       [FillRow(eventSeq, f.ts, f.inst, f.side.value, e.openQty, f.price, f.fee - closeFee, 0.0, OPEN)] else [])
  }

  // ---- runs ------------------------------------------------------------------------

  datatype Batch = Batch(account: Account, events: seq<EventRow>, rows: seq<FillRow>)

  lemma OpenQtyNonNegative(book: Book, side: Side, qty: real, price: real)
    requires qty > 0.0
    ensures ApplyFill(book, side, qty, price).openQty >= 0.0
  {
    RemainingNonNegative(side, qty, price, StartClosing(book, qty));
  }

  lemma {:induction false} RemainingNonNegative(side: Side, qty: real, price: real, c: Closing)
    requires c.remaining >= 0.0
    ensures CloseAll(side, qty, price, c).remaining >= 0.0
    decreases |c.lots|, if c.remaining > 0.0 then 1 else 0
  {
    if CanClose(side, c) {
      CloseFrontProgress(side, qty, price, c);
      RemainingNonNegative(side, qty, price, CloseFront(side, qty, price, c));
    }
  }

  function RowsOf(a: Account, f: Fill): seq<FillRow>
    requires Valid(a, f)
  {
    OpenQtyNonNegative(a.books[f.inst], f.side.value, f.qty, f.price);
    RowsFor(a.nextSeq, f, EffectOn(a, f))
  }

  function Extend(b: Batch, f: Fill): Batch
    requires Valid(b.account, f)
  {
    Batch(Step(b.account, f), b.events + [EventOf(b.account, f)], b.rows + RowsOf(b.account, f))
  }

  /** The batch after a list of fills; a bad fill stops the whole call. */
  function Run(b: Batch, fills: seq<Fill>): Result<Batch, Refusal>
    decreases |fills|
  {
    if fills == [] then Success(b)
    else
      var bad := Check(|b.account.books|, fills[0]);
      if bad.Some? then Failure(bad.value) else Run(Extend(b, fills[0]), fills[1..])
  }

  /** What every fill of an accepted batch has: a known instrument and side, a quantity and a
      price above zero, and no negative fee. */
  predicate Proper(count: nat, f: Fill) {
    0 <= f.inst && f.inst < count && f.side != None && !(f.qty <= 0.0) && !(f.price <= 0.0) && !(f.fee < 0.0)
  }

  /** A batch is accepted exactly when all its fills are proper; otherwise the refusal is what
      is wrong with the first that is not. */
  lemma {:induction false} RunAccepts(b: Batch, fills: seq<Fill>)
    ensures Run(b, fills).Success? <==> forall i :: 0 <= i < |fills| ==> Proper(|b.account.books|, fills[i])
    ensures Run(b, fills).Failure? ==> exists i: nat :: RefusedAt(|b.account.books|, fills, i, Run(b, fills).error)
    decreases |fills|
  {
    hide EventOf, RowsOf, EffectOn;
    var count := |b.account.books|;
    if fills != [] {
      if Check(count, fills[0]).Some? {
        assert RefusedAt(count, fills, 0, Run(b, fills).error);
      } else {
        RunAccepts(Extend(b, fills[0]), fills[1..]);
        assert forall i :: 1 <= i < |fills| ==> fills[i] == fills[1..][i - 1];
        if Run(b, fills).Failure? {
          var i: nat :| RefusedAt(count, fills[1..], i, Run(b, fills).error);
          assert RefusedAt(count, fills, i + 1, Run(b, fills).error);
        }
      }
    }
  }

  /** Fill `i` is the first improper one, and this is wrong with it. */
  predicate RefusedAt(count: nat, fills: seq<Fill>, i: nat, refusal: Refusal) {
    && i < |fills| && !Proper(count, fills[i]) && Names(refusal, count, fills[i])
    && forall j :: 0 <= j < i ==> Proper(count, fills[j])
  }

  /** The refusal names something that is wrong with the fill. */
  predicate Names(refusal: Refusal, count: nat, f: Fill) {
    match refusal
    case BadInstrument => f.inst < 0 || f.inst >= count
    case BadSide => f.side == None
    case BadQty => f.qty <= 0.0
    case BadPrice => f.price <= 0.0
    case BadFee => f.fee < 0.0
  }

  // ---- invariants and conservation --------------------------------------------------

  function SumBasis(books: seq<Book>): real {
    if books == [] then 0.0 else books[0].basis + SumBasis(books[1..])
  }

  /** Every book is one-sided with its net summed, and the total is the books' basis. */
  ghost predicate Sound(a: Account) {
    && (forall i :: 0 <= i < |a.books| ==> Consistent(a.books[i]))
    && a.total == SumBasis(a.books)
  }

  lemma {:induction false} SumBasisUpdate(books: seq<Book>, i: nat, book: Book)
    requires i < |books|
    ensures SumBasis(books[i := book]) == SumBasis(books) - books[i].basis + book.basis
  {
    if i == 0 {
      assert books[0 := book][1..] == books[1..];
    } else {
      assert books[i := book][1..] == books[1..][i - 1 := book];
      SumBasisUpdate(books[1..], i - 1, book);
    }
  }

  lemma SettleKeepsSound(a: Account, inst: nat, side: Side, qty: real, price: real, fee: real)
    requires Sound(a) && inst < |a.books| && qty > 0.0
    ensures Sound(Settle(a, inst, ApplyFill(a.books[inst], side, qty, price), fee))
  {
    hide ApplyFill;
    var e := ApplyFill(a.books[inst], side, qty, price);
    FillKeepsConsistent(a.books[inst], side, qty, price);
    SumBasisUpdate(a.books, inst, e.book);
  }

  lemma StepKeepsSound(a: Account, f: Fill)
    requires Sound(a) && Valid(a, f)
    ensures Sound(Step(a, f))
  {
    hide ApplyFill;
    SettleKeepsSound(a, f.inst, f.side.value, f.qty, f.price, f.fee);
  }

  /** Realized profit without the rounding compensation still pending. */
  function Realized(a: Account): real { a.realized - a.comp }

  /** Cash plus cost basis, less realized profit. */
  function Invested(a: Account): real { a.cash + a.total - Realized(a) }

  function StepDrift(a: Account, f: Fill): real
    requires Valid(a, f)
  {
    Drift(a.books[f.inst], f.side.value, f.qty, f.price)
  }

  /** The compensated update adds exactly the fill's realized profit less its fee. */
  lemma CompensationExact(a: Account, f: Fill)
    requires Valid(a, f)
    ensures Realized(Step(a, f)) == Realized(a) + (EffectOn(a, f).realized - f.fee)
  {
    hide ApplyFill;
  }

  /** Booking a fill turns its cost, fee included, into basis and realized loss, up to dust. */
  lemma SettleConserves(a: Account, inst: nat, side: Side, qty: real, price: real, fee: real)
    requires inst < |a.books| && qty > 0.0
    ensures Invested(Settle(a, inst, ApplyFill(a.books[inst], side, qty, price), fee))
         == Invested(a) + Signed(side, qty * price) + fee + Drift(a.books[inst], side, qty, price)
  {
    hide ApplyFill, Drift;
    FillBalances(a.books[inst], side, qty, price);
  }

  lemma CashSigned(side: Side, qty: real, price: real, fee: real)
    ensures CashDelta(side, qty, price, fee) == -Signed(side, qty * price) - fee
  {
  }

  /** One fill moves cash between cash, basis and realized profit, up to dust. */
  lemma StepConserves(a: Account, f: Fill)
    requires Valid(a, f)
    ensures Invested(Step(a, f)) == Invested(a) + StepDrift(a, f)
  {
    hide ApplyFill, Drift, CashDelta;
    CashSigned(f.side.value, f.qty, f.price, f.fee);
    SettleConserves(a, f.inst, f.side.value, f.qty, f.price, f.fee);
  }

  /** The drift of a whole run. */
  function RunDrift(a: Account, fills: seq<Fill>): real
    decreases |fills|
  {
    if fills == [] || !Valid(a, fills[0]) then 0.0
    else StepDrift(a, fills[0]) + RunDrift(Step(a, fills[0]), fills[1..])
  }

  /** The sum of the fills' own limits on drift. */
  function RunDriftLimit(a: Account, fills: seq<Fill>): real
    decreases |fills|
  {
    if fills == [] || !Valid(a, fills[0]) then 0.0
    else
      var f := fills[0];
      DriftLimit(a.books[f.inst], f.side.value, f.qty, f.price) + RunDriftLimit(Step(a, f), fills[1..])
  }

  /** The drift of a run is no larger than one dust price and one tolerance per fill. */
  lemma {:induction false} RunDriftIsDust(a: Account, fills: seq<Fill>)
    ensures Abs(RunDrift(a, fills)) <= RunDriftLimit(a, fills)
    decreases |fills|
  {
    hide Step, Drift, DriftLimit, Abs;
    if fills == [] || !Valid(a, fills[0]) {
      ZeroAbs();
    } else {
      var f := fills[0];
      DriftIsDust(a.books[f.inst], f.side.value, f.qty, f.price);
      RunDriftIsDust(Step(a, f), fills[1..]);
      AbsAdds(StepDrift(a, f), RunDrift(Step(a, f), fills[1..]),
              DriftLimit(a.books[f.inst], f.side.value, f.qty, f.price), RunDriftLimit(Step(a, f), fills[1..]));
    }
  }

  /** Over any accepted fill list: a sound account stays sound, and from any account cash
      plus basis less realized profit moves only by the run's drift. */
  lemma {:induction false} RunConserves(b: Batch, fills: seq<Fill>)
    requires Run(b, fills).Success?
    ensures Sound(b.account) ==> Sound(Run(b, fills).value.account)
    ensures Invested(Run(b, fills).value.account) == Invested(b.account) + RunDrift(b.account, fills)
    decreases |fills|
  {
    hide Step, StepDrift, EventOf, RowsOf, Sound, Invested;
    if fills != [] {
      if Sound(b.account) { StepKeepsSound(b.account, fills[0]); }
      StepConserves(b.account, fills[0]);
      RunConserves(Extend(b, fills[0]), fills[1..]);
    }
  }

  // ---- rows --------------------------------------------------------------------------

  lemma WholeFee(fee: real, closeQty: real)
    requires closeQty > 0.0
    ensures fee * closeQty / closeQty == fee
  {
  }

  function SumFees(rows: seq<FillRow>): real {
    if rows == [] then 0.0 else rows[0].fee + SumFees(rows[1..])
  }

  /** The legs of a fill carry its whole fee, and their quantities are the fill's up to dust. */
  lemma LegsShareFee(a: Account, f: Fill)
    requires Sound(a) && Valid(a, f)
    ensures 1 <= |RowsOf(a, f)| <= 2
    ensures SumFees(RowsOf(a, f)) == f.fee
    ensures |RowsOf(a, f)| == 2 ==> RowsOf(a, f)[0].action == CLOSE && RowsOf(a, f)[1].action == OPEN
  {
    hide ApplyFill, Eps, Max;
    var e := EffectOn(a, f);
    FillSplits(a.books[f.inst], f.side.value, f.qty, f.price);
    SomeLeg(a.books[f.inst], f.side.value, f.qty, f.price);
    if e.openQty == 0.0 { WholeFee(f.fee, e.closeQty); }
    var rows := RowsOf(a, f);
    if |rows| == 2 {
      TwoFees(rows[0], rows[1]);
      assert rows == [rows[0], rows[1]];
    } else {
      OneFee(rows[0]);
      assert rows == [rows[0]];
    }
  }

  /** Every leg bears the fee in proportion to its quantity. */
  lemma FeeByQuantity(a: Account, f: Fill)
    requires Valid(a, f)
    ensures var e := EffectOn(a, f);
      forall i :: 0 <= i < |RowsOf(a, f)| ==>
        RowsOf(a, f)[i].fee * (e.closeQty + e.openQty) == f.fee * RowsOf(a, f)[i].qty
  {
    hide ApplyFill, Eps, Max;
    var e, rows := EffectOn(a, f), RowsOf(a, f);
    FillSplits(a.books[f.inst], f.side.value, f.qty, f.price);
    if e.closeQty > 0.0 {
      ShareOfFee(f.fee, e.closeQty, e.openQty);
      assert rows[0].fee == CloseFee(f.fee, e.closeQty, e.openQty);
    }
    if e.openQty > 0.0 { RestOfFee(f.fee, e.closeQty, e.openQty); }
  }

  lemma ShareOfFee(fee: real, closeQty: real, openQty: real)
    requires closeQty > 0.0 && openQty >= 0.0
    ensures CloseFee(fee, closeQty, openQty) * (closeQty + openQty) == fee * closeQty
  {
    QuotientTimes(fee * closeQty, closeQty + openQty);
  }

  lemma QuotientTimes(x: real, y: real)
    requires y != 0.0
    ensures x / y * y == x
  {
  }

  lemma RestOfFee(fee: real, closeQty: real, openQty: real)
    requires closeQty >= 0.0 && openQty > 0.0
    ensures (fee - CloseFee(fee, closeQty, openQty)) * (closeQty + openQty) == fee * openQty
  {
    hide CloseFee;
    if closeQty > 0.0 { ShareOfFee(fee, closeQty, openQty); } else { NoCloseNoFee(fee, closeQty, openQty); }
    RestOfProduct(fee, CloseFee(fee, closeQty, openQty), closeQty, openQty);
  }

  lemma NoCloseNoFee(fee: real, closeQty: real, openQty: real)
    requires closeQty == 0.0
    ensures CloseFee(fee, closeQty, openQty) == 0.0
  {
  }

  lemma RestOfProduct(fee: real, share: real, closeQty: real, openQty: real)
    requires share * (closeQty + openQty) == fee * closeQty
    ensures (fee - share) * (closeQty + openQty) == fee * openQty
  {
    assert (fee - share) * (closeQty + openQty) == fee * (closeQty + openQty) - share * (closeQty + openQty);
    assert fee * (closeQty + openQty) == fee * closeQty + fee * openQty;
  }

  /** The quantity on the rows of one kind, and the profit on them. */
  function QtyOf(rows: seq<FillRow>, action: Action): real {
    if rows == [] then 0.0
    else (if rows[0].action == action then rows[0].qty else 0.0) + QtyOf(rows[1..], action)
  }

  function ProfitOf(rows: seq<FillRow>, action: Action): real {
    if rows == [] then 0.0
    else (if rows[0].action == action then rows[0].realized else 0.0) + ProfitOf(rows[1..], action)
  }

  /** The rows of a fill are its own, tell what it closed and what it opened, and carry the
      whole realized profit on the closing side. */
  lemma RowsTellFill(a: Account, f: Fill)
    requires Valid(a, f)
    ensures var e, rows := EffectOn(a, f), RowsOf(a, f);
      && QtyOf(rows, CLOSE) == e.closeQty && QtyOf(rows, OPEN) == e.openQty
      && ProfitOf(rows, CLOSE) == e.realized && ProfitOf(rows, OPEN) == 0.0
      && forall i :: 0 <= i < |rows| ==> rows[i].qty > 0.0 && IsRowOf(rows[i], a.nextSeq, f)
  {
    hide ApplyFill, Eps, Max;
    var e, rows := EffectOn(a, f), RowsOf(a, f);
    FillSplits(a.books[f.inst], f.side.value, f.qty, f.price);
    NothingClosedNoProfit(a.books[f.inst], f.side.value, f.qty, f.price);
    if |rows| == 2 {
      assert rows[1..] == [rows[1]];
      OnOneRow(rows[1]);
    } else if |rows| == 1 {
      assert rows == [rows[0]];
      OnOneRow(rows[0]);
    }
  }

  lemma OnOneRow(row: FillRow)
    ensures forall action :: QtyOf([row], action) == if row.action == action then row.qty else 0.0
    ensures forall action :: ProfitOf([row], action) == if row.action == action then row.realized else 0.0
  {
    assert [row][1..] == [];
  }

  predicate IsRowOf(row: FillRow, eventSeq: nat, f: Fill) {
    && row.eventSeq == eventSeq && row.ts == f.ts && row.inst == f.inst
    && Some(row.side) == f.side && row.price == f.price
  }

  lemma NothingClosedNoProfit(book: Book, side: Side, qty: real, price: real)
    requires qty > 0.0
    ensures ApplyFill(book, side, qty, price).closeQty == 0.0 ==> ApplyFill(book, side, qty, price).realized == 0.0
  {
    var start := StartClosing(book, qty);
    if CanClose(side, start) { ClosedGrows(side, qty, price, CloseFront(side, qty, price, start)); }
  }

  /** The event row of a fill: its position change is the net's, up to what slips, its cash
      change the account's, and its profit and basis are the totals after it. */
  lemma EventTellsFill(a: Account, f: Fill)
    requires Valid(a, f) && Summed(a.books[f.inst])
    ensures var row, after := EventOf(a, f), Step(a, f);
      && after.books[f.inst].net == a.books[f.inst].net + row.positionDelta
           + Slip(a.books[f.inst], f.side.value, f.qty, f.price)
      && after.cash == a.cash + row.cashDelta && after.realized == row.realized && after.total == row.costBasis
      && row.eventSeq == a.nextSeq && after.nextSeq == row.eventSeq + 1
      && row.inst == f.inst && Some(row.side) == f.side && row.ts == f.ts
      && row.qty == f.qty && row.price == f.price && row.fee == f.fee
  {
    hide ApplyFill, CashDelta, Slip, SumQty;
    FillMovesNet(a.books[f.inst], f.side.value, f.qty, f.price);
  }

  lemma OneFee(x: FillRow)
    ensures SumFees([x]) == x.fee
  {
    assert [x][1..] == [];
  }

  lemma TwoFees(x: FillRow, y: FillRow)
    ensures SumFees([x, y]) == x.fee + y.fee
  {
    assert [x, y][1..] == [y];
    OneFee(y);
  }

  /** A positive fill closes or opens something. */
  lemma SomeLeg(book: Book, side: Side, qty: real, price: real)
    requires qty > 0.0
    ensures ApplyFill(book, side, qty, price).closeQty > 0.0 || ApplyFill(book, side, qty, price).openQty > 0.0
  {
    var start := StartClosing(book, qty);
    if CanClose(side, start) {
      ClosedGrows(side, qty, price, CloseFront(side, qty, price, start));
      CloseFrontProgress(side, qty, price, start);
    }
  }

  lemma {:induction false} ClosedGrows(side: Side, qty: real, price: real, c: Closing)
    ensures CloseAll(side, qty, price, c).closeQty >= c.closeQty
    decreases |c.lots|, if c.remaining > 0.0 then 1 else 0
  {
    if CanClose(side, c) {
      CloseFrontProgress(side, qty, price, c);
      ClosedGrows(side, qty, price, CloseFront(side, qty, price, c));
    }
  }

  // ---- splitting a batch -----------------------------------------------------------------

  /** Running two lists in one call is running them one after the other: same lots, cash,
      basis, realized profit, rows and consecutive event numbers. */
  lemma {:induction false} RunSplits(b: Batch, first: seq<Fill>, second: seq<Fill>)
    ensures Run(b, first + second)
         == if Run(b, first).Success? then Run(Run(b, first).value, second) else Run(b, first)
    decreases |first|
  {
    hide Extend;
    if first == [] {
      assert first + second == second;
    } else {
      assert (first + second)[1..] == first[1..] + second;
      if Check(|b.account.books|, first[0]).None? {
        RunSplits(Extend(b, first[0]), first[1..], second);
      }
    }
  }

  /** Rows already emitted are never touched: a run only appends to them. */
  lemma {:induction false} RunAppends(b: Batch, events: seq<EventRow>, rows: seq<FillRow>, fills: seq<Fill>)
    ensures var alone := Run(b, fills);
      var continued := Run(Batch(b.account, events + b.events, rows + b.rows), fills);
      && (continued.Success? <==> alone.Success?)
      && (alone.Success? ==>
            continued.value == Batch(alone.value.account, events + alone.value.events, rows + alone.value.rows))
      && (alone.Failure? ==> continued == alone)
    decreases |fills|
  {
    hide Step, EventOf, RowsOf;
    if fills != [] && Check(|b.account.books|, fills[0]).None? {
      var next := Extend(b, fills[0]);
      RunAppends(next, events, rows, fills[1..]);
      assert events + b.events + [EventOf(b.account, fills[0])] == events + next.events;
      assert rows + b.rows + RowsOf(b.account, fills[0]) == rows + next.rows;
    }
  }
}
