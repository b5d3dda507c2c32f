/** The ledger-side lot state over all instruments, and the account it stands for. */
module LotStore {
  import opened Wrappers
  import opened SpotFifo
  import opened SpotKernel
  import opened SpotEngine
  import opened LotCells

  datatype Store = Store(cells: seq<Cells>, net: seq<real>, basis: seq<real>, total: real, realized: real, comp: real)

  predicate AllValid(cells: seq<Cells>) { forall i :: 0 <= i < |cells| ==> ValidCells(cells[i]) }

  predicate ValidStore(s: Store) { |s.cells| == |s.net| == |s.basis| && AllValid(s.cells) }

  /** Every instrument's live lots. */
  function LiveLots(cells: seq<Cells>): (lots: seq<seq<Lot>>)
    requires AllValid(cells)
    ensures |lots| == |cells|
    ensures forall i :: 0 <= i < |lots| ==> lots[i] == Live(cells[i])
  {
    seq(|cells|, i requires 0 <= i < |cells| && AllValid(cells) => Live(cells[i]))
  }

  function BooksOf(s: Store): (books: seq<Book>)
    requires ValidStore(s)
    ensures |books| == |s.cells|
  {
    Books(LiveLots(s.cells), s.net, s.basis)
  }

  /** The kernel account with the same lots and totals. */
  function AccountOf(s: Store, cash: real, nextSeq: nat): Account
    requires ValidStore(s)
  {
    Account(BooksOf(s), s.total, s.realized, s.comp, cash, nextSeq)
  }

  /** The account without cash and numbering. */
  function Ledger(s: Store): Account
    requires ValidStore(s)
  {
    AccountOf(s, 0.0, 0)
  }

  /** A store with no lots. */
  function EmptyStore(count: nat): (s: Store)
    ensures ValidStore(s) && |s.cells| == count
    ensures forall i :: 0 <= i < count ==> BooksOf(s)[i] == Book([], 0.0, 0.0)
  {
    Store(seq(count, i => Cells([], 1, 0)), seq(count, i => 0.0), seq(count, i => 0.0), 0.0, 0.0, 0.0)
  }

  lemma BooksUpdate(s: Store, i: nat, cells: Cells, net: real, basis: real, t: Store)
    requires ValidStore(s) && i < |s.cells| && ValidCells(cells) && ValidStore(t)
    requires t.cells == s.cells[i := cells] && t.net == s.net[i := net] && t.basis == s.basis[i := basis]
    ensures BooksOf(t) == BooksOf(s)[i := Book(Live(cells), net, basis)]
  {
    forall k | 0 <= k < |s.cells| ensures BooksOf(t)[k] == BooksOf(s)[i := Book(Live(cells), net, basis)][k] {
    }
  }

  /** What a fill did beside changing the store. */
  datatype Leg = Leg(closeQty: real, openQty: real, realizedClose: real, realizedDelta: real)

  /** `ledgr_lot_apply_fill`: the store's fill books the kernel's fill on the account it stands
      for. It is refused only when a zero lot blocks the opening leg. */
  method ApplyStoreFill(s: Store, inst: nat, side: Side, qty: real, price: real, fee: real)
    returns (r: Option<(Store, Leg)>)
    requires ValidStore(s) && inst < |s.cells|
    ensures r.None? <==> Blocked(Closed(BooksOf(s)[inst], side, qty, price))
    ensures r.Some? ==> ValidStore(r.value.0) && |r.value.0.cells| == |s.cells|
    ensures var e := ApplyFill(BooksOf(s)[inst], side, qty, price);
      r.Some? ==> Ledger(r.value.0) == Settle(Ledger(s), inst, e, fee) && r.value.1 == LegOf(e, fee)
  {
    hide ApplyFill, Closed, Live;
    var filled := FillSlots(s.cells[inst], s.net[inst], s.basis[inst], side, qty, price);
    if filled.None? { return None; }
    var f := filled.value;
    var delta := f.realized - fee;
    var y := delta - s.comp;
    var t := s.realized + y;
    var after := Store(s.cells[inst := f.cells], s.net[inst := f.net], s.basis[inst := f.basis],
                       s.total - s.basis[inst] + f.basis, t, (t - s.realized) - y);
    BooksUpdate(s, inst, f.cells, f.net, f.basis, after);
    r := Some((after, Leg(f.closeQty, f.openQty, f.realized, delta)));
  }

  function LegOf(e: Effect, fee: real): Leg { Leg(e.closeQty, e.openQty, e.realized, e.realized - fee) }
}
