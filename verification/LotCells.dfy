/** The ledger-side lot store: one instrument's lots in a vector of slots with a live
    window, consumed from the front, compacted and grown in place. The queue it stands
    for is the window's contents, and its fill is the kernel's fill on that queue. */
module LotCells {
  import opened Wrappers
  import opened SpotFifo
  import opened SpotEngine

  /** Slots `head..tail`, counted from one, are live; the others are spent or spare. */
  datatype Cells = Cells(slots: seq<Option<Lot>>, head: nat, tail: nat)

  predicate ValidCells(c: Cells) {
    && 1 <= c.head <= c.tail + 1 <= |c.slots| + 1
    && forall i :: c.head - 1 <= i < c.tail ==> c.slots[i].Some?
  }

  function Window(slots: seq<Option<Lot>>): (lots: seq<Lot>)
    requires forall i :: 0 <= i < |slots| ==> slots[i].Some?
    ensures |lots| == |slots|
    ensures forall i :: 0 <= i < |lots| ==> Some(lots[i]) == slots[i]
  {
    if slots == [] then [] else [slots[0].value] + Window(slots[1..])
  }

  function LiveCount(c: Cells): nat
    requires ValidCells(c)
  {
    c.tail + 1 - c.head
  }

  /** The queue the slots stand for. */
  function Live(c: Cells): (lots: seq<Lot>)
    requires ValidCells(c)
    ensures |lots| == LiveCount(c)
    ensures forall i :: 0 <= i < |lots| ==> Some(lots[i]) == c.slots[c.head - 1 + i]
  {
    Window(c.slots[c.head - 1..c.tail])
  }

  /** No more spent slots in front than live ones. */
  predicate Trim(c: Cells) { c.head - 1 <= if c.tail >= c.head then c.tail + 1 - c.head else 0 }

  function Blank(n: nat): (s: seq<Option<Lot>>)
    ensures |s| == n
  {
    seq(n, i => None)
  }

  function Compact(c: Cells, force: bool): (r: Cells)
    requires ValidCells(c)
    ensures ValidCells(r) && Live(r) == Live(c)
    ensures |r.slots| == |c.slots| && Trim(r)
    ensures LiveCount(r) == LiveCount(c) && (force ==> r.head == 1)
  {
    var live := c.tail + 1 - c.head;
    if live == 0 then Cells(c.slots, 1, 0)
    else if !force && c.head - 1 <= live then c
    else Cells(c.slots[c.head - 1..c.tail] + Blank(|c.slots| - live), 1, live)
  }

  /** Unless forced, compaction moves the live lots to the front exactly when the spent slots
      before them outnumber them; with nothing live the window starts over. */
  lemma CompactsWhen(c: Cells)
    requires ValidCells(c)
    ensures LiveCount(c) == 0 ==> Compact(c, false) == Cells(c.slots, 1, 0)
    ensures 0 < LiveCount(c) && c.head <= LiveCount(c) + 1 ==> Compact(c, false) == c
    ensures 0 < LiveCount(c) && c.head > LiveCount(c) + 1 ==>
      Compact(c, false).head == 1 && Compact(c, false).tail == LiveCount(c)
  {
  }

  /** Makes a spare slot after the tail: compacts first, and grows only when every slot is live. */
  function MakeRoom(c: Cells): (r: Cells)
    requires ValidCells(c)
    ensures ValidCells(r) && Live(r) == Live(c) && r.tail < |r.slots|
  {
    var packed := if c.tail >= |c.slots| && c.head > 1 then Compact(c, true) else c;
    if packed.tail < |packed.slots| then packed else Grow(packed)
  }

  function Grow(c: Cells): (r: Cells)
    requires ValidCells(c)
    ensures ValidCells(r) && Live(r) == Live(c) && r.tail < |r.slots|
    ensures r.head == c.head && r.tail == c.tail
  {
    c.(slots := c.slots + Blank(Capacity(|c.slots|) - |c.slots|))
  }

  function Place(c: Cells, lot: Lot): (r: Cells)
    requires ValidCells(c) && c.tail < |c.slots|
    ensures ValidCells(r) && Live(r) == Live(c) + [lot] && |r.slots| == |c.slots|
    ensures Trim(c) ==> Trim(r)
  {
    Cells(c.slots[c.tail := Some(lot)], c.head, c.tail + 1)
  }

  function Append(c: Cells, lot: Lot): (r: Cells)
    requires ValidCells(c)
    ensures ValidCells(r) && Live(r) == Live(c) + [lot]
  {
    Place(MakeRoom(c), lot)
  }

  function Capacity(size: nat): (n: nat)
    ensures n > size && n >= 4
  {
    if size * 2 < 4 then 4 else size * 2
  }

  /** The slots grow only when every one of them is live. */
  lemma GrowsOnlyWhenFull(c: Cells, lot: Lot)
    requires ValidCells(c)
    ensures |Append(c, lot).slots| > |c.slots| <==> LiveCount(c) == |c.slots|
    ensures |Append(c, lot).slots| > |c.slots| ==>
      |Append(c, lot).slots| == if |c.slots| < 2 then 4 else |c.slots| + |c.slots|
    ensures Trim(c) ==> Trim(Append(c, lot))
  {
  }

  /** Spends the front slot. */
  function DropFront(c: Cells): (r: Cells)
    requires ValidCells(c) && c.head <= c.tail
    ensures ValidCells(r) && Live(r) == Live(c)[1..]
  {
    Cells(c.slots[c.head - 1 := None], c.head + 1, c.tail)
  }

  function ReplaceFrontLot(c: Cells, lot: Lot): (r: Cells)
    requires ValidCells(c) && c.head <= c.tail
    ensures ValidCells(r) && Live(r) == Live(c)[0 := lot]
  {
    Cells(c.slots[c.head - 1 := Some(lot)], c.head, c.tail)
  }

  /** A lot of neither direction stops the opening leg. */
  predicate Blocked(c: Closing) { c.remaining > 0.0 && c.lots != [] && c.lots[0].qty == 0.0 }

  function Sign(x: real): int { if x > 0.0 then 1 else if x < 0.0 then -1 else 0 }

  function Direction(side: Side): int { if side.Buy? then 1 else -1 }

  /** The running totals of the closing loop; the lots themselves stay in their slots. */
  datatype Totals = Totals(net: real, remaining: real, closeQty: real, realized: real, basisDelta: real)

  function Joined(cells: Cells, t: Totals): Closing
    requires ValidCells(cells)
  {
    Closing(Live(cells), t.net, t.remaining, t.closeQty, t.realized, t.basisDelta)
  }

  lemma FrontIsLive(cells: Cells)
    requires ValidCells(cells)
    ensures Live(cells) != [] <==> cells.tail >= cells.head
    ensures Live(cells) != [] ==>
      1 <= cells.head <= |cells.slots| && cells.slots[cells.head - 1] == Some(Live(cells)[0])
  {
  }

  /** What one turn takes from the front lot: whether the lot is spent, what is left of it, and the new totals. */
  method TakeFront(front: Lot, t: Totals, side: Side, qty: real, price: real, ghost c: Closing)
    returns (spent: bool, rest: Lot, n: Totals)
    requires CanClose(side, c) && c.lots[0] == front
    requires c == Closing(c.lots, t.net, t.remaining, t.closeQty, t.realized, t.basisDelta)
    ensures CloseFront(side, qty, price, c)
         == Closing(if spent then c.lots[1..] else c.lots[0 := rest],
                    n.net, n.remaining, n.closeQty, n.realized, n.basisDelta)
  {
    hide Dust;
    ghost var turn := CloseFront(side, qty, price, c);
    var take := Min(Abs(front.qty), t.remaining);
    var left := Abs(front.qty) - take;
    var remaining := t.remaining - take;
    var tol := Dust(qty, take, left, remaining);
    spent := left <= tol;
    rest := Lot(-Signed(side, left), front.price);
    n := Totals(if spent then t.net - front.qty else (t.net - front.qty) - Signed(side, left),
                if remaining <= tol then 0.0 else remaining, t.closeQty + take,
                t.realized - Signed(side, (price - front.price) * take),
                t.basisDelta + Signed(side, take * front.price));
    assert n.realized == turn.realized && n.basisDelta == turn.basisDelta;
    assert n.net == turn.net;
  }

  /** One turn against the front slot, which is spent or rewritten where it is. */
  method SlotTurn(cells: Cells, t: Totals, side: Side, qty: real, price: real) returns (kept: Cells, n: Totals)
    requires ValidCells(cells) && CanClose(side, Joined(cells, t))
    ensures ValidCells(kept) && Joined(kept, n) == CloseFront(side, qty, price, Joined(cells, t))
  {
    hide CloseFront, Live, DropFront, ReplaceFrontLot;
    FrontIsLive(cells);
    var front := cells.slots[cells.head - 1].value;
    var spent, rest, totals := TakeFront(front, t, side, qty, price, Joined(cells, t));
    n := totals;
    kept := if spent then DropFront(cells) else ReplaceFrontLot(cells, rest);
  }

  /** The closing loop over the slots, turn for turn the kernel's. */
  method CloseSlots(cells: Cells, net: real, side: Side, qty: real, price: real) returns (kept: Cells, t: Totals)
    requires ValidCells(cells)
    ensures ValidCells(kept)
    ensures Joined(kept, t) == CloseAll(side, qty, price, Closing(Live(cells), net, qty, 0.0, 0.0, 0.0))
  {
    hide CloseAll, CloseFront, Dust, Live;
    ghost var start := Closing(Live(cells), net, qty, 0.0, 0.0, 0.0);
    kept := cells;
    t := Totals(net, qty, 0.0, 0.0, 0.0);
    FrontIsLive(kept);
    while t.remaining > 0.0 && kept.tail >= kept.head && Signed(side, kept.slots[kept.head - 1].value.qty) < 0.0
      invariant ValidCells(kept) && (Live(kept) != [] <==> kept.tail >= kept.head)
      invariant Live(kept) != [] ==> kept.slots[kept.head - 1] == Some(Live(kept)[0])
      invariant CloseAll(side, qty, price, Joined(kept, t)) == CloseAll(side, qty, price, start)
      decreases |Live(kept)|, if t.remaining > 0.0 then 1 else 0
    {
      CloseAllUnrolls(side, qty, price, Joined(kept, t));
      CloseFrontProgress(side, qty, price, Joined(kept, t));
      kept, t := SlotTurn(kept, t, side, qty, price);
      FrontIsLive(kept);
    }
    CloseAllUnrolls(side, qty, price, Joined(kept, t));
  }

  /** Once the loop ends with something left, the front lot is not on the other side: it can
      only block the opening leg as a zero lot, which no book without zero lots holds. */
  lemma BlockedNeedsZeroLot(book: Book, side: Side, qty: real, price: real)
    requires NoZeroLot(book.lots)
    ensures !Blocked(Closed(book, side, qty, price))
  {
    hide CloseAll, Dust;
    CloseAllLots(side, qty, price, StartClosing(book, qty));
  }

  datatype Filled = Filled(cells: Cells, net: real, basis: real, closeQty: real, openQty: real, realized: real)

  function AsEffect(f: Filled): Effect
    requires ValidCells(f.cells)
  {
    Effect(Book(Live(f.cells), f.net, f.basis), f.closeQty, f.openQty, f.realized)
  }

  /** The opening lot, if anything is left to open. */
  method OpenLeg(cells: Cells, t: Totals, side: Side, price: real) returns (packed: Cells)
    requires ValidCells(cells) && Trim(cells)
    ensures ValidCells(packed) && Trim(packed)
    ensures Live(packed)
         == if t.remaining > 0.0 then Live(cells) + [Lot(Signed(side, t.remaining), price)] else Live(cells)
  {
    hide Live, Append, Signed;
    packed := cells;
    if t.remaining > 0.0 {
      packed := Append(cells, Lot(Signed(side, t.remaining), price));
      GrowsOnlyWhenFull(cells, Lot(Signed(side, t.remaining), price));
    }
  }

  /** The opening leg, and the book's settled net and basis. */
  method OpenInSlots(cells: Cells, t: Totals, basis: real, side: Side, qty: real, price: real) returns (f: Filled)
    requires ValidCells(cells) && Trim(cells)
    ensures ValidCells(f.cells) && Trim(f.cells)
    ensures AsEffect(f) == OpenRest(basis, side, qty, price, Joined(cells, t))
  {
    hide Dust, Live, Signed, Abs, OpenValue, OpenRest, ValidCells, Trim;
    var packed := OpenLeg(cells, t, side, price);
    FrontIsLive(packed);
    var basisDelta := t.basisDelta + OpenValue(side, price, t.remaining);
    var net := if t.remaining > 0.0 then t.net + Signed(side, t.remaining) else t.net;
    var settled := if packed.head > packed.tail then 0.0 else net;
    var raw := basis + basisDelta;
    ghost var c := Joined(cells, t);
    SettlesAs(basis, side, qty, price, c, Live(packed), settled, raw);
    f := Filled(packed, settled, if Abs(raw) <= Dust(raw, settled, qty, price) then 0.0 else raw,
                t.closeQty, t.remaining, t.realized);
  }

  lemma SettlesAs(basis: real, side: Side, qty: real, price: real, c: Closing, lots: seq<Lot>, net: real, raw: real)
    requires lots == if c.remaining > 0.0 then c.lots + [Lot(Signed(side, c.remaining), price)] else c.lots
    requires net == if lots == [] then 0.0 else if c.remaining > 0.0 then c.net + Signed(side, c.remaining) else c.net
    requires raw == RawBasis(basis, side, price, c)
    ensures OpenRest(basis, side, qty, price, c)
         == Effect(Book(lots, net, if Abs(raw) <= Dust(raw, net, qty, price) then 0.0 else raw),
                   c.closeQty, c.remaining, c.realized)
  {
    hide Dust, Signed, Abs, RawBasis;
  }

  /** A fill on the slots is the kernel's fill on the queue they stand for. It is refused
      only when the lot in front of the opening leg has quantity zero, which no lot on a book
      without zero lots ever comes to have. */
  method FillSlots(cells: Cells, net: real, basis: real, side: Side, qty: real, price: real)
    returns (r: Option<Filled>)
    requires ValidCells(cells)
    ensures r.None? <==> Blocked(Closed(Book(Live(cells), net, basis), side, qty, price))
    ensures r.Some? ==> ValidCells(r.value.cells) && Trim(r.value.cells)
    ensures r.Some? ==> AsEffect(r.value) == ApplyFill(Book(Live(cells), net, basis), side, qty, price)
  {
    hide CloseAll, CloseFront, Dust, Live;
    var kept, t := CloseSlots(cells, net, side, qty, price);
    ghost var c := Joined(kept, t);
    CloseAllLots(side, qty, price, StartClosing(Book(Live(cells), net, basis), qty));
    var packed := Compact(kept, false);
    FrontIsLive(packed);
    if t.remaining > 0.0 && packed.head <= packed.tail
      && Sign(packed.slots[packed.head - 1].value.qty) != Direction(side) {
      return None;
    }
    var filled := OpenInSlots(packed, t, basis, side, qty, price);
    r := Some(filled);
  }
}
