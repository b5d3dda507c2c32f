/** When a replay is exact: it leaves no dust, and every basis is the value of its lots, if
    and only if the kernel's own guards hold at every event. */
module ReplayGuards {
  import opened Wrappers
  import opened SpotFifo
  import opened SpotUnits
  import opened SpotBasis
  import opened SpotKernel
  import opened SpotRuns
  import opened LotCells
  import opened AccountingReplay

  // ---- cash ------------------------------------------------------------------------------

  /** What the event trades balances cash; other events trade nothing. */
  predicate EventBalances(a: Account, e: Event)
    requires Prepared(e, |a.books|)
  {
    match e
    case FillEvent(_, inst, _, side, qty, price, _) => BalancesCash(a.books[inst], side, qty, price)
    case DispositionEvent(_, inst, _, before, quantity, mark, _) =>
      BalancesCash(a.books[inst], DispositionSide(before), quantity, mark)
    case _ => true
  }

  lemma NoEventDriftIffBalanced(a: Account, e: Event)
    requires Prepared(e, |a.books|)
    ensures EventDrift(a, e) == 0.0 <==> EventBalances(a, e)
  {
    hide Drift, BalancesCash;
    match e
    case FillEvent(_, inst, _, side, qty, price, _) => NoDriftIffBalanced(a.books[inst], side, qty, price);
    case DispositionEvent(_, inst, _, before, quantity, mark, _) =>
      NoDriftIffBalanced(a.books[inst], DispositionSide(before), quantity, mark);
    case _ =>
  }

  /** The guard of event `k`, on the books it meets. */
  ghost predicate CashGuardAt(a: Account, events: seq<Event>, k: nat)
    requires AllPrepared(events, |a.books|) && k < |events|
  {
    var before := Replay(a, events[..k]);
    before.Success? ==> EventBalances(before.value.account, events[k])
  }

  ghost predicate CashGuards(a: Account, events: seq<Event>)
    requires AllPrepared(events, |a.books|)
  {
    forall k :: 0 <= k < |events| ==> CashGuardAt(a, events, k)
  }

  ghost predicate NoDustAt(a: Account, events: seq<Event>, k: nat)
    requires AllPrepared(events, |a.books|) && k <= |events|
  {
    ReplayDrift(a, events[..k]) == 0.0
  }

  /** No prefix of the ledger leaves dust. */
  ghost predicate NoDust(a: Account, events: seq<Event>)
    requires AllPrepared(events, |a.books|)
  {
    forall k :: 0 <= k <= |events| ==> NoDustAt(a, events, k)
  }

  lemma DriftSnoc(a: Account, events: seq<Event>, k: nat)
    requires AllPrepared(events, |a.books|) && k < |events| && Replay(a, events[..k]).Success?
    ensures ReplayDrift(a, events[..k + 1])
         == ReplayDrift(a, events[..k]) + EventDrift(Replay(a, events[..k]).value.account, events[k])
  {
    hide EventDrift, Replay;
    assert events[..k + 1][..k] == events[..k];
  }

  /** From a prefix without dust, the next one has none exactly when the event balances. */
  lemma NextNoDust(a: Account, events: seq<Event>, k: nat)
    requires AllPrepared(events, |a.books|) && Replay(a, events).Success? && k < |events| && NoDustAt(a, events, k)
    ensures NoDustAt(a, events, k + 1) <==> CashGuardAt(a, events, k)
  {
    hide Replay, ReplayDrift, EventDrift, EventBalances;
    PrefixReplay(a, events, k);
    DriftSnoc(a, events, k);
    NoEventDriftIffBalanced(Replay(a, events[..k]).value.account, events[k]);
  }

  lemma {:induction false} GuardedLeavesNoDust(a: Account, events: seq<Event>, k: nat)
    requires AllPrepared(events, |a.books|) && Replay(a, events).Success? && CashGuards(a, events) && k <= |events|
    ensures NoDustAt(a, events, k)
  {
    hide Replay, CashGuardAt;
    if k > 0 {
      GuardedLeavesNoDust(a, events, k - 1);
      NextNoDust(a, events, k - 1);
    }
  }

  /** From any account and for any accepted ledger, whatever its events and quantities: it
      is free of dust after every event if and only if every event balances cash. */
  lemma NoDustIffBalanced(a: Account, events: seq<Event>)
    requires AllPrepared(events, |a.books|) && Replay(a, events).Success?
    ensures NoDust(a, events) <==> CashGuards(a, events)
  {
    hide Replay, CashGuardAt, NoDustAt;
    if CashGuards(a, events) {
      forall k | 0 <= k <= |events| ensures NoDustAt(a, events, k) { GuardedLeavesNoDust(a, events, k); }
    }
    if NoDust(a, events) {
      forall k | 0 <= k < |events| ensures CashGuardAt(a, events, k) {
        assert NoDustAt(a, events, k) && NoDustAt(a, events, k + 1);
        NextNoDust(a, events, k);
      }
    }
  }

  // ---- lots ------------------------------------------------------------------------------

  /** Every net is the sum of its lots, and the total the sum of the basis. */
  ghost predicate Tallied(a: Account) {
    && (forall i :: 0 <= i < |a.books| ==> Summed(a.books[i]))
    && a.total == SumBasis(a.books)
  }

  lemma ReplacedStaysTallied(a: Account, inst: nat, book: Book, b: Account)
    requires Tallied(a) && inst < |a.books| && Summed(book)
    requires b.books == a.books[inst := book] && b.total == a.total - a.books[inst].basis + book.basis
    ensures Tallied(b)
  {
    hide Summed;
    SumBasisUpdate(a.books, inst, book);
  }

  lemma FillStaysTallied(a: Account, inst: nat, side: Side, qty: real, price: real, fee: real)
    requires Tallied(a) && inst < |a.books|
    ensures Tallied(Settle(a, inst, ApplyFill(a.books[inst], side, qty, price), fee))
  {
    hide ApplyFill, Summed;
    var e := ApplyFill(a.books[inst], side, qty, price);
    FillKeepsLots(a.books[inst], side, qty, price);
    ReplacedStaysTallied(a, inst, e.book, Settle(a, inst, e, fee));
  }

  lemma OpeningStays(book: Book, qty: real, costBasis: real)
    ensures Summed(book) ==> Summed(OpenLot(book, qty, costBasis))
    ensures Gap(OpenLot(book, qty, costBasis)) == Gap(book)
  {
    hide SumQty, LotsValue;
    SumsSnoc(book.lots, Lot(qty, costBasis));
  }

  lemma OpeningStaysTallied(a: Account, inst: nat, qty: real, costBasis: real)
    requires Tallied(a) && inst < |a.books|
    ensures Tallied(BookOpening(a, inst, qty, costBasis))
  {
    hide Summed;
    if qty != 0.0 {
      OpeningStays(a.books[inst], qty, costBasis);
      ReplacedStaysTallied(a, inst, OpenLot(a.books[inst], qty, costBasis), BookOpening(a, inst, qty, costBasis));
    }
  }

  /** Every kind of event keeps the tallies. */
  lemma EventStaysTallied(a: Account, e: Event)
    requires Prepared(e, |a.books|) && ApplyEvent(a, e).Success? && Tallied(a)
    ensures Tallied(ApplyEvent(a, e).value.account)
  {
    hide ApplyFill, Closed, Settle, BookOpening, Dust, NearlyEqual, Summed;
    var paid := a.(cash := a.cash + e.cashDelta);
    match e
    case FillEvent(_, inst, _, side, qty, price, fee) => FillStaysTallied(paid, inst, side, qty, price, fee);
    case CashEvent(_, _, _) =>
    case OpeningEvent(_, inst, _, qty, costBasis) => OpeningStaysTallied(paid, inst, qty, costBasis);
    case DispositionEvent(_, inst, _, before, quantity, mark, _) =>
      FillStaysTallied(paid, inst, DispositionSide(before), quantity, mark, 0.0);
  }

  lemma {:induction false} ReplayStaysTallied(a: Account, events: seq<Event>)
    requires AllPrepared(events, |a.books|) && Replay(a, events).Success? && Tallied(a)
    ensures Tallied(Replay(a, events).value.account)
  {
    hide ApplyEvent, Tallied;
    if events != [] {
      var n := |events| - 1;
      ReplayStaysTallied(a, events[..n]);
      EventStaysTallied(Replay(a, events[..n]).value.account, events[n]);
    }
  }

  /** Every basis is the value of its live lots. */
  ghost predicate NoGap(books: seq<Book>) { forall i :: 0 <= i < |books| ==> Gap(books[i]) == 0.0 }

  /** What the event trades leaves the basis of its lots their value; other events always do. */
  predicate EventTracks(a: Account, e: Event)
    requires Prepared(e, |a.books|)
  {
    match e
    case FillEvent(_, inst, _, side, qty, price, _) => TracksLots(a.books[inst], side, qty, price)
    case DispositionEvent(_, inst, _, before, quantity, mark, _) =>
      TracksLots(a.books[inst], DispositionSide(before), quantity, mark)
    case _ => true
  }

  lemma NoGapOfReplaced(books: seq<Book>, inst: nat, book: Book)
    requires NoGap(books) && inst < |books|
    ensures NoGap(books[inst := book]) <==> Gap(book) == 0.0
  {
    hide Gap;
    if NoGap(books[inst := book]) { assert books[inst := book][inst] == book; }
  }

  lemma NoEventGapIffTracked(a: Account, e: Event)
    requires Prepared(e, |a.books|) && ApplyEvent(a, e).Success? && NoGap(a.books)
    ensures NoGap(ApplyEvent(a, e).value.account.books) <==> EventTracks(a, e)
  {
    hide ApplyFill, Closed, TracksLots, Gap, Dust, NearlyEqual, OpenLot;
    match e
    case FillEvent(_, inst, _, side, qty, price, fee) =>
      GapStaysClosed(a.books[inst], side, qty, price);
      NoGapOfReplaced(a.books, inst, ApplyFill(a.books[inst], side, qty, price).book);
    case CashEvent(_, _, _) =>
    case OpeningEvent(_, inst, _, qty, costBasis) =>
      OpeningStays(a.books[inst], qty, costBasis);
      NoGapOfReplaced(a.books, inst, OpenLot(a.books[inst], qty, costBasis));
    case DispositionEvent(_, inst, _, before, quantity, mark, _) =>
      GapStaysClosed(a.books[inst], DispositionSide(before), quantity, mark);
      NoGapOfReplaced(a.books, inst, ApplyFill(a.books[inst], DispositionSide(before), quantity, mark).book);
  }

  ghost predicate LotGuardAt(a: Account, events: seq<Event>, k: nat)
    requires AllPrepared(events, |a.books|) && k < |events|
  {
    var before := Replay(a, events[..k]);
    before.Success? ==> EventTracks(before.value.account, events[k])
  }

  ghost predicate LotGuards(a: Account, events: seq<Event>)
    requires AllPrepared(events, |a.books|)
  {
    forall k :: 0 <= k < |events| ==> LotGuardAt(a, events, k)
  }

  ghost predicate NoGapAt(a: Account, events: seq<Event>, k: nat)
    requires AllPrepared(events, |a.books|) && k <= |events|
  {
    var after := Replay(a, events[..k]);
    after.Success? ==> NoGap(after.value.account.books)
  }

  /** After every prefix of the ledger, every basis is the value of its live lots. */
  ghost predicate NoGaps(a: Account, events: seq<Event>)
    requires AllPrepared(events, |a.books|)
  {
    forall k :: 0 <= k <= |events| ==> NoGapAt(a, events, k)
  }

  lemma NextNoGap(a: Account, events: seq<Event>, k: nat)
    requires AllPrepared(events, |a.books|) && Replay(a, events).Success? && k < |events| && NoGapAt(a, events, k)
    ensures NoGapAt(a, events, k + 1) <==> LotGuardAt(a, events, k)
  {
    hide Replay, ApplyEvent, EventTracks, NoGap;
    PrefixReplay(a, events, k);
    PrefixReplay(a, events, k + 1);
    ReplaySnoc(a, events, k);
    NoEventGapIffTracked(Replay(a, events[..k]).value.account, events[k]);
  }

  lemma {:induction false} GuardedLeavesNoGap(a: Account, events: seq<Event>, k: nat)
    requires AllPrepared(events, |a.books|) && Replay(a, events).Success? && LotGuards(a, events) && k <= |events|
    requires NoGap(a.books)
    ensures NoGapAt(a, events, k)
  {
    hide ApplyEvent, LotGuardAt;
    if k > 0 {
      GuardedLeavesNoGap(a, events, k - 1);
      NextNoGap(a, events, k - 1);
    }
  }

  /** For any accepted ledger from an account whose every basis is the value of its lots, it
      stays so after every event if and only if every event's guard holds. */
  lemma NoGapsIffTracked(a: Account, events: seq<Event>)
    requires AllPrepared(events, |a.books|) && Replay(a, events).Success? && NoGap(a.books)
    ensures NoGaps(a, events) <==> LotGuards(a, events)
  {
    hide Replay, LotGuardAt, NoGapAt;
    if LotGuards(a, events) {
      forall k | 0 <= k <= |events| ensures NoGapAt(a, events, k) { GuardedLeavesNoGap(a, events, k); }
    }
    if NoGaps(a, events) {
      forall k | 0 <= k < |events| ensures LotGuardAt(a, events, k) {
        assert NoGapAt(a, events, k) && NoGapAt(a, events, k + 1);
        NextNoGap(a, events, k);
      }
    }
  }

  // ---- whole quantities ----------------------------------------------------------------------

  /** A fill of whole quantity, at any price. */
  ghost predicate WholeFillEvent(e: Event) { e.FillEvent? && Whole(e.qty) && 0 < e.qty.Floor < LIMIT }

  ghost predicate WholeFills(events: seq<Event>) { forall k :: 0 <= k < |events| ==> WholeFillEvent(events[k]) }

  /** The kernel's tolerance does not set the filled book's basis to zero. */
  ghost predicate KeptAt(a: Account, events: seq<Event>, k: nat)
    requires AllPrepared(events, |a.books|) && WholeFills(events) && k < |events|
  {
    assert WholeFillEvent(events[k]);
    var before := Replay(a, events[..k]);
    before.Success? ==> EventKept(before.value.account, events[k])
  }

  ghost predicate EventKept(a: Account, e: Event)
    requires Prepared(e, |a.books|) && e.FillEvent?
  {
    var after := ApplyFill(a.books[e.inst], e.side, e.qty, e.price).book;
    KeepsBasis(LotsValue(after.lots), after.net, e.qty, e.price)
  }

  /** No fill of the ledger has its basis zeroed while lots of some value remain. */
  ghost predicate KeptThroughout(a: Account, events: seq<Event>)
    requires AllPrepared(events, |a.books|) && WholeFills(events)
  {
    forall k :: 0 <= k < |events| ==> KeptAt(a, events, k)
  }

  lemma WholeEventGuards(a: Account, whole: seq<seq<WholeLot>>, e: Event)
    requires Prepared(e, |a.books|) && Mirrors(a, whole) && NoGap(a.books) && WholeFillEvent(e)
    ensures EventBalances(a, e) <==> EventKept(a, e)
    ensures EventTracks(a, e) <==> EventKept(a, e)
  {
    hide ApplyFill, BalancesCash, TracksLots, KeepsBasis, LotsValue, Gap;
    assert MirrorsAt(a.books[e.inst], whole[e.inst]);
    WholeFillIsExactUnlessZeroed(a.books[e.inst], whole[e.inst], e.side, e.qty.Floor, e.price);
  }

  lemma WholeEventMirrors(a: Account, whole: seq<seq<WholeLot>>, e: Event) returns (next: seq<seq<WholeLot>>)
    requires Prepared(e, |a.books|) && ApplyEvent(a, e).Success? && Mirrors(a, whole) && WholeFillEvent(e)
    ensures Mirrors(ApplyEvent(a, e).value.account, next)
  {
    hide ApplyFill, Closed, WholeFill, Embed, Small, OneSide;
    assert MirrorsAt(a.books[e.inst], whole[e.inst]);
    FillIsWhole(a.books[e.inst], whole[e.inst], e.side, e.qty.Floor, e.price);
    next := whole[e.inst := WholeFill(whole[e.inst], e.side, e.qty.Floor, e.price).lots];
  }

  /** Whole fills leave whole lots, after any prefix. */
  lemma {:induction false} WholePrefix(a: Account, whole: seq<seq<WholeLot>>, events: seq<Event>, k: nat)
    returns (next: seq<seq<WholeLot>>)
    requires AllPrepared(events, |a.books|) && Replay(a, events).Success? && WholeFills(events) && k <= |events|
    requires Mirrors(a, whole)
    ensures Replay(a, events[..k]).Success? && Mirrors(Replay(a, events[..k]).value.account, next)
  {
    hide ApplyEvent, Mirrors, WholeFillEvent;
    PrefixReplay(a, events, k);
    if k == 0 { return whole; }
    next := WholePrefix(a, whole, events, k - 1);
    ReplaySnoc(a, events, k - 1);
    assert WholeFillEvent(events[k - 1]);
    next := WholeEventMirrors(Replay(a, events[..k - 1]).value.account, next, events[k - 1]);
  }

  /** On whole quantities, after a prefix without gaps, both guards are the one on the basis. */
  lemma WholeGuardsAt(a: Account, whole: seq<seq<WholeLot>>, events: seq<Event>, k: nat)
    requires AllPrepared(events, |a.books|) && Replay(a, events).Success? && WholeFills(events) && k < |events|
    requires Mirrors(a, whole) && NoGapAt(a, events, k)
    ensures CashGuardAt(a, events, k) <==> KeptAt(a, events, k)
    ensures LotGuardAt(a, events, k) <==> KeptAt(a, events, k)
  {
    hide Replay, Mirrors, NoGap, WholeFillEvent, EventBalances, EventTracks, EventKept;
    var now := WholePrefix(a, whole, events, k);
    assert WholeFillEvent(events[k]);
    WholeEventGuards(Replay(a, events[..k]).value.account, now, events[k]);
  }

  /** As long as one of the guards holds, no gap opens. */
  lemma {:induction false} WholeLeavesNoGap(a: Account, whole: seq<seq<WholeLot>>, events: seq<Event>, k: nat)
    requires AllPrepared(events, |a.books|) && Replay(a, events).Success? && WholeFills(events) && k <= |events|
    requires Mirrors(a, whole) && NoGap(a.books)
    requires CashGuards(a, events) || LotGuards(a, events) || KeptThroughout(a, events)
    ensures NoGapAt(a, events, k)
  {
    hide ApplyEvent, Mirrors, CashGuardAt, LotGuardAt, KeptAt, NoGap;
    if k > 0 {
      WholeLeavesNoGap(a, whole, events, k - 1);
      WholeGuardsAt(a, whole, events, k - 1);
      NextNoGap(a, events, k - 1);
    }
  }

  /** So on whole quantities at any price a ledger is free of dust after every event, and
      keeps every basis the value of its lots, exactly when no basis is zeroed in between. */
  lemma WholeLedgerExact(a: Account, whole: seq<seq<WholeLot>>, events: seq<Event>)
    requires AllPrepared(events, |a.books|) && Replay(a, events).Success? && WholeFills(events)
    requires Mirrors(a, whole) && NoGap(a.books)
    ensures NoDust(a, events) <==> KeptThroughout(a, events)
    ensures NoGaps(a, events) <==> KeptThroughout(a, events)
  {
    hide Replay, Mirrors, CashGuardAt, LotGuardAt, KeptAt, NoGap, NoGapAt, NoDustAt;
    NoDustIffBalanced(a, events);
    NoGapsIffTracked(a, events);
    if CashGuards(a, events) || LotGuards(a, events) || KeptThroughout(a, events) {
      forall k | 0 <= k < |events|
        ensures CashGuardAt(a, events, k) <==> KeptAt(a, events, k)
        ensures LotGuardAt(a, events, k) <==> KeptAt(a, events, k)
      {
        WholeLeavesNoGap(a, whole, events, k);
        WholeGuardsAt(a, whole, events, k);
      }
    }
  }
}
