/** The headline trade counter over ledgers that mix fills, cash flows, openings and
    dispositions: when it keeps the nets the replay leaves and counts the fills that close. */
module HeadlineLedger {
  import opened Wrappers
  import opened Ordering
  import opened SpotFifo
  import opened SpotBasis
  import opened SpotKernel
  import opened SpotRuns
  import opened LotCells
  import opened AccountingReplay
  import opened ReplayGuards

  function FillOf(e: Event): Fill
    requires e.FillEvent?
  {
    Fill(e.inst, Some(e.side), e.qty, e.price, e.fee, e.ts)
  }

  /** What the counter reads of a ledger event: an opening adds its quantity, a disposition
      removes the position it states, a cash flow moves none. */
  function SeenOf(e: Event): Seen {
    match e
    case FillEvent(_, _, _, _, _, _, _) => FillSeen(FillOf(e))
    case CashEvent(_, target, _) => Moved(target, 0.0)
    case OpeningEvent(_, inst, _, qty, _) => Moved(Some(inst), qty)
    case DispositionEvent(_, inst, _, before, _, _, _) => Moved(Some(inst), -before)
  }

  function SeenLedger(events: seq<Event>): (seen: seq<Seen>)
    ensures |seen| == |events| && forall i :: 0 <= i < |events| ==> seen[i] == SeenOf(events[i])
  {
    seq(|events|, i requires 0 <= i < |events| => SeenOf(events[i]))
  }

  // ---- the counter's state along a ledger ------------------------------------------------------

  function CounterAfter(h: Headline, events: seq<Event>): Option<Headline> {
    if events == [] then Some(h)
    else
      var before := CounterAfter(h, events[..|events| - 1]);
      if before.None? then None else HeadlineEvent(before.value, SeenOf(events[|events| - 1]))
  }

  lemma {:induction false} HeadlineAllFrom(h: Headline, events: seq<Event>, k: nat)
    requires k <= |events|
    ensures var now := CounterAfter(h, events[..k]);
      HeadlineAll(h, SeenLedger(events)) == if now.None? then None else HeadlineAll(now.value, SeenLedger(events)[k..])
  {
    hide HeadlineEvent;
    if k > 0 {
      HeadlineAllFrom(h, events, k - 1);
      assert events[..k][..k - 1] == events[..k - 1];
      var rest := SeenLedger(events)[k - 1..];
      assert rest[0] == SeenOf(events[k - 1]) && rest[1..] == SeenLedger(events)[k..];
    }
  }

  /** The counter's total is its state's, after the whole ledger. */
  lemma TotalIsState(h: Headline, events: seq<Event>)
    ensures HeadlineAll(h, SeenLedger(events))
         == if CounterAfter(h, events).None? then None else Some(CounterAfter(h, events).value.closed)
  {
    HeadlineAllFrom(h, events, |events|);
    assert events[..|events|] == events;
    assert SeenLedger(events)[|events|..] == [];
  }

  /** Among the first `k` events, the fills whose replayed leg closes something. */
  function ClosingFills(events: seq<Event>, marks: seq<Mark>, k: nat): nat
    requires k <= |events| == |marks|
  {
    if k == 0 then 0
    else
      ClosingFills(events, marks, k - 1)
      + if events[k - 1].FillEvent? && marks[k - 1].leg.closeQty > 0.0 then 1 else 0
  }

  // ---- one event ---------------------------------------------------------------------------------

  /** A fill closes something exactly when the lot in front is on the other side. */
  lemma ClosesWhenFrontOpposite(book: Book, side: Side, qty: real, price: real)
    requires qty > 0.0
    ensures ApplyFill(book, side, qty, price).closeQty > 0.0 <==> CanClose(side, StartClosing(book, qty))
  {
    hide CloseAll, CloseFront, RawBasis, Dust;
    var start := StartClosing(book, qty);
    CloseAllUnrolls(side, qty, price, start);
    if CanClose(side, start) {
      CloseFrontTakes(side, qty, price, start);
      ClosedGrows(side, qty, price, CloseFront(side, qty, price, start));
    }
  }

  /** The counter, which looks at the sign of the position past its tolerance, and the kernel, which
      looks at the lot in front, differ on whether the fill closes something. */
  predicate Miscounts(book: Book, f: Fill)
    requires f.side.Some?
  {
    var delta := Signed(f.side.value, f.qty);
    var counted := Abs(book.net) > FillDust(book.net, f) && OppositeSigns(book.net, delta);
    counted != CanClose(f.side.value, StartClosing(book, f.qty))
  }

  /** On a book of one sign they differ only when the tolerance swallows the position. */
  lemma OneSignMiscountsHidden(book: Book, f: Fill)
    requires Consistent(book) && f.side.Some? && f.qty > 0.0
    ensures Miscounts(book, f) <==> HidesClosing(book.net, f)
  {
    hide ApplyFill, Dust, Signed, SumQty, OneSign;
    ClosesWhenOpposite(book, f.side.value, f.qty, f.price);
    ClosesWhenFrontOpposite(book, f.side.value, f.qty, f.price);
  }

  /** The counter's tolerance for a position change that is no fill. */
  function MoveDust(before: real, delta: real): real { Dust(before, delta, before + delta, before + delta) }

  /** The counter and the replay part over this event. An opening is lost when the tolerance
      swallows the position it makes; a disposition leaves a rest when it states another position
      than is held and the tolerance does not cover the difference. */
  predicate Parts(a: Account, e: Event)
    requires Prepared(e, |a.books|)
  {
    match e
    case FillEvent(_, inst, _, _, _, _, _) =>
      Miscounts(a.books[inst], FillOf(e)) || MisplacesRest(a.books[inst], FillOf(e))
    case CashEvent(_, _, _) => false
    case OpeningEvent(_, inst, _, qty, _) =>
      var after := a.books[inst].net + qty;
      qty != 0.0 && after != 0.0 && Abs(after) <= MoveDust(a.books[inst].net, qty)
    case DispositionEvent(_, inst, _, before, _, _, _) =>
      Abs(a.books[inst].net - before) > MoveDust(a.books[inst].net, -before)
  }

  /** The counter takes the event, counts it as the replay closes it, and is left with its nets. */
  ghost predicate Follows(a: Account, h: Headline, e: Event)
    requires Prepared(e, |a.books|) && ApplyEvent(a, e).Success?
  {
    var out, next := ApplyEvent(a, e).value, HeadlineEvent(h, SeenOf(e));
    && next.Some? && SamePositions(out.account, next.value)
    && next.value.closed == h.closed + if e.FillEvent? && out.leg.closeQty > 0.0 then 1 else 0
  }

  lemma FillFollows(a: Account, h: Headline, e: Event)
    requires Prepared(e, |a.books|) && ApplyEvent(a, e).Success? && e.FillEvent? && Tallied(a) && SamePositions(a, h)
    ensures Follows(a, h, e) <==> !Parts(a, e)
  {
    hide ApplyFill, Closed, Dust, Abs, Signed, SumQty, Slip, OppositeSigns;
    var f, book := FillOf(e), a.books[e.inst];
    assert Summed(book);
    FillMovesNet(book, e.side, e.qty, e.price);
    ClosesWhenFrontOpposite(book, e.side, e.qty, e.price);
    MovedOnly(a, h, e, HeadlineFill(h, f));
  }

  /** Only the event's instrument moves, on both sides. */
  lemma MovedOnly(a: Account, h: Headline, e: Event, next: Headline)
    requires Prepared(e, |a.books|) && ApplyEvent(a, e).Success? && Target(e).Some? && SamePositions(a, h)
    requires |next.positions| == |h.positions|
    requires forall i :: 0 <= i < |h.positions| && i != Target(e).value ==> next.positions[i] == h.positions[i]
    ensures SamePositions(ApplyEvent(a, e).value.account, next)
       <==> next.positions[Target(e).value] == ApplyEvent(a, e).value.account.books[Target(e).value].net
  {
    hide ApplyEvent;
    var after := ApplyEvent(a, e).value.account;
    forall i | 0 <= i < |a.books| && i != Target(e).value ensures next.positions[i] == after.books[i].net {
      OthersUntouched(a, e, i);
      assert h.positions[i] == a.books[i].net;
    }
  }

  lemma DispositionLeavesNothing(a: Account, e: Event)
    requires Prepared(e, |a.books|) && ApplyEvent(a, e).Success? && e.DispositionEvent?
    ensures ApplyEvent(a, e).value.account.books[e.inst].net == 0.0 && e.before != 0.0
  {
    hide BookFill, Dust, NearlyEqual;
  }

  /** Where the tolerance leaves the position of an event that is no fill. */
  lemma MoveLeaves(h: Headline, inst: nat, delta: real)
    requires inst < |h.positions| && delta != 0.0
    ensures var before := h.positions[inst];
      var kept := if Abs(before + delta) <= MoveDust(before, delta) then 0.0 else before + delta;
      HeadlineEvent(h, Moved(Some(inst), delta)) == Some(h.(positions := h.positions[inst := kept]))
  {
    hide Dust, Abs;
  }

  lemma OpeningFollows(a: Account, h: Headline, e: Event)
    requires Prepared(e, |a.books|) && ApplyEvent(a, e).Success? && e.OpeningEvent? && SamePositions(a, h)
    ensures Follows(a, h, e) <==> !Parts(a, e)
  {
    hide HeadlineEvent, MoveDust;
    if e.qty != 0.0 {
      MoveLeaves(h, e.inst, e.qty);
      MovedOnly(a, h, e, HeadlineEvent(h, SeenOf(e)).value);
    } else {
      NothingMoves(h, Some(e.inst));
    }
  }

  lemma NothingMoves(h: Headline, inst: Option<nat>)
    ensures HeadlineEvent(h, Moved(inst, 0.0)) == Some(h)
  {
  }

  lemma DispositionFollows(a: Account, h: Headline, e: Event)
    requires Prepared(e, |a.books|) && ApplyEvent(a, e).Success? && e.DispositionEvent? && SamePositions(a, h)
    ensures Follows(a, h, e) <==> !Parts(a, e)
  {
    hide ApplyEvent, HeadlineEvent, Dust;
    var net := a.books[e.inst].net;
    DispositionLeavesNothing(a, e);
    DustPositive(net, -e.before, net - e.before, net - e.before);
    MoveLeaves(h, e.inst, -e.before);
    assert net + -e.before == net - e.before;
    MovedOnly(a, h, e, HeadlineEvent(h, SeenOf(e)).value);
  }

  lemma MoveFollows(a: Account, h: Headline, e: Event)
    requires Prepared(e, |a.books|) && ApplyEvent(a, e).Success? && !e.FillEvent? && SamePositions(a, h)
    ensures Follows(a, h, e) <==> !Parts(a, e)
  {
    hide HeadlineEvent, Parts, Follows, ApplyFill, Closed, BookFill, Dispose;
    match e
    case CashEvent(_, _, _) => CashFollows(a, h, e);
    case OpeningEvent(_, _, _, _, _) => OpeningFollows(a, h, e);
    case DispositionEvent(_, _, _, _, _, _, _) => DispositionFollows(a, h, e);
  }

  lemma CashFollows(a: Account, h: Headline, e: Event)
    requires Prepared(e, |a.books|) && e.CashEvent? && SamePositions(a, h)
    ensures ApplyEvent(a, e).Success? && Follows(a, h, e) && !Parts(a, e)
  {
    NothingMoves(h, e.target);
  }

  // ---- whole ledgers --------------------------------------------------------------------------------

  ghost predicate FollowsTo(a: Account, h: Headline, events: seq<Event>, k: nat)
    requires AllPrepared(events, |a.books|) && Replay(a, events).Success? && k <= |events|
  {
    var now, replayed := CounterAfter(h, events[..k]), Replay(a, events[..k]);
    && now.Some? && replayed.Success? && SamePositions(replayed.value.account, now.value)
    && now.value.closed == h.closed + ClosingFills(events, Replay(a, events).value.marks, k)
  }

  ghost predicate PartsAt(a: Account, events: seq<Event>, k: nat)
    requires AllPrepared(events, |a.books|) && k < |events|
  {
    var before := Replay(a, events[..k]);
    before.Success? && Parts(before.value.account, events[k])
  }

  lemma NextFollows(a: Account, h: Headline, events: seq<Event>, k: nat)
    requires AllPrepared(events, |a.books|) && Replay(a, events).Success? && k < |events|
    requires Tallied(a) && FollowsTo(a, h, events, k)
    ensures FollowsTo(a, h, events, k + 1) <==> !PartsAt(a, events, k)
  {
    hide Replay, ApplyEvent, HeadlineEvent, Parts, SamePositions, Tallied;
    PrefixReplay(a, events, k);
    PrefixReplay(a, events, k + 1);
    ReplaySnoc(a, events, k);
    ReplayStaysTallied(a, events[..k]);
    assert events[..k + 1][..k] == events[..k];
    assert Replay(a, events).value.marks[k] == Replay(a, events[..k + 1]).value.marks[k];
    var before, now := Replay(a, events[..k]).value.account, CounterAfter(h, events[..k]).value;
    if events[k].FillEvent? { FillFollows(before, now, events[k]); } else { MoveFollows(before, now, events[k]); }
  }

  lemma {:induction false} NeverPartingFollows(a: Account, h: Headline, events: seq<Event>, k: nat)
    requires AllPrepared(events, |a.books|) && Replay(a, events).Success? && k <= |events|
    requires Tallied(a) && SamePositions(a, h) && forall i :: 0 <= i < k ==> !PartsAt(a, events, i)
    ensures FollowsTo(a, h, events, k)
  {
    hide ApplyEvent, HeadlineEvent, PartsAt, Tallied;
    if k > 0 {
      NeverPartingFollows(a, h, events, k - 1);
      NextFollows(a, h, events, k - 1);
    } else {
      PrefixReplay(a, events, 0);
    }
  }

  /** From any account whose nets are the sums of its lots, the counter keeps the replay's nets and
      has counted the fills that close after every event of an accepted ledger, of whatever kinds,
      if and only if no event parts them. */
  lemma LedgerFollowsUnlessParted(a: Account, h: Headline, events: seq<Event>)
    requires AllPrepared(events, |a.books|) && Replay(a, events).Success? && Tallied(a) && SamePositions(a, h)
    ensures (forall k :: 0 <= k <= |events| ==> FollowsTo(a, h, events, k))
       <==> forall k :: 0 <= k < |events| ==> !PartsAt(a, events, k)
  {
    hide Replay, PartsAt, FollowsTo, Tallied, SamePositions;
    if forall k :: 0 <= k < |events| ==> !PartsAt(a, events, k) {
      forall k | 0 <= k <= |events| ensures FollowsTo(a, h, events, k) { NeverPartingFollows(a, h, events, k); }
    }
    if forall k :: 0 <= k <= |events| ==> FollowsTo(a, h, events, k) {
      forall k | 0 <= k < |events| ensures !PartsAt(a, events, k) {
        assert FollowsTo(a, h, events, k) && FollowsTo(a, h, events, k + 1);
        NextFollows(a, h, events, k);
      }
    }
  }

  /** Then the headline total is the number of fills whose replayed leg closes something. */
  lemma HeadlineCountsClosingFills(a: Account, events: seq<Event>)
    requires AllPrepared(events, |a.books|) && Replay(a, events).Success? && Tallied(a)
    requires forall q :: 0 <= q < |a.books| ==> a.books[q].net == 0.0
    requires forall k :: 0 <= k < |events| ==> !PartsAt(a, events, k)
    ensures HeadlineAll(Headline(seq(|a.books|, _ => 0.0), 0), SeenLedger(events))
         == Some(ClosingFills(events, Replay(a, events).value.marks, |events|))
  {
    hide Replay, PartsAt, Tallied, HeadlineAll;
    var h := Headline(seq(|a.books|, _ => 0.0), 0);
    NeverPartingFollows(a, h, events, |events|);
    TotalIsState(h, events);
    assert events[..|events|] == events;
  }
}
