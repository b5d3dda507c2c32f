/** The compiled kernel and the ledger replay agree: replaying the events a kernel run emits
    gives the run's account, running values and fill rows back. */
module KernelReplay {
  import opened Wrappers
  import opened SpotFifo
  import opened SpotKernel
  import opened LotCells
  import opened LotStore
  import opened AccountingReplay

  // ---- fills from a replay -----------------------------------------------------------------

  /** The closing leg's share of the fee, as the replay projection computes it. */
  function ProjectedCloseFee(fee: real, closeQty: real, openQty: real): real
    requires openQty > 0.0 && closeQty > 0.0 ==> closeQty + openQty != 0.0
  {
    if openQty <= 0.0 then fee
    else if closeQty <= 0.0 then 0.0
    else fee * (closeQty / (closeQty + openQty))
  }

  /** Up to two rows for a fill event: its closing and its opening leg. */
  function ProjectedRows(eventSeq: nat, e: Event, leg: Leg): seq<FillRow>
    requires e.FillEvent?
  {
    var closeFee := ProjectedCloseFee(e.fee, leg.closeQty, leg.openQty);
    (if leg.closeQty > 0.0 then
       [FillRow(eventSeq, e.ts, e.inst, e.side, leg.closeQty, e.price, closeFee, leg.realizedClose, CLOSE)] else [])
    + (if leg.openQty > 0.0 then
       [FillRow(eventSeq, e.ts, e.inst, e.side, leg.openQty, e.price, e.fee - closeFee, 0.0, OPEN)] else [])
  }

  /** `ledgr_accounting_fills_from_replay`, without recording pulses. */
  function FillsFromReplay(seqs: seq<nat>, events: seq<Event>, marks: seq<Mark>): seq<FillRow>
    requires |seqs| == |events| == |marks|
  {
    if events == [] then []
    else
      var n := |events| - 1;
      FillsFromReplay(seqs[..n], events[..n], marks[..n])
      + if events[n].FillEvent? then ProjectedRows(seqs[n], events[n], marks[n].leg) else []
  }

  lemma QuotientFirst(fee: real, x: real, total: real)
    requires total > 0.0
    ensures fee * (x / total) == fee * x / total
  {
  }

  /** Both ways of splitting the fee agree. */
  lemma SameCloseFee(fee: real, closeQty: real, openQty: real)
    requires closeQty > 0.0 && openQty >= 0.0
    ensures ProjectedCloseFee(fee, closeQty, openQty) == CloseFee(fee, closeQty, openQty)
  {
    if openQty > 0.0 { QuotientFirst(fee, closeQty, closeQty + openQty); } else { WholeFee(fee, closeQty); }
  }

  // ---- the kernel's events as a ledger --------------------------------------------------------

  function EventOfRow(row: EventRow): Event
    requires row.inst >= 0
  {
    FillEvent(row.ts, row.inst, row.cashDelta, row.side, row.qty, row.price, row.fee)
  }

  ghost predicate KnownInstruments(rows: seq<EventRow>) { forall i :: 0 <= i < |rows| ==> rows[i].inst >= 0 }

  function EventsOf(rows: seq<EventRow>): (events: seq<Event>)
    requires KnownInstruments(rows)
    ensures |events| == |rows| && forall i :: 0 <= i < |rows| ==> events[i] == EventOfRow(rows[i])
  {
    seq(|rows|, i requires 0 <= i < |rows| && rows[i].inst >= 0 => EventOfRow(rows[i]))
  }

  function SeqsOf(rows: seq<EventRow>): (seqs: seq<nat>)
    ensures |seqs| == |rows| && forall i :: 0 <= i < |rows| ==> seqs[i] == rows[i].eventSeq
  {
    seq(|rows|, i requires 0 <= i < |rows| => rows[i].eventSeq)
  }

  /** The ledger view of an account: replay leaves event numbering alone. */
  function Unnumbered(a: Account): Account { a.(nextSeq := 0) }

  /** The running values on the kernel's event rows are those replay keeps. */
  ghost predicate RowMatches(row: EventRow, mark: Mark) {
    row.realized == mark.realized && row.costBasis == mark.basis
  }

  /** Replaying the emitted events so far gives the batch back. */
  ghost predicate Reproduces(a: Account, b: Batch) {
    && KnownInstruments(b.events) && AllPrepared(EventsOf(b.events), |a.books|)
    && |b.account.books| == |a.books|
    && var r := Replay(Unnumbered(a), EventsOf(b.events));
      && r.Success? && r.value.account == Unnumbered(b.account)
      && (forall i :: 0 <= i < |b.events| ==> RowMatches(b.events[i], r.value.marks[i]))
      && FillsFromReplay(SeqsOf(b.events), EventsOf(b.events), r.value.marks) == b.rows
  }

  lemma SettleUnnumbered(a: Account, inst: nat, e: Effect, fee: real, cash: real, nextSeq: nat)
    requires inst < |a.books|
    ensures Unnumbered(Settle(a, inst, e, fee).(cash := cash, nextSeq := nextSeq))
         == Settle(Unnumbered(a).(cash := cash), inst, e, fee)
  {
  }

  /** Replaying one emitted event is the kernel's step. */
  lemma StepReplays(a: Account, f: Fill)
    requires Valid(a, f) && Sound(a)
    ensures EventOf(a, f).inst >= 0
    ensures var e := EventOfRow(EventOf(a, f));
      && Prepared(e, |a.books|)
      && ApplyEvent(Unnumbered(a), e) == Success(Outcome(Unnumbered(Step(a, f)), LegOf(EffectOn(a, f), f.fee)))
  {
    hide ApplyFill, Closed, CashDelta, Settle;
    var book := a.books[f.inst];
    BlockedNeedsZeroLot(book, f.side.value, f.qty, f.price);
    var cash := a.cash + CashDelta(f.side.value, f.qty, f.price, f.fee);
    SettleUnnumbered(a, f.inst, EffectOn(a, f), f.fee, cash, a.nextSeq + 1);
  }

  lemma StepRowsProjected(a: Account, f: Fill)
    requires Valid(a, f) && EventOf(a, f).inst >= 0
    ensures ProjectedRows(a.nextSeq, EventOfRow(EventOf(a, f)), LegOf(EffectOn(a, f), f.fee)) == RowsOf(a, f)
  {
    hide ApplyFill, CashDelta, Settle, ProjectedCloseFee, CloseFee;
    var e := EffectOn(a, f);
    OpenQtyNonNegative(a.books[f.inst], f.side.value, f.qty, f.price);
    if e.closeQty > 0.0 {
      SameCloseFee(f.fee, e.closeQty, e.openQty);
    } else {
      NoCloseFee(f.fee, e.closeQty, e.openQty);
    }
  }

  lemma NoCloseFee(fee: real, closeQty: real, openQty: real)
    requires closeQty <= 0.0
    ensures openQty > 0.0 ==> ProjectedCloseFee(fee, closeQty, openQty) == CloseFee(fee, closeQty, openQty)
  {
  }

  lemma ExtendReproduces(a: Account, b: Batch, f: Fill)
    requires Reproduces(a, b) && Valid(b.account, f) && Sound(b.account)
    ensures Reproduces(a, Extend(b, f))
  {
    hide ApplyEvent, Step, EventOf, ProjectedRows, RowsOf, EffectOn, LegOf, Sound;
    var next, row := Extend(b, f), EventOf(b.account, f);
    StepReplays(b.account, f);
    StepRowsProjected(b.account, f);
    RowFacts(b.account, f);
    var events, n := EventsOf(next.events), |b.events|;
    assert events[..n] == EventsOf(b.events);
    assert SeqsOf(next.events)[..n] == SeqsOf(b.events);
    assert events[n] == EventOfRow(row);
    var marks := Replay(Unnumbered(a), events).value.marks;
    assert marks[..n] == Replay(Unnumbered(a), events[..n]).value.marks;
    forall i | 0 <= i < |next.events| ensures RowMatches(next.events[i], marks[i]) {
      if i < n { assert RowMatches(b.events[i], marks[..n][i]); }
    }
  }

  lemma RowFacts(a: Account, f: Fill)
    requires Valid(a, f)
    ensures EventOf(a, f).eventSeq == a.nextSeq
    ensures EventOf(a, f).realized == Step(a, f).realized && EventOf(a, f).costBasis == Step(a, f).total
    ensures |Step(a, f).books| == |a.books|
  {
  }

  lemma {:induction false} RunReproduces(a: Account, b: Batch, fills: seq<Fill>)
    requires Reproduces(a, b) && Sound(b.account) && Run(b, fills).Success?
    ensures Reproduces(a, Run(b, fills).value)
    decreases |fills|
  {
    hide Reproduces, Step, EventOf, RowsOf, Sound;
    if fills != [] {
      ExtendReproduces(a, b, fills[0]);
      StepKeepsSound(b.account, fills[0]);
      RunReproduces(a, Extend(b, fills[0]), fills[1..]);
    }
  }

  /** From any sound account: the ledger a kernel run writes replays, without refusal, to
      the run's lots, cash, basis and realized profit; the running values on its rows are
      the replay's; and the fills projected from the replay are the rows it emitted. */
  lemma KernelLedgerReplays(a: Account, fills: seq<Fill>)
    requires Sound(a) && Run(Batch(a, [], []), fills).Success?
    ensures Reproduces(a, Run(Batch(a, [], []), fills).value)
  {
    RunReproduces(a, Batch(a, [], []), fills);
  }
}
