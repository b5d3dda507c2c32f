/** Lots carried between the lot store and the kernel: packed into flat columns, loaded
    into queues, unloaded and split back. Nothing is lost on the way, so a fill list may be
    cut into several kernel calls anywhere. */
module SpotPacking {
  import opened Wrappers
  import opened SpotFifo
  import opened SpotKernel
  import opened SpotEngine
  import opened LotCells
  import opened LotStore

  /** One row of the flat columns. */
  datatype PackedLot = PackedLot(inst: int, lot: Lot)

  function Tagged(inst: int, lots: seq<Lot>): (rows: seq<PackedLot>)
    ensures |rows| == |lots|
    ensures forall i :: 0 <= i < |rows| ==> rows[i] == PackedLot(inst, lots[i])
  {
    seq(|lots|, i requires 0 <= i < |lots| => PackedLot(inst, lots[i]))
  }

  /** All lots, instrument by instrument. */
  function Flatten(lots: seq<seq<Lot>>): seq<PackedLot> {
    if lots == [] then []
    else Flatten(lots[..|lots| - 1]) + Tagged(|lots| - 1, lots[|lots| - 1])
  }

  /** The lots of one instrument, in row order. */
  function Group(rows: seq<PackedLot>, inst: int): seq<Lot> {
    if rows == [] then []
    else
      var front, last := rows[..|rows| - 1], rows[|rows| - 1];
      if last.inst == inst then Group(front, inst) + [last.lot] else Group(front, inst)
  }

  function Groups(rows: seq<PackedLot>, count: nat): (lots: seq<seq<Lot>>)
    ensures |lots| == count
    ensures forall i :: 0 <= i < count ==> lots[i] == Group(rows, i)
  {
    seq(count, i => Group(rows, i))
  }

  lemma {:induction false} GroupConcat(a: seq<PackedLot>, b: seq<PackedLot>, inst: int)
    ensures Group(a + b, inst) == Group(a, inst) + Group(b, inst)
  {
    if b == [] {
      assert a + b == a;
    } else {
      assert (a + b)[..|a + b| - 1] == a + b[..|b| - 1];
      GroupConcat(a, b[..|b| - 1], inst);
    }
  }

  lemma {:induction false} GroupTagged(owner: int, lots: seq<Lot>, inst: int)
    ensures Group(Tagged(owner, lots), inst) == if owner == inst then lots else []
  {
    if lots != [] {
      var rows := Tagged(owner, lots);
      assert rows[..|rows| - 1] == Tagged(owner, lots[..|lots| - 1]);
      GroupTagged(owner, lots[..|lots| - 1], inst);
    }
  }

  /** Packing loses nothing: grouping the flat rows gives every queue back, in order. */
  lemma {:induction false} GroupFlatten(lots: seq<seq<Lot>>, inst: int)
    ensures Group(Flatten(lots), inst) == if 0 <= inst < |lots| then lots[inst] else []
  {
    if lots != [] {
      var n := |lots| - 1;
      GroupFlatten(lots[..n], inst);
      GroupTagged(n, lots[n], inst);
      GroupConcat(Flatten(lots[..n]), Tagged(n, lots[n]), inst);
    }
  }

  lemma GroupsFlatten(lots: seq<seq<Lot>>)
    ensures Groups(Flatten(lots), |lots|) == lots
  {
    forall i | 0 <= i < |lots| ensures Group(Flatten(lots), i) == lots[i] { GroupFlatten(lots, i); }
  }

  ghost predicate InRange(rows: seq<PackedLot>, count: nat) {
    forall i :: 0 <= i < |rows| ==> 0 <= rows[i].inst < count
  }

  lemma {:induction false} FlattenInRange(lots: seq<seq<Lot>>)
    ensures InRange(Flatten(lots), |lots|)
  {
    if lots != [] { FlattenInRange(lots[..|lots| - 1]); }
  }

  lemma FlattenSnoc(lots: seq<seq<Lot>>, k: nat)
    requires k < |lots|
    ensures Flatten(lots[..k + 1]) == Flatten(lots[..k]) + Tagged(k, lots[k])
  {
    assert lots[..k + 1][..k] == lots[..k];
  }

  lemma {:induction false} FlattenMonotone(lots: seq<seq<Lot>>, k: nat)
    requires k <= |lots|
    ensures |Flatten(lots[..k])| <= |Flatten(lots)|
    decreases |lots| - k
  {
    if k == |lots| {
      assert lots[..k] == lots;
    } else {
      FlattenSnoc(lots, k);
      FlattenMonotone(lots, k + 1);
    }
  }

  lemma GroupSnoc(rows: seq<PackedLot>, k: nat, inst: int)
    requires k < |rows|
    ensures Group(rows[..k + 1], inst) == Group(rows[..k], inst) + if rows[k].inst == inst then [rows[k].lot] else []
  {
    assert rows[..k + 1][..k] == rows[..k];
  }

  method WriteSlice(out: array<PackedLot>, at: nat, rows: seq<PackedLot>)
    requires at + |rows| <= out.Length
    modifies out
    ensures out[..at + |rows|] == old(out[..at]) + rows
  {
    forall k | 0 <= k < |rows| {
      out[at + k] := rows[k];
    }
  }

  /** `pack_lots`: the live lots of every instrument, copied slice by slice. */
  method Pack(cells: seq<Cells>) returns (out: array<PackedLot>)
    requires AllValid(cells)
    ensures fresh(out) && out[..] == Flatten(LiveLots(cells))
  {
    hide Live;
    ghost var lots := LiveLots(cells);
    var total := CountLive(cells);
    out := new PackedLot[total](_ => PackedLot(0, Lot(0.0, 0.0)));
    var at := 0;
    for i := 0 to |cells|
      invariant at == |Flatten(lots[..i])| <= out.Length == |Flatten(lots)|
      invariant out[..at] == Flatten(lots[..i])
    {
      FlattenSnoc(lots, i);
      FlattenMonotone(lots, i + 1);
      var live := Tagged(i, Live(cells[i]));
      WriteSlice(out, at, live);
      at := at + |live|;
    }
    assert lots[..|cells|] == lots;
  }

  method CountLive(cells: seq<Cells>) returns (n: nat)
    requires AllValid(cells)
    ensures n == |Flatten(LiveLots(cells))|
  {
    hide Live;
    n := 0;
    ghost var lots := LiveLots(cells);
    for i := 0 to |cells|
      invariant n == |Flatten(lots[..i])|
    {
      FlattenSnoc(lots, i);
      n := n + LiveCount(cells[i]);
    }
    assert lots[..|cells|] == lots;
  }

  /** The kernel's load: each row goes to the back of its instrument's queue. */
  method Load(rows: seq<PackedLot>, count: nat) returns (lots: Option<seq<seq<Lot>>>)
    ensures lots.Some? <==> InRange(rows, count)
    ensures lots.Some? ==> lots.value == Groups(rows, count)
  {
    var queues: seq<seq<Lot>> := seq(count, i => []);
    for k := 0 to |rows|
      invariant queues == Groups(rows[..k], count)
      invariant InRange(rows[..k], count)
    {
      var idx := rows[k].inst;
      if !(0 <= idx < count) { return None; }
      queues := queues[idx := queues[idx] + [rows[k].lot]];
      forall i | 0 <= i < count ensures queues[i] == Group(rows[..k + 1], i) { GroupSnoc(rows, k, i); }
    }
    assert rows[..|rows|] == rows;
    lots := Some(queues);
  }

  /** The kernel's unload. */
  method Unload(lots: seq<seq<Lot>>) returns (rows: seq<PackedLot>)
    ensures rows == Flatten(lots)
  {
    rows := [];
    for i := 0 to |lots|
      invariant rows == Flatten(lots[..i])
    {
      FlattenSnoc(lots, i);
      ghost var before := rows;
      for k := 0 to |lots[i]|
        invariant rows == before + Tagged(i, lots[i])[..k]
      {
        rows := rows + [PackedLot(i, lots[i][k])];
        assert Tagged(i, lots[i])[..k + 1] == Tagged(i, lots[i])[..k] + [PackedLot(i, lots[i][k])];
      }
      assert Tagged(i, lots[i])[..|lots[i]|] == Tagged(i, lots[i]);
    }
    assert lots[..|lots|] == lots;
  }

  function Slots(lots: seq<Lot>): (s: seq<Option<Lot>>)
    ensures |s| == |lots| && forall i :: 0 <= i < |s| ==> s[i] == Some(lots[i])
  {
    seq(|lots|, i requires 0 <= i < |lots| => Some(lots[i]))
  }

  /** A window over exactly these lots. */
  function Exactly(lots: seq<Lot>): (c: Cells)
    ensures ValidCells(c) && Live(c) == lots
  {
    var c := Cells(Slots(lots), 1, |lots|);
    assert Live(c) == lots;
    c
  }

  /** `unpack_lots`: each instrument's rows, in order, become its window. */
  method Unpack(rows: seq<PackedLot>, count: nat) returns (cells: seq<Cells>)
    ensures AllValid(cells) && LiveLots(cells) == Groups(rows, count)
  {
    hide Live;
    cells := seq(count, i => Cells([], 1, 0));
    for i := 0 to count
      invariant |cells| == count && AllValid(cells)
      invariant forall k :: 0 <= k < i ==> Live(cells[k]) == Group(rows, k)
      invariant forall k :: i <= k < count ==> cells[k] == Cells([], 1, 0)
    {
      var group := Group(rows, i);
      cells := cells[i := Exactly(group)];
    }
    assert LiveLots(cells) == Groups(rows, count);
  }

  /** Into the kernel: packed and loaded, every queue arrives as it was. */
  method HandOver(cells: seq<Cells>) returns (lots: seq<seq<Lot>>)
    requires AllValid(cells)
    ensures lots == LiveLots(cells)
  {
    hide Live, Flatten, Group;
    var packed := Pack(cells);
    FlattenInRange(LiveLots(cells));
    GroupsFlatten(LiveLots(cells));
    var loaded := Load(packed[..], |cells|);
    lots := loaded.value;
  }

  /** Out of the kernel: unloaded and split, every queue leaves as it is. */
  method TakeBack(lots: seq<seq<Lot>>) returns (cells: seq<Cells>)
    ensures AllValid(cells) && LiveLots(cells) == lots
  {
    hide Live, Flatten, Group;
    var rows := Unload(lots);
    GroupsFlatten(lots);
    cells := Unpack(rows, |lots|);
  }

  /** What one compiled call returns. */
  datatype Outcome = Outcome(store: Store, positions: seq<real>, cash: real, nextSeq: nat,
                             events: seq<EventRow>, rows: seq<FillRow>)

  /** A run's result, as the outcome of a call holds it. */
  function BatchOf(o: Outcome): Batch
    requires ValidStore(o.store)
  {
    Batch(AccountOf(o.store, o.cash, o.nextSeq), o.events, o.rows)
  }

  predicate SomeSideMissing(fills: seq<Fill>) { exists i :: 0 <= i < |fills| && fills[i].side.None? }

  /** A fill without a side stops the kernel, if nothing earlier does. */
  lemma {:induction false} MissingSideFails(b: Batch, fills: seq<Fill>)
    requires SomeSideMissing(fills)
    ensures Run(b, fills).Failure?
    decreases |fills|
  {
    hide Extend;
    if Check(|b.account.books|, fills[0]).None? {
      var i :| 0 <= i < |fills| && fills[i].side.None?;
      assert fills[1..][i - 1] == fills[i];
      MissingSideFails(Extend(b, fills[0]), fills[1..]);
    }
  }

  /** A call's result says what the specified run says. A side other than BUY or SELL anywhere
      refuses the whole batch before the kernel sees it. */
  ghost predicate CallMatches(store: Store, positions: seq<real>, cash: real, nextSeq: nat, fills: seq<Fill>,
                              r: Result<Outcome, Refusal>)
    requires ValidStore(store) && |positions| == |store.cells|
  {
    var spec := Run(Batch(AccountOf(store, cash, nextSeq), [], []), fills);
    match r
    case Failure(refusal) => spec.Failure? && refusal == if SomeSideMissing(fills) then BadSide else spec.error
    case Success(o) =>
      && ValidStore(o.store) && |o.store.cells| == |store.cells| == |o.positions| && spec == Success(BatchOf(o))
      && PositionsFollow(positions, BooksOf(o.store), fills, |fills|, o.positions)
  }

  /** One compiled call: pack, load, run, unload and unpack. No load check fires. */
  method RunCompiled(store: Store, positions: seq<real>, cash: real, nextSeq: nat, fills: seq<Fill>)
    returns (r: Result<Outcome, Refusal>)
    requires ValidStore(store) && |positions| == |store.cells|
    ensures CallMatches(store, positions, cash, nextSeq, fills, r)
  {
    hide Run, Live, PositionsFollow;
    if SomeSideMissing(fills) {
      MissingSideFails(Batch(AccountOf(store, cash, nextSeq), [], []), fills);
      return Failure(BadSide);
    }
    var lots := HandOver(store.cells);
    var engine := new Engine(lots, positions, store.net, store.basis,
                             store.total, store.realized, store.comp, cash, nextSeq);
    var refusal := engine.RunBatch(fills);
    if refusal.Some? { return Failure(refusal.value); }
    var cells := TakeBack(engine.lots);
    var after := Store(cells, engine.net, engine.basisBy, engine.total, engine.realized, engine.comp);
    r := Success(Outcome(after, engine.positions, engine.cash, engine.eventSeq, engine.events, engine.rows));
  }

  // ---- cutting a fill list into calls ---------------------------------------------------

  function Concat(chunks: seq<seq<Fill>>): seq<Fill> {
    if chunks == [] then [] else chunks[0] + Concat(chunks[1..])
  }

  /** Calls one after the other, each starting from what the one before returned; the
      outputs are appended. An empty list makes no call. */
  function RunCalls(account: Account, chunks: seq<seq<Fill>>): Result<Batch, Refusal>
    decreases |chunks|
  {
    if chunks == [] then Success(Batch(account, [], []))
    else if chunks[0] == [] then RunCalls(account, chunks[1..])
    else
      var first := Run(Batch(account, [], []), chunks[0]);
      if first.Failure? then first
      else
        var rest := RunCalls(first.value.account, chunks[1..]);
        if rest.Failure? then rest
        else
          Success(Batch(rest.value.account,
                        first.value.events + rest.value.events, first.value.rows + rest.value.rows))
  }

  /** However a fill list is cut into calls, the result is that of one call over the whole
      list: same lots in order, cash, basis, realized profit, events and rows. */
  lemma {:induction false} CallsAreOneRun(account: Account, chunks: seq<seq<Fill>>)
    ensures RunCalls(account, chunks) == Run(Batch(account, [], []), Concat(chunks))
    decreases |chunks|
  {
    hide Run;
    if chunks == [] {
      RunNothing(Batch(account, [], []));
    } else {
      var start := Batch(account, [], []);
      var tail := Concat(chunks[1..]);
      RunSplits(start, chunks[0], tail);
      if chunks[0] == [] {
        RunNothing(start);
        CallsAreOneRun(account, chunks[1..]);
      } else if Run(start, chunks[0]).Success? {
        var first := Run(start, chunks[0]).value;
        CallsAreOneRun(first.account, chunks[1..]);
        RunAppends(Batch(first.account, [], []), first.events, first.rows, tail);
        assert first.events + [] == first.events && first.rows + [] == first.rows;
      }
    }
  }

  lemma RunNothing(b: Batch)
    ensures Run(b, []) == Success(b)
  {
  }

  lemma {:induction false} ConcatSnoc(chunks: seq<seq<Fill>>, k: nat)
    requires k < |chunks|
    ensures Concat(chunks[..k + 1]) == Concat(chunks[..k]) + chunks[k]
    decreases k
  {
    if k == 0 {
      assert chunks[..1] == [chunks[0]] && chunks[..1][1..] == [] && chunks[..0] == [];
    } else {
      assert chunks[..k + 1][1..] == chunks[1..][..k] && chunks[..k][1..] == chunks[1..][..k - 1];
      ConcatSnoc(chunks[1..], k - 1);
      assert chunks[0] + (Concat(chunks[1..][..k - 1]) + chunks[k])
          == chunks[0] + Concat(chunks[1..][..k - 1]) + chunks[k];
    }
  }

  lemma {:induction false} ConcatSplit(chunks: seq<seq<Fill>>, k: nat)
    requires k <= |chunks|
    ensures Concat(chunks) == Concat(chunks[..k]) + Concat(chunks[k..])
    decreases |chunks| - k
  {
    if k == |chunks| {
      assert chunks[..k] == chunks && chunks[k..] == [];
    } else {
      ConcatSplit(chunks, k + 1);
      ConcatSnoc(chunks, k);
      assert chunks[k..][1..] == chunks[k + 1..];
    }
  }

  /** The next chunk, run from what the last call returned, extends the run so far. */
  lemma NextChunk(start: Batch, sofar: seq<Fill>, done: Batch, chunk: seq<Fill>)
    requires Run(start, sofar) == Success(done)
    ensures var next := Run(Batch(done.account, [], []), chunk);
      && (next.Failure? ==> Run(start, sofar + chunk).Failure?)
      && (next.Success? ==>
            Run(start, sofar + chunk)
            == Success(Batch(next.value.account, done.events + next.value.events, done.rows + next.value.rows)))
  {
    hide Run;
    RunSplits(start, sofar, chunk);
    RunAppends(Batch(done.account, [], []), done.events, done.rows, chunk);
    assert done.events + [] == done.events && done.rows + [] == done.rows;
  }

  lemma FailsEarly(start: Batch, sofar: seq<Fill>, rest: seq<Fill>)
    requires Run(start, sofar).Failure?
    ensures Run(start, sofar + rest) == Run(start, sofar)
  {
    RunSplits(start, sofar, rest);
  }

  /** The outcome so far after two consecutive calls' positions. */
  lemma FollowAppend(initial: seq<real>, middle: seq<Book>, was: seq<real>, books: seq<Book>, next: seq<real>,
                     sofar: seq<Fill>, chunk: seq<Fill>)
    requires PositionsFollow(initial, middle, sofar, |sofar|, was)
    requires PositionsFollow(was, books, chunk, |chunk|, next)
    requires forall i :: 0 <= i < |middle| && !Traded(chunk, |chunk|, i) ==> books[i].net == middle[i].net
    ensures PositionsFollow(initial, books, sofar + chunk, |sofar + chunk|, next)
  {
    var all := sofar + chunk;
    forall i: nat | i < |next| ensures next[i] == if Traded(all, |all|, i) then books[i].net else initial[i] {
      TradedAppend(sofar, chunk, i);
    }
  }

  lemma TradedAppend(sofar: seq<Fill>, chunk: seq<Fill>, i: nat)
    ensures Traded(sofar + chunk, |sofar + chunk|, i) <==> Traded(sofar, |sofar|, i) || Traded(chunk, |chunk|, i)
  {
    var all := sofar + chunk;
    if Traded(all, |all|, i) {
      var j :| 0 <= j < |all| && all[j].inst == i;
      if j < |sofar| { assert sofar[j].inst == i; } else { assert chunk[j - |sofar|].inst == i; }
    }
    if Traded(sofar, |sofar|, i) {
      var j :| 0 <= j < |sofar| && sofar[j].inst == i;
      assert all[j].inst == i;
    }
    if Traded(chunk, |chunk|, i) {
      var j :| 0 <= j < |chunk| && chunk[j].inst == i;
      assert all[|sofar| + j].inst == i;
    }
  }

  /** A run leaves the books of instruments it does not fill alone. */
  lemma {:induction false} UnfilledUntouched(b: Batch, fills: seq<Fill>, i: nat)
    requires Run(b, fills).Success? && i < |b.account.books| && !Traded(fills, |fills|, i)
    ensures |Run(b, fills).value.account.books| == |b.account.books|
    ensures Run(b, fills).value.account.books[i] == b.account.books[i]
    decreases |fills|
  {
    hide EffectOn, EventOf, RowsOf, CashDelta;
    if fills != [] {
      assert fills[0].inst != i;
      forall j | 0 <= j < |fills[1..]| ensures fills[1..][j].inst != i { assert fills[1..][j] == fills[j + 1]; }
      UnfilledUntouched(Extend(b, fills[0]), fills[1..], i);
    }
  }

  lemma AllUnfilledUntouched(b: Batch, fills: seq<Fill>)
    requires Run(b, fills).Success?
    ensures var books := Run(b, fills).value.account.books;
      |books| == |b.account.books| ==>
        forall i :: 0 <= i < |books| && !Traded(fills, |fills|, i) ==> books[i].net == b.account.books[i].net
  {
    hide Run;
    forall i: nat | i < |b.account.books| && !Traded(fills, |fills|, i)
      ensures var books := Run(b, fills).value.account.books;
        i < |books| ==> books[i].net == b.account.books[i].net
    {
      UnfilledUntouched(b, fills, i);
    }
  }

  /** Compiled calls chunk by chunk, lots packed and unpacked between them, outputs appended;
      an empty chunk makes no call. */
  method RunChunks(store: Store, positions: seq<real>, cash: real, nextSeq: nat, chunks: seq<seq<Fill>>)
    returns (r: Option<Outcome>)
    requires ValidStore(store) && |positions| == |store.cells|
    ensures var spec := Run(Batch(AccountOf(store, cash, nextSeq), [], []), Concat(chunks));
      && (r.Some? <==> spec.Success?)
      && (r.Some? ==>
            && ValidStore(r.value.store) && spec == Success(BatchOf(r.value))
            && PositionsFollow(positions, BooksOf(r.value.store), Concat(chunks), |Concat(chunks)|, r.value.positions))
  {
    hide Run, PositionsFollow, Concat;
    ghost var start := Batch(AccountOf(store, cash, nextSeq), [], []);
    var o := Outcome(store, positions, cash, nextSeq, [], []);
    ChunksStart(store, positions, cash, nextSeq, chunks);
    for k := 0 to |chunks|
      invariant ValidStore(o.store) && |o.store.cells| == |store.cells| == |o.positions|
      invariant Run(start, Concat(chunks[..k])) == Success(BatchOf(o))
      invariant PositionsFollow(positions, BooksOf(o.store), Concat(chunks[..k]), |Concat(chunks[..k])|, o.positions)
    {
      ConcatSnoc(chunks, k);
      if chunks[k] == [] {
        assert Concat(chunks[..k]) + [] == Concat(chunks[..k]);
        continue;
      }
      var next := RunCompiled(o.store, o.positions, o.cash, o.nextSeq, chunks[k]);
      NextChunk(start, Concat(chunks[..k]), BatchOf(o), chunks[k]);
      if next.Failure? {
        FailsEarly(start, Concat(chunks[..k + 1]), Concat(chunks[k + 1..]));
        ConcatSplit(chunks, k + 1);
        return None;
      }
      o := Appended(positions, o, next.value, Concat(chunks[..k]), chunks[k]);
    }
    assert chunks[..|chunks|] == chunks;
    r := Some(o);
  }

  lemma ChunksStart(store: Store, positions: seq<real>, cash: real, nextSeq: nat, chunks: seq<seq<Fill>>)
    requires ValidStore(store) && |positions| == |store.cells|
    ensures Run(Batch(AccountOf(store, cash, nextSeq), [], []), Concat(chunks[..0]))
         == Success(BatchOf(Outcome(store, positions, cash, nextSeq, [], [])))
    ensures PositionsFollow(positions, BooksOf(store), Concat(chunks[..0]), |Concat(chunks[..0])|, positions)
  {
    assert chunks[..0] == [];
    RunNothing(Batch(AccountOf(store, cash, nextSeq), [], []));
  }

  /** The outcome of two consecutive calls. */
  method Appended(ghost positions: seq<real>, o: Outcome, next: Outcome, ghost sofar: seq<Fill>, ghost chunk: seq<Fill>)
    returns (both: Outcome)
    requires ValidStore(o.store) && |o.positions| == |o.store.cells|
    requires PositionsFollow(positions, BooksOf(o.store), sofar, |sofar|, o.positions)
    requires CallMatches(o.store, o.positions, o.cash, o.nextSeq, chunk, Success(next))
    ensures both == Outcome(next.store, next.positions, next.cash, next.nextSeq,
                            o.events + next.events, o.rows + next.rows)
    ensures PositionsFollow(positions, BooksOf(both.store), sofar + chunk, |sofar + chunk|, both.positions)
  {
    hide Run, PositionsFollow;
    AllUnfilledUntouched(Batch(AccountOf(o.store, o.cash, o.nextSeq), [], []), chunk);
    FollowAppend(positions, BooksOf(o.store), o.positions, BooksOf(next.store), next.positions, sofar, chunk);
    both := Outcome(next.store, next.positions, next.cash, next.nextSeq, o.events + next.events, o.rows + next.rows);
  }

  /** A run emits one event per fill, numbered consecutively from where the account stood. */
  lemma {:induction false} EventNumbers(b: Batch, fills: seq<Fill>)
    requires Run(b, fills).Success?
    ensures var r := Run(b, fills).value;
      && r.account.nextSeq == b.account.nextSeq + |fills|
      && |r.events| == |b.events| + |fills|
      && r.events[..|b.events|] == b.events
      && forall i :: |b.events| <= i < |r.events| ==> r.events[i].eventSeq == b.account.nextSeq + (i - |b.events|)
    decreases |fills|
  {
    hide RowsOf, EffectOn;
    if fills != [] {
      var next := Extend(b, fills[0]);
      EventNumbers(next, fills[1..]);
      var r := Run(b, fills).value;
      assert r.events[..|b.events|] == r.events[..|next.events|][..|b.events|];
      var at := |b.events|;
      assert r.events[at] == r.events[..|next.events|][at] == EventOf(b.account, fills[0]);
    }
  }
}
