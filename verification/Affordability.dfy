/** Greedy affordability: fills are taken in a stable priority order, cash-raising sales
    first, as long as virtual cash stays above its floor. */
module Affordability {
  import opened Wrappers
  import opened Ordering
  import opened SpotFifo
  import SpotKernel

  /** A proposed fill with what already speaks against it; reasons are ids of reason texts. */
  datatype Entry = Entry(id: int, side: Side, qty: real, price: real, fee: real,
                         currentQty: real, delta: real, blocking: seq<int>, informational: seq<int>)

  /** Rejected for the lack of cash. */
  const INSUFFICIENT_CASH: int := 0

  function Delta(e: Entry): real { SpotKernel.CashDelta(e.side, e.qty, e.price, e.fee) }

  predicate Blocked(e: Entry) { e.blocking != [] }

  /** An unblocked sale out of a long position that brings cash in. */
  predicate Generator(e: Entry) {
    e.side.Sell? && e.currentQty > 0.0 && e.delta < 0.0 && Delta(e) >= 0.0 && !Blocked(e)
  }

  // ---- priority ------------------------------------------------------------------------

  /** An entry with its place in the input. */
  datatype Placed = Placed(entry: Entry, place: nat)

  /** Generators first, then by stable id. */
  predicate Precedes(a: Entry, b: Entry) {
    (Generator(a) && !Generator(b)) || ((Generator(a) <==> Generator(b)) && a.id <= b.id)
  }

  predicate PlacedLe(a: Placed, b: Placed) { Precedes(a.entry, b.entry) }

  /** `which`: the places, in order, of the entries that are or are not generators. */
  function Which(entries: seq<Entry>, generators: bool, k: nat): seq<Placed>
    requires k <= |entries|
  {
    if k == 0 then []
    else
      Which(entries, generators, k - 1)
      + if Generator(entries[k - 1]) == generators then [Placed(entries[k - 1], k - 1)] else []
  }

  predicate IsPlaced(entries: seq<Entry>, generators: bool, k: nat, p: Placed)
    requires k <= |entries|
  {
    p.place < k && p.entry == entries[p.place] && Generator(p.entry) == generators
  }

  lemma {:induction false} WhichMembers(entries: seq<Entry>, generators: bool, k: nat)
    requires k <= |entries|
    ensures forall p :: p in Which(entries, generators, k) <==> IsPlaced(entries, generators, k, p)
  {
    hide Generator;
    if k > 0 { WhichMembers(entries, generators, k - 1); }
  }

  lemma {:induction false} WhichDistinct(entries: seq<Entry>, generators: bool, k: nat)
    requires k <= |entries|
    ensures Distinct(Which(entries, generators, k))
  {
    hide Generator;
    if k > 0 {
      WhichDistinct(entries, generators, k - 1);
      WhichMembers(entries, generators, k - 1);
      var before := Which(entries, generators, k - 1);
      forall i | 0 <= i < |before| ensures before[i].place < k - 1 { assert before[i] in before; }
    }
  }

  /** The order in which entries get their turn: each of them once. */
  function Priority(entries: seq<Entry>): (r: seq<Placed>)
    ensures SortedBy(r, PlacedLe) && Distinct(r)
    ensures forall p :: p in r <==> p.place < |entries| && p.entry == entries[p.place]
  {
    var queue := Which(entries, true, |entries|) + Which(entries, false, |entries|);
    QueueHolds(entries);
    SortSorted(queue, PlacedLe);
    SortMembers(queue, PlacedLe);
    SortDistinct(queue, PlacedLe);
    Sort(queue, PlacedLe)
  }

  lemma QueueHolds(entries: seq<Entry>)
    ensures var queue := Which(entries, true, |entries|) + Which(entries, false, |entries|);
      && Distinct(queue)
      && forall p :: p in queue <==> p.place < |entries| && p.entry == entries[p.place]
  {
    hide Generator, Which;
    WhichMembers(entries, true, |entries|);
    WhichMembers(entries, false, |entries|);
    WhichDistinct(entries, true, |entries|);
    WhichDistinct(entries, false, |entries|);
    var a, b := Which(entries, true, |entries|), Which(entries, false, |entries|);
    forall i, j | 0 <= i < |a| && 0 <= j < |b| ensures a[i] != b[j] {
      assert a[i] in a && b[j] in b;
    }
  }

  // ---- the greedy rule ---------------------------------------------------------------------

  predicate Affordable(cash: real, delta: real, tol: real) { delta >= 0.0 || cash + delta >= -tol }

  predicate Taken(cash: real, e: Entry, tol: real) { !Blocked(e) && Affordable(cash, Delta(e), tol) }

  /** Virtual cash after the first `k` entries of the queue. */
  function VirtualCash(queue: seq<Placed>, k: nat, cash: real, tol: real): real
    requires k <= |queue|
  {
    if k == 0 then cash
    else
      var before := VirtualCash(queue, k - 1, cash, tol);
      if Taken(before, queue[k - 1].entry, tol) then before + Delta(queue[k - 1].entry) else before
  }

  predicate Wins(queue: seq<Placed>, k: nat, cash: real, tol: real)
    requires k < |queue|
  {
    Taken(VirtualCash(queue, k, cash, tol), queue[k].entry, tol)
  }

  /** The final word on each input entry: whether its turn in the queue was taken. */
  ghost predicate Accepted(entries: seq<Entry>, i: nat, cash: real, tol: real) {
    var queue := Priority(entries);
    exists k :: 0 <= k < |queue| && queue[k].place == i && Wins(queue, k, cash, tol)
  }

  lemma TurnOf(entries: seq<Entry>, i: nat) returns (k: nat)
    requires i < |entries|
    ensures k < |Priority(entries)| && Priority(entries)[k] == Placed(entries[i], i)
    ensures forall j :: 0 <= j < |Priority(entries)| && Priority(entries)[j].place == i ==> j == k
  {
    var queue := Priority(entries);
    assert Placed(entries[i], i) in queue;
    k :| 0 <= k < |queue| && queue[k] == Placed(entries[i], i);
    forall j | 0 <= j < |queue| && queue[j].place == i ensures j == k {
      assert queue[j] in queue;
    }
  }

  // ---- what the rule guarantees ----------------------------------------------------------------

  /** The floor: virtual cash never falls below minus the tolerance. */
  lemma {:induction false} CashStaysAboveFloor(queue: seq<Placed>, k: nat, cash: real, tol: real)
    requires k <= |queue| && cash >= -tol
    ensures VirtualCash(queue, k, cash, tol) >= -tol
  {
    if k > 0 { CashStaysAboveFloor(queue, k - 1, cash, tol); }
  }

  /** An unblocked entry that brings cash in is always accepted; so is every generator. */
  lemma GeneratorsAccepted(entries: seq<Entry>, i: nat, cash: real, tol: real)
    requires i < |entries| && (Generator(entries[i]) || (!Blocked(entries[i]) && Delta(entries[i]) >= 0.0))
    ensures Accepted(entries, i, cash, tol)
  {
    var k := TurnOf(entries, i);
    assert Wins(Priority(entries), k, cash, tol);
  }

  /** Once cash only goes down, it stays at or below where it was. */
  lemma {:induction false} CashOnlyFalls(queue: seq<Placed>, low: nat, high: nat, cash: real, tol: real)
    requires low <= high <= |queue|
    requires forall k :: low <= k < high && !Blocked(queue[k].entry) ==> Delta(queue[k].entry) <= 0.0
    ensures VirtualCash(queue, high, cash, tol) <= VirtualCash(queue, low, cash, tol)
    decreases high - low
  {
    if low < high { CashOnlyFalls(queue, low, high - 1, cash, tol); }
  }

  /** Maximality: if only generators bring cash in, no unblocked rejected entry fits the
      final cash. */
  lemma NothingMoreFits(entries: seq<Entry>, i: nat, cash: real, tol: real)
    requires i < |entries| && !Blocked(entries[i]) && !Accepted(entries, i, cash, tol)
    requires forall j :: 0 <= j < |entries| && !Blocked(entries[j]) && !Generator(entries[j]) ==>
      Delta(entries[j]) <= 0.0
    ensures |Priority(entries)| == |entries|
    ensures VirtualCash(Priority(entries), |entries|, cash, tol) + Delta(entries[i]) < -tol
  {
    hide Priority, Delta;
    var queue := Priority(entries);
    var k := TurnOf(entries, i);
    QueueIsWhole(entries);
    assert !Wins(queue, k, cash, tol);
    forall j | k <= j < |queue| && !Blocked(queue[j].entry) ensures Delta(queue[j].entry) <= 0.0 {
      assert queue[j] in queue;
      assert j == k || PlacedLe(queue[k], queue[j]);
    }
    CashOnlyFalls(queue, k, |queue|, cash, tol);
  }

  // ---- whose turn comes first ---------------------------------------------------------------------

  /** A sale out of a holding, for no less than its fee, with nothing against it. */
  predicate FreesCash(e: Entry) {
    e.side == Sell && !(e.currentQty <= 0.0) && !(e.delta >= 0.0) && e.fee <= e.qty * e.price && |e.blocking| == 0
  }

  lemma GeneratorMeans(e: Entry)
    ensures Generator(e) <==> FreesCash(e)
  {
  }

  /** Every generator has its turn before any other entry, and within each of the two groups
      turns rise with the id; entries of one id keep their places. */
  lemma TurnsRise(entries: seq<Entry>, j: nat, k: nat)
    requires j < k < |Priority(entries)|
    ensures var a, b := Priority(entries)[j], Priority(entries)[k];
      && (FreesCash(b.entry) ==> FreesCash(a.entry))
      && (FreesCash(a.entry) == FreesCash(b.entry) ==>
            a.entry.id < b.entry.id || (a.entry.id == b.entry.id && a.place < b.place))
  {
    hide Generator, FreesCash;
    GeneratorMeans(Priority(entries)[j].entry);
    GeneratorMeans(Priority(entries)[k].entry);
    var queue := Priority(entries);
    var a, b := queue[j], queue[k];
    assert PlacedLe(a, b);
    if Generator(a.entry) == Generator(b.entry) && a.entry.id == b.entry.id {
      TiesKeepPlaces(entries, a.entry.id, Generator(a.entry), j, k);
    }
  }

  predicate TiedAt(p: Placed, id: int, generators: bool) { p.entry.id == id && Generator(p.entry) == generators }

  /** The entries of one group and id come in the order of their places. */
  lemma TiesKeepPlaces(entries: seq<Entry>, id: int, generators: bool, j: nat, k: nat)
    requires j < k < |Priority(entries)|
    requires TiedAt(Priority(entries)[j], id, generators) && TiedAt(Priority(entries)[k], id, generators)
    ensures Priority(entries)[j].place < Priority(entries)[k].place
  {
    var tied := (p: Placed) => TiedAt(p, id, generators);
    var queue := Which(entries, true, |entries|) + Which(entries, false, |entries|);
    var kept := Filter(queue, tied);
    SortFilter(queue, PlacedLe, tied);
    FilterMembers(queue, tied);
    SortConstant(kept, PlacedLe);
    TiedInPlaces(entries, id, generators);
    var x, y := FilterKeepsOrder(Priority(entries), tied, j, k);
  }

  ghost predicate PlacesRise(s: seq<Placed>) { forall i, j :: 0 <= i < j < |s| ==> s[i].place < s[j].place }

  lemma {:induction false} WhichRises(entries: seq<Entry>, generators: bool, k: nat)
    requires k <= |entries|
    ensures PlacesRise(Which(entries, generators, k))
  {
    hide Generator;
    if k > 0 {
      WhichRises(entries, generators, k - 1);
      WhichMembers(entries, generators, k - 1);
      var before := Which(entries, generators, k - 1);
      forall i | 0 <= i < |before| ensures before[i].place < k - 1 { assert before[i] in before; }
    }
  }

  lemma {:induction false} KeptPlacesRise(s: seq<Placed>, p: Placed -> bool)
    requires PlacesRise(s)
    ensures PlacesRise(Filter(s, p))
  {
    if s != [] {
      assert PlacesRise(s[1..]);
      KeptPlacesRise(s[1..], p);
      FilterMembers(s[1..], p);
      var kept := Filter(s[1..], p);
      forall i | 0 <= i < |kept| ensures s[0].place < kept[i].place {
        assert kept[i] in s[1..];
        var j :| 0 <= j < |s[1..]| && s[1..][j] == kept[i];
        assert s[j + 1] == kept[i];
      }
    }
  }

  lemma TiedInPlaces(entries: seq<Entry>, id: int, generators: bool)
    ensures PlacesRise(Filter(Which(entries, true, |entries|) + Which(entries, false, |entries|),
                              (p: Placed) => TiedAt(p, id, generators)))
  {
    hide Generator, Which, Filter;
    var tied := (p: Placed) => TiedAt(p, id, generators);
    var ours, others := Which(entries, generators, |entries|), Which(entries, !generators, |entries|);
    WhichMembers(entries, !generators, |entries|);
    forall i | 0 <= i < |others| ensures !tied(others[i]) { assert others[i] in others; }
    FilterNone(others, tied);
    WhichRises(entries, generators, |entries|);
    KeptPlacesRise(ours, tied);
    FilterConcat(Which(entries, true, |entries|), Which(entries, false, |entries|), tied);
    assert Filter(ours, tied) + [] == Filter(ours, tied) && [] + Filter(ours, tied) == Filter(ours, tied);
  }

  /** What the accepted turns from `low` up to `high` bring in. */
  function Raised(queue: seq<Placed>, low: nat, high: nat, cash: real, tol: real): real
    requires low <= high <= |queue|
    decreases high - low
  {
    if low == high then 0.0
    else
      Raised(queue, low, high - 1, cash, tol)
      + if Wins(queue, high - 1, cash, tol) then Delta(queue[high - 1].entry) else 0.0
  }

  lemma {:induction false} RaisedMovesCash(queue: seq<Placed>, low: nat, high: nat, cash: real, tol: real)
    requires low <= high <= |queue|
    ensures VirtualCash(queue, high, cash, tol)
         == VirtualCash(queue, low, cash, tol) + Raised(queue, low, high, cash, tol)
    decreases high - low
  {
    if low < high { RaisedMovesCash(queue, low, high - 1, cash, tol); }
  }

  /** Of two unblocked entries of one group and one delta, the smaller id has its turn first. It
      is rejected while the larger is accepted exactly when it falls short at its turn and the
      turns between raise what it was short of. */
  lemma SmallerIdFirst(entries: seq<Entry>, i: nat, j: nat, cash: real, tol: real) returns (at: nat, until: nat)
    requires i < |entries| && j < |entries| && entries[i].id < entries[j].id
    requires !Blocked(entries[i]) && !Blocked(entries[j]) && Delta(entries[i]) == Delta(entries[j])
    requires Generator(entries[i]) == Generator(entries[j])
    ensures at < until < |Priority(entries)|
    ensures Priority(entries)[at] == Placed(entries[i], i) && Priority(entries)[until] == Placed(entries[j], j)
    ensures var queue, delta := Priority(entries), Delta(entries[i]);
      var short := -tol - (VirtualCash(queue, at, cash, tol) + delta);
      var overtaken := !Accepted(entries, i, cash, tol) && Accepted(entries, j, cash, tol);
      overtaken <==> delta < 0.0 && 0.0 < short <= Raised(queue, at, until, cash, tol)
  {
    hide Priority, Generator, FreesCash, Delta;
    at := TurnOf(entries, i);
    until := TurnOf(entries, j);
    GeneratorMeans(entries[i]);
    GeneratorMeans(entries[j]);
    if until < at { TurnsRise(entries, until, at); }
    RaisedMovesCash(Priority(entries), at, until, cash, tol);
    assert Accepted(entries, i, cash, tol) <==> Wins(Priority(entries), at, cash, tol);
    assert Accepted(entries, j, cash, tol) <==> Wins(Priority(entries), until, cash, tol);
  }

  /** So when only generators bring cash in, a larger id is never preferred. */
  lemma LargerIdNotPreferred(entries: seq<Entry>, i: nat, j: nat, cash: real, tol: real)
    requires i < |entries| && j < |entries| && entries[i].id < entries[j].id
    requires !Blocked(entries[i]) && !Blocked(entries[j]) && Delta(entries[i]) == Delta(entries[j])
    requires !Generator(entries[i]) && !Generator(entries[j])
    requires forall k :: 0 <= k < |entries| && !Blocked(entries[k]) && !Generator(entries[k]) ==>
      Delta(entries[k]) <= 0.0
    ensures Accepted(entries, j, cash, tol) ==> Accepted(entries, i, cash, tol)
  {
    hide Priority, Generator, FreesCash, Delta, Accepted;
    var queue := Priority(entries);
    var at, until := SmallerIdFirst(entries, i, j, cash, tol);
    forall k | at <= k < until && !Blocked(queue[k].entry) ensures Delta(queue[k].entry) <= 0.0 {
      assert queue[k] in queue;
      GeneratorMeans(queue[at].entry);
      GeneratorMeans(queue[k].entry);
      if at < k { TurnsRise(entries, at, k); }
    }
    CashOnlyFalls(queue, at, until, cash, tol);
    RaisedMovesCash(queue, at, until, cash, tol);
  }

  const BUY_OF_TEN: Entry := Entry(1, Buy, 1.0, 10.0, 0.0, 0.0, 1.0, [], [])
  const SHORT_OF_TWENTY: Entry := Entry(2, Sell, 1.0, 20.0, 0.0, 0.0, -1.0, [], [])

  /** Otherwise it can be: with no cash, a purchase of 10 is rejected, an opening short sale then
      raises 20, and the next purchase of 10 is accepted. */
  lemma LargerIdPreferred()
    ensures var entries := [BUY_OF_TEN, SHORT_OF_TWENTY, BUY_OF_TEN.(id := 3)];
      !Accepted(entries, 0, 0.0, 0.0) && Accepted(entries, 2, 0.0, 0.0)
  {
    hide Priority, Accepted;
    var entries := [BUY_OF_TEN, SHORT_OF_TWENTY, BUY_OF_TEN.(id := 3)];
    var queue := Priority(entries);
    QueueIsWhole(entries);
    var first := TurnOf(entries, 0);
    var second := TurnOf(entries, 1);
    var third := TurnOf(entries, 2);
    assert first == 0 && second == 1 && third == 2;
    var at, until := SmallerIdFirst(entries, 0, 2, 0.0, 0.0);
    assert VirtualCash(queue, 0, 0.0, 0.0) == 0.0;
    assert !Wins(queue, 0, 0.0, 0.0) && Wins(queue, 1, 0.0, 0.0);
    assert Raised(queue, 0, 0, 0.0, 0.0) == 0.0;
    assert Raised(queue, 0, 1, 0.0, 0.0) == 0.0;
    assert Raised(queue, 0, 2, 0.0, 0.0) == 20.0;
  }

  // ---- the queue holds each entry once -----------------------------------------------------------

  lemma QueueIsWhole(entries: seq<Entry>)
    ensures |Priority(entries)| == |entries|
  {
    var queue := Which(entries, true, |entries|) + Which(entries, false, |entries|);
    SortMultiset(queue, PlacedLe);
    WhichCounts(entries, |entries|);
  }

  lemma {:induction false} WhichCounts(entries: seq<Entry>, k: nat)
    requires k <= |entries|
    ensures |Which(entries, true, k)| + |Which(entries, false, k)| == k
  {
    if k > 0 { WhichCounts(entries, k - 1); }
  }

  // ---- order independence ------------------------------------------------------------------------

  ghost predicate DistinctIds(entries: seq<Entry>) {
    forall i, j :: 0 <= i < j < |entries| ==> entries[i].id != entries[j].id
  }

  /** The same entries, in some order. */
  ghost predicate SameEntries(a: seq<Entry>, b: seq<Entry>) { forall e :: e in a <==> e in b }

  function EntriesOf(queue: seq<Placed>): (s: seq<Entry>)
    ensures |s| == |queue| && forall k :: 0 <= k < |s| ==> s[k] == queue[k].entry
  {
    seq(|queue|, k requires 0 <= k < |queue| => queue[k].entry)
  }

  ghost predicate InPriority(s: seq<Entry>) {
    forall i, j :: 0 <= i < j < |s| ==> Precedes(s[i], s[j]) && s[i].id != s[j].id
  }

  lemma QueueInPriority(entries: seq<Entry>)
    requires DistinctIds(entries)
    ensures InPriority(EntriesOf(Priority(entries)))
    ensures forall e :: e in EntriesOf(Priority(entries)) <==> e in entries
  {
    var queue := Priority(entries);
    var s := EntriesOf(queue);
    forall i, j | 0 <= i < j < |s| ensures Precedes(s[i], s[j]) && s[i].id != s[j].id {
      assert PlacedLe(queue[i], queue[j]);
      assert queue[i] in queue && queue[j] in queue && queue[i] != queue[j];
      assert queue[i].place != queue[j].place;
    }
    forall e ensures e in s <==> e in entries {
      if e in s {
        var k :| 0 <= k < |s| && s[k] == e;
        assert queue[k] in queue;
      }
      if e in entries {
        var i :| 0 <= i < |entries| && entries[i] == e;
        var k := TurnOf(entries, i);
        assert s[k] == e;
      }
    }
  }

  /** A list in priority order is determined by its entries. */
  lemma {:induction false} PriorityUnique(a: seq<Entry>, b: seq<Entry>)
    requires InPriority(a) && InPriority(b) && SameEntries(a, b)
    ensures a == b
  {
    if a == [] {
      assert forall j :: 0 <= j < |b| ==> b[j] in b;
    } else {
      assert a[0] in a;
      assert b != [] && b[0] in b;
      SameFirst(a, b);
      forall e ensures e in a[1..] <==> e in b[1..] {
        assert e in a[1..] <==> e in a && e != a[0];
        assert e in b[1..] <==> e in b && e != b[0];
      }
      PriorityUnique(a[1..], b[1..]);
    }
  }

  lemma FirstPrecedes(s: seq<Entry>, e: Entry)
    requires InPriority(s) && e in s
    ensures e == s[0] || (Precedes(s[0], e) && s[0].id != e.id)
  {
    var i :| 0 <= i < |s| && s[i] == e;
  }

  lemma SameFirst(a: seq<Entry>, b: seq<Entry>)
    requires InPriority(a) && InPriority(b) && a != [] && b != [] && a[0] in b && b[0] in a
    ensures a[0] == b[0]
  {
    FirstPrecedes(a, b[0]);
    FirstPrecedes(b, a[0]);
  }

  lemma {:induction false} CashByEntries(a: seq<Placed>, b: seq<Placed>, k: nat, cash: real, tol: real)
    requires EntriesOf(a) == EntriesOf(b) && k <= |a|
    ensures |a| == |b| && VirtualCash(a, k, cash, tol) == VirtualCash(b, k, cash, tol)
  {
    assert |EntriesOf(a)| == |EntriesOf(b)|;
    if k > 0 {
      CashByEntries(a, b, k - 1, cash, tol);
      assert EntriesOf(a)[k - 1] == EntriesOf(b)[k - 1];
    }
  }

  /** With distinct ids, whatever order the entries come in, the same ones are accepted and
      the final cash is the same. */
  lemma OrderDoesNotMatter(entries: seq<Entry>, shuffled: seq<Entry>, i: nat, j: nat, cash: real, tol: real)
    requires DistinctIds(entries) && DistinctIds(shuffled) && SameEntries(entries, shuffled)
    requires i < |entries| && j < |shuffled| && entries[i] == shuffled[j]
    ensures Accepted(entries, i, cash, tol) <==> Accepted(shuffled, j, cash, tol)
    ensures var p, q := Priority(entries), Priority(shuffled);
      |p| == |q| && VirtualCash(p, |p|, cash, tol) == VirtualCash(q, |q|, cash, tol)
  {
    hide Priority, Wins;
    var p, q := Priority(entries), Priority(shuffled);
    QueueInPriority(entries);
    QueueInPriority(shuffled);
    PriorityUnique(EntriesOf(p), EntriesOf(q));
    var k := TurnOf(entries, i);
    var m := TurnOf(shuffled, j);
    assert EntriesOf(p)[k] == EntriesOf(p)[m];
    SamePlace(EntriesOf(p), k, m);
    CashByEntries(p, q, |p|, cash, tol);
    CashByEntries(p, q, k, cash, tol);
    SameWin(p, q, k, cash, tol);
  }

  lemma SamePlace(s: seq<Entry>, k: nat, m: nat)
    requires InPriority(s) && k < |s| && m < |s| && s[k] == s[m]
    ensures k == m
  {
  }

  lemma SameWin(p: seq<Placed>, q: seq<Placed>, k: nat, cash: real, tol: real)
    requires k < |p| && k < |q| && p[k].entry == q[k].entry
    requires VirtualCash(p, k, cash, tol) == VirtualCash(q, k, cash, tol)
    ensures Wins(p, k, cash, tol) <==> Wins(q, k, cash, tol)
  {
  }

  // ---- final cash is opening cash plus the accepted deltas ---------------------------------------

  ghost function SumOver(entries: seq<Entry>, s: set<nat>, n: nat): real
    requires n <= |entries|
  {
    if n == 0 then 0.0
    else SumOver(entries, s, n - 1) + if n - 1 in s then Delta(entries[n - 1]) else 0.0
  }

  lemma {:induction false} SumAdd(entries: seq<Entry>, s: set<nat>, x: nat, n: nat)
    requires n <= |entries| && x < |entries| && x !in s
    ensures SumOver(entries, s + {x}, n) == SumOver(entries, s, n) + if x < n then Delta(entries[x]) else 0.0
  {
    if n > 0 { SumAdd(entries, s, x, n - 1); }
  }

  lemma {:induction false} SumNothing(entries: seq<Entry>, n: nat)
    requires n <= |entries|
    ensures SumOver(entries, {}, n) == 0.0
  {
    if n > 0 { SumNothing(entries, n - 1); }
  }

  /** The places taken in the first `k` turns. */
  ghost function TakenPlaces(queue: seq<Placed>, k: nat, cash: real, tol: real): set<nat>
    requires k <= |queue|
  {
    set m: nat | m < k && Wins(queue, m, cash, tol) :: queue[m].place
  }

  lemma {:induction false} CashIsSum(entries: seq<Entry>, k: nat, cash: real, tol: real)
    requires k <= |Priority(entries)|
    ensures var queue := Priority(entries);
      VirtualCash(queue, k, cash, tol) == cash + SumOver(entries, TakenPlaces(queue, k, cash, tol), |entries|)
  {
    hide Priority, Wins, Delta;
    var queue := Priority(entries);
    if k == 0 {
      assert TakenPlaces(queue, 0, cash, tol) == {};
      SumNothing(entries, |entries|);
    } else {
      CashIsSum(entries, k - 1, cash, tol);
      var before := TakenPlaces(queue, k - 1, cash, tol);
      var x := queue[k - 1].place;
      assert queue[k - 1] in queue;
      StepCash(queue, k, cash, tol);
      if Wins(queue, k - 1, cash, tol) {
        assert TakenPlaces(queue, k, cash, tol) == before + {x};
        EarlierPlaces(entries, k, cash, tol);
        SumAdd(entries, before, x, |entries|);
      } else {
        assert TakenPlaces(queue, k, cash, tol) == before;
      }
    }
  }

  lemma StepCash(queue: seq<Placed>, k: nat, cash: real, tol: real)
    requires 0 < k <= |queue|
    ensures VirtualCash(queue, k, cash, tol)
         == VirtualCash(queue, k - 1, cash, tol)
          + if Wins(queue, k - 1, cash, tol) then Delta(queue[k - 1].entry) else 0.0
  {
  }

  lemma EarlierPlaces(entries: seq<Entry>, k: nat, cash: real, tol: real)
    requires 0 < k <= |Priority(entries)|
    ensures Priority(entries)[k - 1].place !in TakenPlaces(Priority(entries), k - 1, cash, tol)
  {
    hide Priority, Wins;
    var queue := Priority(entries);
    forall m: nat | m < k - 1 ensures queue[m].place != queue[k - 1].place {
      assert queue[m] in queue && queue[k - 1] in queue && queue[m] != queue[k - 1];
    }
  }

  /** The accepted input entries, in input order, and the sum of their deltas. */
  ghost function AcceptedEntries(entries: seq<Entry>, n: nat, cash: real, tol: real): seq<Entry>
    requires n <= |entries|
  {
    if n == 0 then []
    else
      AcceptedEntries(entries, n - 1, cash, tol)
      + if Accepted(entries, n - 1, cash, tol) then [entries[n - 1]] else []
  }

  ghost function SumDeltas(s: seq<Entry>): real {
    if s == [] then 0.0 else SumDeltas(s[..|s| - 1]) + Delta(s[|s| - 1])
  }

  lemma {:induction false} AcceptedSum(entries: seq<Entry>, n: nat, taken: set<nat>, cash: real, tol: real)
    requires n <= |entries| && forall i: nat :: i < |entries| ==> (i in taken <==> Accepted(entries, i, cash, tol))
    ensures SumDeltas(AcceptedEntries(entries, n, cash, tol)) == SumOver(entries, taken, n)
  {
    hide Accepted, Delta;
    if n > 0 {
      AcceptedSum(entries, n - 1, taken, cash, tol);
      var before := AcceptedEntries(entries, n - 1, cash, tol);
      assert (before + [entries[n - 1]])[..|before|] == before;
      assert before + [] == before;
    }
  }

  /** Final cash is opening cash plus what the accepted entries cost and bring. */
  lemma FinalCashIsSum(entries: seq<Entry>, cash: real, tol: real)
    ensures |Priority(entries)| == |entries|
    ensures VirtualCash(Priority(entries), |entries|, cash, tol)
         == cash + SumDeltas(AcceptedEntries(entries, |entries|, cash, tol))
  {
    hide Priority, Wins;
    QueueIsWhole(entries);
    CashIsSum(entries, |entries|, cash, tol);
    AcceptedSum(entries, |entries|, TakenPlaces(Priority(entries), |entries|, cash, tol), cash, tol);
  }

  // ---- the allocator ------------------------------------------------------------------------------

  datatype Rejection = Rejection(entry: Entry, code: int, reasons: seq<int>)

  function BlockingAfter(e: Entry, affordable: bool): seq<int> {
    if affordable then e.blocking else Unique(e.blocking) + [INSUFFICIENT_CASH]
  }

  function Reasons(e: Entry, affordable: bool): seq<int> {
    Unique(BlockingAfter(e, affordable)) + Unique(e.informational)
  }

  lemma {:induction false} UniqueKeepsFirst(s: seq<int>)
    ensures s != [] ==> Unique(s) != [] && Unique(s)[0] == s[0]
  {
    if |s| > 1 {
      UniqueKeepsFirst(s[..|s| - 1]);
    } else if |s| == 1 {
      assert s[..0] == [];
    }
  }

  lemma UniqueHolds(s: seq<int>)
    ensures forall x :: x in Unique(s) <==> x in s
  {
    forall x ensures x in Unique(s) <==> x in s {
      if x in s { var i :| 0 <= i < |s| && s[i] == x; }
      if x in Unique(s) { var i :| 0 <= i < |Unique(s)| && Unique(s)[i] == x; }
    }
  }

  /** A rejection's code is its first blocking reason; lack of cash comes last. */
  function RejectionOf(e: Entry, affordable: bool): (r: Rejection)
    requires Blocked(e) || !affordable
    ensures r.entry == e && r.code == if Blocked(e) then e.blocking[0] else INSUFFICIENT_CASH
    ensures Distinct(r.reasons) && r.reasons != [] && r.reasons[0] == r.code
    ensures forall x :: x in r.reasons <==>
      x in e.blocking || x in e.informational || (!affordable && x == INSUFFICIENT_CASH)
  {
    UniqueKeepsFirst(Reasons(e, affordable));
    UniqueHolds(Reasons(e, affordable));
    UniqueHolds(BlockingAfter(e, affordable));
    UniqueHolds(e.blocking);
    UniqueHolds(e.informational);
    UniqueKeepsFirst(BlockingAfter(e, affordable));
    UniqueKeepsFirst(e.blocking);
    Rejection(e, Reasons(e, affordable)[0], Unique(Reasons(e, affordable)))
  }

  /** Whether an input entry was affordable when its turn came. */
  ghost predicate AffordableAtTurn(entries: seq<Entry>, i: nat, cash: real, tol: real) {
    var queue := Priority(entries);
    exists k :: 0 <= k < |queue| && queue[k].place == i
      && Affordable(VirtualCash(queue, k, cash, tol), Delta(queue[k].entry), tol)
  }

  lemma AcceptedMeans(entries: seq<Entry>, i: nat, cash: real, tol: real)
    requires i < |entries|
    ensures Accepted(entries, i, cash, tol) <==> !Blocked(entries[i]) && AffordableAtTurn(entries, i, cash, tol)
  {
    hide Priority, Affordable;
    var k := TurnOf(entries, i);
  }

  ghost function RejectedEntries(entries: seq<Entry>, n: nat, cash: real, tol: real): seq<Rejection>
    requires n <= |entries|
  {
    if n == 0 then []
    else
      AcceptedMeans(entries, n - 1, cash, tol);
      RejectedEntries(entries, n - 1, cash, tol)
      + if Accepted(entries, n - 1, cash, tol) then []
        else [RejectionOf(entries[n - 1], AffordableAtTurn(entries, n - 1, cash, tol))]
  }

  /** What is recorded for an input entry after the first `k` turns. */
  ghost predicate Recorded(entries: seq<Entry>, k: nat, i: nat, cash: real, tol: real, accepted: bool, short: bool)
    requires k <= |Priority(entries)| && i < |entries|
  {
    var queue := Priority(entries);
    && (accepted <==> exists m :: 0 <= m < k && queue[m].place == i && Wins(queue, m, cash, tol))
    && (short <==> exists m :: 0 <= m < k && queue[m].place == i
                     && !Affordable(VirtualCash(queue, m, cash, tol), Delta(queue[m].entry), tol))
  }

  /** The loop over the queue. */
  method TakeTurns(entries: seq<Entry>, cash: real, tol: real)
    returns (accepted: seq<bool>, short: seq<bool>, finalCash: real)
    ensures |accepted| == |short| == |entries| == |Priority(entries)|
    ensures finalCash == VirtualCash(Priority(entries), |entries|, cash, tol)
    ensures forall i :: 0 <= i < |entries| ==> Recorded(entries, |entries|, i, cash, tol, accepted[i], short[i])
  {
    hide Priority, Delta;
    var queue := Priority(entries);
    QueueIsWhole(entries);
    accepted, short := seq(|entries|, _ => false), seq(|entries|, _ => false);
    finalCash := cash;
    for k := 0 to |queue|
      invariant |accepted| == |short| == |entries|
      invariant finalCash == VirtualCash(queue, k, cash, tol)
      invariant forall i :: 0 <= i < |entries| ==> Recorded(entries, k, i, cash, tol, accepted[i], short[i])
    {
      assert queue[k] in queue;
      var e, place := queue[k].entry, queue[k].place;
      var nextCash := finalCash + Delta(e);
      var affordable := Delta(e) >= 0.0 || nextCash >= -tol;
      ghost var wasAccepted, wasShort := accepted, short;
      if !Blocked(e) && affordable {
        accepted := accepted[place := true];
        finalCash := nextCash;
      } else if !affordable {
        short := short[place := true];
      }
      forall i | 0 <= i < |entries| ensures Recorded(entries, k + 1, i, cash, tol, accepted[i], short[i]) {
        assert Recorded(entries, k, i, cash, tol, wasAccepted[i], wasShort[i]);
        RecordTurn(entries, k, i, cash, tol, wasAccepted[i], wasShort[i]);
      }
    }
  }

  lemma RecordTurn(entries: seq<Entry>, k: nat, i: nat, cash: real, tol: real, accepted: bool, short: bool)
    requires k < |Priority(entries)| && i < |entries| && Recorded(entries, k, i, cash, tol, accepted, short)
    ensures var queue := Priority(entries);
      var here := queue[k].place == i;
      Recorded(entries, k + 1, i, cash, tol,
               accepted || (here && Wins(queue, k, cash, tol)),
               short || (here && !Affordable(VirtualCash(queue, k, cash, tol), Delta(queue[k].entry), tol)))
  {
    hide Priority, Wins, Affordable;
  }

  lemma RecordIsFinal(entries: seq<Entry>, i: nat, cash: real, tol: real, accepted: bool, short: bool)
    requires |Priority(entries)| == |entries| && i < |entries|
    requires Recorded(entries, |entries|, i, cash, tol, accepted, short)
    ensures accepted <==> Accepted(entries, i, cash, tol)
    ensures short <==> !AffordableAtTurn(entries, i, cash, tol)
  {
    hide Priority, Wins, Affordable;
    var k := TurnOf(entries, i);
  }

  /** `apply_affordability`: accepted and rejected entries partition the input in its own
      order, and final cash is what the queue left. */
  method ApplyAffordability(entries: seq<Entry>, cash: real, tol: real)
    returns (accepted: seq<Entry>, rejected: seq<Rejection>, finalCash: real)
    ensures accepted == AcceptedEntries(entries, |entries|, cash, tol)
    ensures rejected == RejectedEntries(entries, |entries|, cash, tol)
    ensures finalCash == cash + SumDeltas(accepted)
    ensures cash >= -tol ==> finalCash >= -tol
  {
    hide Priority, Recorded, Delta, AcceptedEntries, SumDeltas;
    var flags, short: seq<bool>;
    flags, short, finalCash := TakeTurns(entries, cash, tol);
    FinalCashIsSum(entries, cash, tol);
    if cash >= -tol { CashStaysAboveFloor(Priority(entries), |entries|, cash, tol); }
    forall i | 0 <= i < |entries| ensures Settled(entries, i, cash, tol, flags[i], short[i]) {
      RecordIsFinal(entries, i, cash, tol, flags[i], short[i]);
    }
    accepted, rejected := Partition(entries, flags, short, cash, tol);
  }

  ghost predicate Settled(entries: seq<Entry>, i: nat, cash: real, tol: real, accepted: bool, short: bool)
    requires i < |entries|
  {
    (accepted <==> Accepted(entries, i, cash, tol)) && (short <==> !AffordableAtTurn(entries, i, cash, tol))
  }

  method Partition(entries: seq<Entry>, flags: seq<bool>, short: seq<bool>, ghost cash: real, ghost tol: real)
    returns (accepted: seq<Entry>, rejected: seq<Rejection>)
    requires |flags| == |short| == |entries|
    requires forall i :: 0 <= i < |entries| ==> Settled(entries, i, cash, tol, flags[i], short[i])
    ensures accepted == AcceptedEntries(entries, |entries|, cash, tol)
    ensures rejected == RejectedEntries(entries, |entries|, cash, tol)
  {
    hide Accepted, AffordableAtTurn, RejectionOf;
    accepted, rejected := [], [];
    for i := 0 to |entries|
      invariant accepted == AcceptedEntries(entries, i, cash, tol)
      invariant rejected == RejectedEntries(entries, i, cash, tol)
    {
      assert Settled(entries, i, cash, tol, flags[i], short[i]);
      AcceptedMeans(entries, i, cash, tol);
      if flags[i] {
        accepted := accepted + [entries[i]];
      } else {
        rejected := rejected + [RejectionOf(entries[i], !short[i])];
      }
    }
  }
}
