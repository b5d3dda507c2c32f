/** The cursor over a compiled table: it steps forward with rising cutoffs and re-seeks when
    the cutoff falls, so what it reads depends on the cutoff alone. */
module SegmentCursor {
  import opened Wrappers
  import opened Ordering
  import opened Segments

  predicate AtMost(b: Option<int>, t: int) { b.None? || b.value <= t }

  /** Instrument `i`'s cells begin with one that is always reached and rise strictly. */
  ghost predicate SliceRises(bound: seq<Option<int>>, low: nat, limit: nat) {
    && low < limit <= |bound| && bound[low] == None
    && (forall j :: low < j < limit ==> bound[j].Some?)
    && (forall j, k :: low < j < k < limit ==> bound[j].value < bound[k].value)
  }

  ghost predicate Rises<C>(t: Table<C>) {
    && |t.off| == |t.cnt| && |t.bound| == |t.codes|
    && forall i :: 0 <= i < |t.off| ==> SliceRises(t.bound, t.off[i], t.off[i] + t.cnt[i])
  }

  /** `c` is the last of the cells `low..limit` whose boundary is at or before `t`. */
  ghost predicate Settled(bound: seq<Option<int>>, low: nat, limit: nat, t: int, c: nat) {
    && low <= c < limit <= |bound| && AtMost(bound[c], t)
    && (c + 1 < limit ==> !AtMost(bound[c + 1], t))
  }

  lemma TableRises<C>(t: Table<C>, count: nat, rule: Rule<C>, rows: seq<Timed>)
    requires IsTable(t, count, rule, rows)
    ensures Rises(t)
  {
    hide Boundaries, Direct;
    forall i | 0 <= i < count ensures SliceRises(t.bound, t.off[i], t.off[i] + t.cnt[i]) {
      assert SliceIs(t, i, rule, rows);
    }
  }

  /** Reading the settled cell is resolving the facts applicable at exactly the cutoff. */
  lemma SettledReadsDirect<C>(t: Table<C>, count: nat, rule: Rule<C>, rows: seq<Timed>, i: nat, cutoff: int, c: nat)
    requires IsTable(t, count, rule, rows) && i < count
    requires Settled(t.bound, t.off[i], t.off[i] + t.cnt[i], cutoff, c)
    ensures t.codes[c] == Direct(rows, rule, i, cutoff)
  {
    hide Boundaries, Direct, RowsOf;
    assert SliceIs(t, i, rule, rows);
    var b := Boundaries(rows, RowsOf(rows, i, |rows|));
    var k := c - t.off[i];
    forall j | k <= j < |b| ensures b[j] > cutoff {
      assert t.bound[c + 1] == Some(b[k]);
      assert j == k || b[k] < b[j];
    }
    forall j | 0 <= j < k ensures b[j] <= cutoff {
      assert t.bound[c] == Some(b[k - 1]);
      assert j == k - 1 || b[j] < b[k - 1];
    }
    PiecewiseConstant(rows, rule, i, cutoff, k);
  }

  // ---- the vectorised re-seek -----------------------------------------------------------

  /** `cs[k]`: how many of the first `k` boundaries are at or before the cutoff. */
  function Reached(bound: seq<Option<int>>, t: int, k: nat): (n: nat)
    requires k <= |bound|
    ensures n <= k
  {
    if k == 0 then 0 else Reached(bound, t, k - 1) + if AtMost(bound[k - 1], t) then 1 else 0
  }

  method CumulativeReached(bound: seq<Option<int>>, t: int) returns (cs: seq<nat>)
    ensures |cs| == |bound| + 1 && forall k :: 0 <= k < |cs| ==> cs[k] == Reached(bound, t, k)
  {
    cs := [0];
    for k := 0 to |bound|
      invariant |cs| == k + 1 && forall n :: 0 <= n <= k ==> cs[n] == Reached(bound, t, n)
    {
      cs := cs + [cs[k] + if AtMost(bound[k], t) then 1 else 0];
    }
  }

  lemma {:induction false} ReachedAll(bound: seq<Option<int>>, t: int, low: nat, high: nat)
    requires low <= high <= |bound| && forall j :: low <= j < high ==> AtMost(bound[j], t)
    ensures Reached(bound, t, high) == Reached(bound, t, low) + (high - low)
  {
    if low < high { ReachedAll(bound, t, low, high - 1); }
  }

  lemma {:induction false} ReachedNone(bound: seq<Option<int>>, t: int, low: nat, high: nat)
    requires low <= high <= |bound| && forall j :: low <= j < high ==> !AtMost(bound[j], t)
    ensures Reached(bound, t, high) == Reached(bound, t, low)
  {
    if low < high { ReachedNone(bound, t, low, high - 1); }
  }

  /** The last reached cell of a rising slice. */
  lemma {:induction false} LastReached(bound: seq<Option<int>>, low: nat, limit: nat, t: int) returns (c: nat)
    requires SliceRises(bound, low, limit)
    ensures Settled(bound, low, limit, t, c)
    ensures forall j :: low <= j < limit ==> (AtMost(bound[j], t) <==> j <= c)
  {
    c := low;
    while c + 1 < limit && AtMost(bound[c + 1], t)
      invariant low <= c < limit
      invariant forall j :: low <= j <= c ==> AtMost(bound[j], t)
    {
      c := c + 1;
    }
    forall j | c < j < limit ensures !AtMost(bound[j], t) {
      assert j == c + 1 || bound[c + 1].value < bound[j].value;
    }
  }

  /** Counting reached cells inside the slice lands on the last of them. */
  lemma CountSettles(bound: seq<Option<int>>, low: nat, limit: nat, t: int)
    requires SliceRises(bound, low, limit)
    ensures Reached(bound, t, limit) - Reached(bound, t, low) >= 1
    ensures Settled(bound, low, limit, t, low + (Reached(bound, t, limit) - Reached(bound, t, low)) - 1)
  {
    var c := LastReached(bound, low, limit, t);
    ReachedAll(bound, t, low, c + 1);
    ReachedNone(bound, t, c + 1, limit);
  }

  /** A slice has one settled cell. */
  lemma SettledUnique(bound: seq<Option<int>>, low: nat, limit: nat, t: int, c: nat, d: nat)
    requires SliceRises(bound, low, limit) && Settled(bound, low, limit, t, c) && Settled(bound, low, limit, t, d)
    ensures c == d
  {
    var e := LastReached(bound, low, limit, t);
  }

  // ---- the cursor --------------------------------------------------------------------------

  /** How far the cursors can still move. */
  ghost function Room<C>(t: Table<C>, cur: seq<nat>, n: nat): nat
    requires n <= |cur| == |t.off| == |t.cnt|
    requires forall i :: 0 <= i < |cur| ==> cur[i] < t.off[i] + t.cnt[i]
    decreases n
  {
    if n == 0 then 0
    else
      var left: nat := t.off[n - 1] + t.cnt[n - 1] - cur[n - 1];
      Room(t, cur, n - 1) + left
  }

  lemma {:induction false} RoomShrinks<C>(t: Table<C>, cur: seq<nat>, next: seq<nat>, n: nat)
    requires n <= |cur| == |next| == |t.off| == |t.cnt|
    requires forall i :: 0 <= i < |cur| ==> cur[i] <= next[i] < t.off[i] + t.cnt[i]
    ensures Room(t, next, n) <= Room(t, cur, n)
    ensures (exists i :: 0 <= i < n && cur[i] < next[i]) ==> Room(t, next, n) < Room(t, cur, n)
    decreases n
  {
    if n > 0 { RoomShrinks(t, cur, next, n - 1); }
  }

  class Cursor<C> {
    const table: Table<C>
    var cur: seq<nat>
    var last: Option<int>

    /** Every instrument's cursor is in its own cells, with a reached boundary. */
    ghost predicate Valid()
      reads this
    {
      && Rises(table) && |cur| == |table.off|
      && (last.None? ==> cur == table.off)
      && (last.Some? ==> Placed(last.value))
    }

    /** Every cursor sits on the last boundary of its slice at or before `t`. */
    ghost predicate Placed(t: int)
      requires Rises(table)
      reads this
    {
      |cur| == |table.off|
      && forall i :: 0 <= i < |cur| ==> Settled(table.bound, table.off[i], table.off[i] + table.cnt[i], t, cur[i])
    }

    constructor (table: Table<C>)
      requires Rises(table)
      ensures Valid() && this.table == table && last == None
    {
      this.table, cur, last := table, table.off, None;
    }

    /** Places every cursor by counting reached boundaries. */
    method Reseek(t: int)
      requires Rises(table) && |cur| == |table.off|
      modifies this`cur
      ensures Placed(t)
    {
      var cs := CumulativeReached(table.bound, t);
      var n := |table.off|;
      var next: seq<nat> := [];
      for i := 0 to n
        invariant |next| == i
        invariant forall k :: 0 <= k < i ==> Settled(table.bound, table.off[k], table.off[k] + table.cnt[k], t, next[k])
      {
        var low, limit := table.off[i], table.off[i] + table.cnt[i];
        assert SliceRises(table.bound, low, limit);
        CountSettles(table.bound, low, limit, t);
        next := next + [low + (cs[limit] - cs[low]) - 1];
      }
      cur := next;
    }

    /** One round of the repeat loop. */
    method Round(t: int) returns (moved: bool)
      requires Rises(table) && AllReach(table, cur, t)
      modifies this`cur
      ensures AllReach(table, cur, t)
      ensures moved ==> 0 <= Room(table, cur, |cur|) < old(Room(table, cur, |cur|))
      ensures !moved ==> Placed(t) && cur == old(cur)
    {
      var adv := Movable(table, cur, t);
      moved := exists i :: 0 <= i < |adv| && adv[i];
      if moved {
        RoundMoves(table, cur, adv, t);
        cur := Moved(cur, adv);
      } else {
        RoundEnds(table, cur, adv, t);
      }
    }

    /** Moves every cursor on, a cell at a time, until none can move. */
    method Advance(t: int)
      requires Rises(table) && AllReach(table, cur, t)
      modifies this`cur
      ensures Placed(t)
    {
      var moved := true;
      while moved
        invariant AllReach(table, cur, t)
        invariant !moved ==> Placed(t)
        decreases Room(table, cur, |cur|), moved
      {
        moved := Round(t);
      }
    }

    lemma LaterReaches(t: int)
      requires Valid() && last.Some? && last.value <= t
      ensures AllReach(table, cur, t)
    {
      forall i | 0 <= i < |cur| ensures Reaches(table, i, cur[i], t) {
        assert Settled(table.bound, table.off[i], table.off[i] + table.cnt[i], last.value, cur[i]);
      }
    }

    /** Any cutoff, in any order. */
    method Seek(t: int)
      requires Valid()
      modifies this
      ensures Valid() && last == Some(t)
    {
      if last.None? || t < last.value {
        Reseek(t);
      } else if t > last.value {
        LaterReaches(t);
        Advance(t);
      }
      last := Some(t);
    }

    /** What the cursor reads after a seek is the direct answer at that cutoff, whatever was
        sought before. */
    method Read(ghost count: nat, ghost rule: Rule<C>, ghost rows: seq<Timed>, i: nat) returns (code: C)
      requires Valid() && last.Some? && IsTable(table, count, rule, rows) && i < count
      ensures code == Direct(rows, rule, i, last.value)
    {
      assert Settled(table.bound, table.off[i], table.off[i] + table.cnt[i], last.value, cur[i]);
      assert SliceIs(table, i, rule, rows);
      SettledReadsDirect(table, count, rule, rows, i, last.value, cur[i]);
      code := table.codes[cur[i]];
    }
  }

  predicate InSlice<C>(t: Table<C>, i: nat, c: nat)
    requires Rises(t) && i < |t.off|
    ensures InSlice(t, i, c) ==> c < |t.bound|
  {
    assert SliceRises(t.bound, t.off[i], t.off[i] + t.cnt[i]);
    c < t.off[i] + t.cnt[i]
  }

  /** The cursor is in its slice, on a boundary at or before the cutoff. */
  ghost predicate Reaches<C>(t: Table<C>, i: nat, c: nat, cutoff: int)
    requires Rises(t) && i < |t.off|
  {
    t.off[i] <= c < t.off[i] + t.cnt[i] <= |t.bound| && AtMost(t.bound[c], cutoff)
  }

  ghost predicate AllReach<C>(t: Table<C>, cur: seq<nat>, cutoff: int)
    requires Rises(t)
  {
    && |cur| == |t.off|
    && (forall i :: 0 <= i < |cur| ==> cur[i] < t.off[i] + t.cnt[i])
    && forall i :: 0 <= i < |cur| ==> Reaches(t, i, cur[i], cutoff)
  }

  /** Which cursors can move on by one cell. */
  function Movable<C>(t: Table<C>, cur: seq<nat>, cutoff: int): (adv: seq<bool>)
    requires Rises(t) && |cur| == |t.off|
    ensures |adv| == |cur|
    ensures forall i :: 0 <= i < |cur| ==> (adv[i] <==> CanMove(t, i, cur[i], cutoff))
  {
    seq(|cur|, i requires 0 <= i < |cur| && Rises(t) && |cur| == |t.off| => CanMove(t, i, cur[i], cutoff))
  }

  predicate CanMove<C>(t: Table<C>, i: nat, c: nat, cutoff: int)
    requires Rises(t) && i < |t.off|
  {
    InSlice(t, i, c + 1) && AtMost(t.bound[c + 1], cutoff)
  }

  lemma MoveReaches<C>(t: Table<C>, i: nat, c: nat, cutoff: int, moves: bool)
    requires Rises(t) && i < |t.off| && Reaches(t, i, c, cutoff) && moves == CanMove(t, i, c, cutoff)
    ensures Reaches(t, i, if moves then c + 1 else c, cutoff)
    ensures !moves ==> Settled(t.bound, t.off[i], t.off[i] + t.cnt[i], cutoff, c)
  {
  }

  /** A round with some movement keeps every cursor reached and leaves less room. */
  lemma RoundMoves<C>(t: Table<C>, cur: seq<nat>, adv: seq<bool>, cutoff: int)
    requires Rises(t) && AllReach(t, cur, cutoff) && adv == Movable(t, cur, cutoff)
    requires exists i :: 0 <= i < |adv| && adv[i]
    ensures AllReach(t, Moved(cur, adv), cutoff)
    ensures Room(t, Moved(cur, adv), |cur|) < Room(t, cur, |cur|)
  {
    hide Room, CanMove;
    var next := Moved(cur, adv);
    forall i | 0 <= i < |next| ensures Reaches(t, i, next[i], cutoff) {
      MoveReaches(t, i, cur[i], cutoff, adv[i]);
    }
    InReach(t, next, cutoff);
    RoomShrinks(t, cur, next, |cur|);
  }

  lemma InReach<C>(t: Table<C>, cur: seq<nat>, cutoff: int)
    requires Rises(t) && |cur| == |t.off| && forall i :: 0 <= i < |cur| ==> Reaches(t, i, cur[i], cutoff)
    ensures AllReach(t, cur, cutoff)
  {
  }

  lemma RoundEnds<C>(t: Table<C>, cur: seq<nat>, adv: seq<bool>, cutoff: int)
    requires Rises(t) && AllReach(t, cur, cutoff) && adv == Movable(t, cur, cutoff)
    requires !exists i :: 0 <= i < |adv| && adv[i]
    ensures forall i :: 0 <= i < |cur| ==> Settled(t.bound, t.off[i], t.off[i] + t.cnt[i], cutoff, cur[i])
  {
    hide CanMove;
    forall i | 0 <= i < |cur| ensures Settled(t.bound, t.off[i], t.off[i] + t.cnt[i], cutoff, cur[i]) {
      MoveReaches(t, i, cur[i], cutoff, adv[i]);
    }
  }

  function Moved(cur: seq<nat>, adv: seq<bool>): (next: seq<nat>)
    requires |cur| == |adv|
    ensures |next| == |cur|
    ensures forall i :: 0 <= i < |cur| ==> next[i] == if adv[i] then cur[i] + 1 else cur[i]
  {
    seq(|cur|, i requires 0 <= i < |cur| && |cur| == |adv| => if adv[i] then cur[i] + 1 else cur[i])
  }

  // ---- from facts to answers -------------------------------------------------------------

  ghost predicate DirectAnswers<C>(rows: seq<Timed>, rule: Rule<C>, count: nat, cutoff: int, answers: seq<C>) {
    |answers| == count && forall i :: 0 <= i < count ==> answers[i] == Direct(rows, rule, i, cutoff)
  }

  method ReadAll<C>(cursor: Cursor<C>, ghost rows: seq<Timed>, ghost rule: Rule<C>, count: nat)
    returns (answers: seq<C>)
    requires cursor.Valid() && cursor.last.Some? && IsTable(cursor.table, count, rule, rows)
    ensures DirectAnswers(rows, rule, count, cursor.last.value, answers)
  {
    hide Direct, IsTable;
    answers := [];
    for i := 0 to count
      invariant |answers| == i && forall k :: 0 <= k < i ==> answers[k] == Direct(rows, rule, k, cursor.last.value)
    {
      var code := cursor.Read(count, rule, rows, i);
      answers := answers + [code];
    }
  }

  /** Compile once, then seek any list of cutoffs, rising, falling or repeated: every answer
      is the direct one at its own cutoff. */
  method AnswerAll<C>(rows: seq<Timed>, rule: Rule<C>, count: nat, cutoffs: seq<int>) returns (answers: seq<seq<C>>)
    ensures |answers| == |cutoffs|
    ensures forall k :: 0 <= k < |cutoffs| ==> DirectAnswers(rows, rule, count, cutoffs[k], answers[k])
  {
    var table := BuildTable(rows, rule, count);
    TableRises(table, count, rule, rows);
    var cursor := new Cursor(table);
    answers := [];
    for k := 0 to |cutoffs|
      invariant cursor.Valid() && cursor.table == table && fresh(cursor)
      invariant |answers| == k
      invariant forall n :: 0 <= n < k ==> DirectAnswers(rows, rule, count, cutoffs[n], answers[n])
    {
      cursor.Seek(cutoffs[k]);
      var column := ReadAll(cursor, rows, rule, count);
      answers := answers + [column];
    }
  }
}
