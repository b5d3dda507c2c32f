/** Point-in-time universe membership: set headers, the rows they list, interval rows, and
    what a cutoff is entitled to know of them. */
module MembershipFacts {
  import opened Wrappers
  import opened Clocks
  import opened Ordering

  /** A membership set: complete sets also deny whoever they omit. A clock may be missing. */
  datatype Header = Header(setId: int, from: Option<int>, known: Option<int>, complete: bool)

  /** A membership row belongs to a set or stands for an interval of its own. */
  datatype Row = Row(factId: int, inst: int, setId: Option<int>,
                     from: Option<int>, known: Option<int>, until: Option<int>, member: bool)

  predicate Eligible(h: Header, t: int) { Reached(h.from, t) && Reached(h.known, t) }

  predicate Applicable(r: Row, t: int) { Applies(r.from, r.known, r.until, t) }

  function EligibleAt(t: int): Header -> bool { (h: Header) => Eligible(h, t) }
  function ApplicableAt(t: int): Row -> bool { (r: Row) => Applicable(r, t) }

  // ---- processing order: by clocks, missing last, then by id ----------------------------

  predicate ClockLess(a: Option<int>, b: Option<int>) { a.Some? && (b.None? || a.value < b.value) }

  predicate Before(f: Option<int>, k: Option<int>, id: int, f': Option<int>, k': Option<int>, id': int) {
    ClockLess(f, f') || (f == f' && (ClockLess(k, k') || (k == k' && id <= id')))
  }

  predicate HeaderLe(a: Header, b: Header) { Before(a.from, a.known, a.setId, b.from, b.known, b.setId) }
  predicate RowLe(a: Row, b: Row) { Before(a.from, a.known, a.factId, b.from, b.known, b.factId) }

  lemma OrdersAreTotal()
    ensures TotalPreorder(HeaderLe) && TotalPreorder(RowLe)
  {
  }

  // ---- evidence ----------------------------------------------------------------------------

  datatype Reason = NoReason | OmittedFromCompleteSet | MemberAsserted | NonmemberAsserted

  datatype Evidence = NoEvidence | OfSet(setId: int) | OfSetRow(setId: int, factId: int) | OfFact(factId: int)

  /** What is held about one instrument, and since when its evidence has been known. */
  datatype Note = Note(known: bool, member: bool, reason: Reason, evidence: Evidence, since: Option<int>)

  const BLANK: Note := Note(false, false, NoReason, NoEvidence, None)

  function Omitted(h: Header): Note { Note(true, false, OmittedFromCompleteSet, OfSet(h.setId), h.known) }

  function Listed(h: Header, r: Row): Note { Note(true, true, MemberAsserted, OfSetRow(h.setId, r.factId), h.known) }

  function Asserted(r: Row): Note {
    Note(true, r.member, if r.member then MemberAsserted else NonmemberAsserted, OfFact(r.factId), r.known)
  }

  // ---- set rows ------------------------------------------------------------------------------

  /** `match`: the first header with this id. */
  function FirstHeader(headers: seq<Header>, setId: int): (i: Option<nat>)
    ensures i.Some? ==> i.value < |headers| && headers[i.value].setId == setId
    ensures i.None? ==> forall j :: 0 <= j < |headers| ==> headers[j].setId != setId
  {
    if headers == [] then None
    else if headers[0].setId == setId then Some(0)
    else
      var rest := FirstHeader(headers[1..], setId);
      if rest.None? then
        assert forall j :: 1 <= j < |headers| ==> headers[j] == headers[1..][j - 1];
        None
      else Some(rest.value + 1)
  }

  predicate BelongsTo(headers: seq<Header>, i: nat, r: Row) {
    r.setId.Some? && FirstHeader(headers, r.setId.value) == Some(i)
  }

  /** `by_header`: the rows matched to header `i`, in table order. */
  function RowsOfHeader(headers: seq<Header>, rows: seq<Row>, i: nat): seq<Row> {
    Filter(rows, (r: Row) => BelongsTo(headers, i, r))
  }

  predicate InSet(r: Row, setId: int) { r.setId == Some(setId) }

  function SetRows(rows: seq<Row>, setId: int): seq<Row> { Filter(rows, (r: Row) => InSet(r, setId)) }

  ghost predicate DistinctSets(headers: seq<Header>) {
    forall i, j :: 0 <= i < j < |headers| ==> headers[i].setId != headers[j].setId
  }

  /** With distinct set ids a header's rows depend on its id alone. */
  lemma RowsById(headers: seq<Header>, rows: seq<Row>, i: nat)
    requires DistinctSets(headers) && i < |headers|
    ensures RowsOfHeader(headers, rows, i) == SetRows(rows, headers[i].setId)
  {
    forall r: Row ensures BelongsTo(headers, i, r) <==> InSet(r, headers[i].setId) {
      if InSet(r, headers[i].setId) {
        var f := FirstHeader(headers, headers[i].setId);
        assert f.Some?;
      }
    }
    FilterSame(rows, (r: Row) => BelongsTo(headers, i, r), (r: Row) => InSet(r, headers[i].setId));
  }

  /** The first of a group's rows for an instrument; later duplicates do not count. */
  function ListingOf(group: seq<Row>, inst: int): (r: Option<Row>)
    ensures r.Some? ==> exists i :: 0 <= i < |group| && group[i] == r.value && FirstFor(group, inst, i)
    ensures r.None? ==> forall i :: 0 <= i < |group| ==> group[i].inst != inst
  {
    if group == [] then None
    else if group[0].inst == inst then
      assert FirstFor(group, inst, 0);
      Some(group[0])
    else
      var rest := ListingOf(group[1..], inst);
      FirstForShift(group, inst);
      assert rest.None? ==> forall i :: 1 <= i < |group| ==> group[i] == group[1..][i - 1];
      rest
  }

  /** Place `i` holds the instrument's first row in the group. */
  predicate FirstFor(group: seq<Row>, inst: int, i: int) {
    0 <= i < |group| && group[i].inst == inst && forall j :: 0 <= j < i ==> group[j].inst != inst
  }

  lemma FirstForShift(group: seq<Row>, inst: int)
    requires group != [] && group[0].inst != inst
    ensures forall i :: FirstFor(group[1..], inst, i) ==> FirstFor(group, inst, i + 1)
  {
  }

  // ---- stable ids ------------------------------------------------------------------------------

  /** `stable_ids`: sorted, each id once. */
  function StableIds(ids: seq<int>): (r: seq<int>)
    ensures Ascending(r) && forall x :: x in r <==> x in ids
  {
    SortUnique(ids)
  }

  /** Ascending ids are determined by which they are. */
  lemma {:induction false} AscendingUnique(a: seq<int>, b: seq<int>)
    requires Ascending(a) && Ascending(b) && forall x :: x in a <==> x in b
    ensures a == b
  {
    if a == [] {
      assert forall j :: 0 <= j < |b| ==> b[j] in b;
    } else {
      assert a[0] in a;
      assert b[0] in b;
      forall x ensures x in a[1..] <==> x in b[1..] {
        assert x in a[1..] <==> x in a && x != a[0];
        assert x in b[1..] <==> x in b && x != b[0];
      }
      AscendingUnique(a[1..], b[1..]);
    }
  }

  /** The ids whose note says member. */
  function MemberIds(ids: seq<int>, notes: seq<Note>): (r: seq<int>)
    requires |notes| == |ids|
    ensures forall x :: x in r <==> exists j :: 0 <= j < |ids| && ids[j] == x && notes[j].known && notes[j].member
  {
    if ids == [] then []
    else
      var n := |ids| - 1;
      MemberIds(ids[..n], notes[..n]) + if notes[n].known && notes[n].member then [ids[n]] else []
  }

  predicate StandsAlone(r: Row) { r.setId.None? }
}

/** The direct resolver: filter, sort, and walk headers and intervals from scratch. */
module MembershipResolver {
  import opened Wrappers
  import opened Clocks
  import opened Ordering
  import opened MembershipFacts

  function EligibleHeaders(headers: seq<Header>, t: int): seq<Header> {
    Sort(Filter(headers, EligibleAt(t)), HeaderLe)
  }

  function ApplicableIntervals(rows: seq<Row>, t: int): seq<Row> {
    Sort(Filter(Filter(rows, StandsAlone), ApplicableAt(t)), RowLe)
  }

  /** One header: a complete set denies whoever was known; then its rows assert. */
  function HeaderStep(n: Note, h: Header, listing: Option<Row>): Note {
    if listing.Some? then Listed(h, listing.value)
    else if h.complete && n.known then Omitted(h)
    else n
  }

  /** An instrument's note after the first `k` of the headers. */
  function WalkHeaders(headers: seq<Header>, rows: seq<Row>, inst: int, k: nat): Note
    requires k <= |headers|
  {
    if k == 0 then BLANK
    else HeaderStep(WalkHeaders(headers, rows, inst, k - 1), headers[k - 1],
                    ListingOf(RowsOfHeader(headers, rows, k - 1), inst))
  }

  /** Intervals assert in order; the last one holds. */
  function WalkIntervals(n: Note, intervals: seq<Row>, inst: int): Note {
    if intervals == [] then n
    else
      var before := WalkIntervals(n, intervals[..|intervals| - 1], inst);
      var r := intervals[|intervals| - 1];
      if r.inst == inst then Asserted(r) else before
  }

  function LastComplete(headers: seq<Header>, k: nat): (i: Option<nat>)
    requires k <= |headers|
    ensures i.Some? ==> i.value < k && headers[i.value].complete
    ensures forall j :: 0 <= j < k && headers[j].complete ==> i.Some? && j <= i.value
  {
    if k == 0 then None
    else if headers[k - 1].complete then Some(k - 1)
    else LastComplete(headers, k - 1)
  }

  /** Everything walked, before the fallback for instruments no row mentions. */
  function Walked(headers: seq<Header>, rows: seq<Row>, inst: int, t: int): Note {
    var h := EligibleHeaders(headers, t);
    WalkIntervals(WalkHeaders(h, rows, inst, |h|), ApplicableIntervals(rows, t), inst)
  }

  /** The resolver's answer for one instrument; an unknown one is denied by any complete set. */
  function Answer(headers: seq<Header>, rows: seq<Row>, inst: int, t: int): Note {
    var h := EligibleHeaders(headers, t);
    var n := Walked(headers, rows, inst, t);
    var last := LastComplete(h, |h|);
    if !n.known && last.Some? then Omitted(h[last.value]) else n
  }

  // ---- the resolver's loops -------------------------------------------------------------

  function Insts(rows: seq<Row>): (ids: seq<int>)
    ensures |ids| == |rows| && forall i :: 0 <= i < |rows| ==> ids[i] == rows[i].inst
  {
    seq(|rows|, i requires 0 <= i < |rows| => rows[i].inst)
  }

  predicate InAnySet(headers: seq<Header>, r: Row) {
    r.setId.Some? && FirstHeader(headers, r.setId.value).Some?
  }

  /** One header over every instrument mentioned. */
  function HeaderPass(notes: seq<Note>, ids: seq<int>, h: Header, group: seq<Row>): (next: seq<Note>)
    requires |notes| == |ids|
    ensures |next| == |ids|
    ensures forall j :: 0 <= j < |ids| ==> next[j] == HeaderStep(notes[j], h, ListingOf(group, ids[j]))
  {
    seq(|ids|, j requires 0 <= j < |ids| == |notes| => HeaderStep(notes[j], h, ListingOf(group, ids[j])))
  }

  lemma {:induction false} IntervalsSilent(n: Note, intervals: seq<Row>, inst: int)
    requires forall i :: 0 <= i < |intervals| ==> intervals[i].inst != inst
    ensures WalkIntervals(n, intervals, inst) == n
  {
    if intervals != [] { IntervalsSilent(n, intervals[..|intervals| - 1], inst); }
  }

  lemma {:induction false} HeadersSilent(headers: seq<Header>, rows: seq<Row>, inst: int, k: nat)
    requires k <= |headers| && forall i :: 0 <= i < |rows| && InAnySet(headers, rows[i]) ==> rows[i].inst != inst
    ensures WalkHeaders(headers, rows, inst, k) == BLANK
  {
    if k > 0 {
      HeadersSilent(headers, rows, inst, k - 1);
      var group := RowsOfHeader(headers, rows, k - 1);
      FilterMembers(rows, (r: Row) => BelongsTo(headers, k - 1, r));
      forall i | 0 <= i < |group| ensures group[i].inst != inst {
        assert group[i] in rows && BelongsTo(headers, k - 1, group[i]);
      }
    }
  }

  lemma WalkSnoc(n: Note, intervals: seq<Row>, k: nat, inst: int)
    requires k < |intervals|
    ensures WalkIntervals(n, intervals[..k + 1], inst)
         == if intervals[k].inst == inst then Asserted(intervals[k]) else WalkIntervals(n, intervals[..k], inst)
  {
    assert intervals[..k + 1][..k] == intervals[..k];
  }

  /** The ids list whoever is mentioned, each with its walked note. */
  ghost predicate NotesAre(headers: seq<Header>, rows: seq<Row>, t: int, ids: seq<int>, notes: seq<Note>) {
    && Distinct(ids) && |notes| == |ids|
    && (forall j :: 0 <= j < |ids| ==> notes[j] == Walked(headers, rows, ids[j], t))
    && (forall inst :: inst !in ids ==> Walked(headers, rows, inst, t) == BLANK)
  }

  ghost predicate LastCompleteIs(headers: seq<Header>, t: int, lastComplete: Option<Header>) {
    var h := EligibleHeaders(headers, t);
    var last := LastComplete(h, |h|);
    lastComplete == if last.Some? then Some(h[last.value]) else None
  }

  method WalkAllHeaders(h: seq<Header>, rows: seq<Row>, ids: seq<int>)
    returns (notes: seq<Note>, lastComplete: Option<Header>)
    ensures |notes| == |ids|
    ensures forall j :: 0 <= j < |ids| ==> notes[j] == WalkHeaders(h, rows, ids[j], |h|)
    ensures var last := LastComplete(h, |h|);
      lastComplete == if last.Some? then Some(h[last.value]) else None
  {
    notes, lastComplete := seq(|ids|, _ => BLANK), None;
    for i := 0 to |h|
      invariant |notes| == |ids|
      invariant forall j :: 0 <= j < |ids| ==> notes[j] == WalkHeaders(h, rows, ids[j], i)
      invariant lastComplete == if LastComplete(h, i).Some? then Some(h[LastComplete(h, i).value]) else None
    {
      notes := HeaderPass(notes, ids, h[i], RowsOfHeader(h, rows, i));
      if h[i].complete { lastComplete := Some(h[i]); }
    }
  }

  method WalkAllIntervals(walked: seq<Note>, intervals: seq<Row>, ids: seq<int>) returns (notes: seq<Note>)
    requires |walked| == |ids| && Distinct(ids) && forall i :: 0 <= i < |intervals| ==> intervals[i].inst in ids
    ensures |notes| == |ids|
    ensures forall j :: 0 <= j < |ids| ==> notes[j] == WalkIntervals(walked[j], intervals, ids[j])
  {
    notes := walked;
    for i := 0 to |intervals|
      invariant |notes| == |ids|
      invariant forall j :: 0 <= j < |ids| ==> notes[j] == WalkIntervals(walked[j], intervals[..i], ids[j])
    {
      var at := Position(ids, intervals[i].inst);
      forall j | 0 <= j < |ids| { WalkSnoc(walked[j], intervals, i, ids[j]); }
      notes := notes[at := Asserted(intervals[i])];
    }
    assert intervals[..|intervals|] == intervals;
  }

  method MentionedIds(h: seq<Header>, rows: seq<Row>, intervals: seq<Row>) returns (ids: seq<int>)
    ensures Distinct(ids) && forall i :: 0 <= i < |intervals| ==> intervals[i].inst in ids
    ensures forall inst :: inst !in ids ==> WalkIntervals(WalkHeaders(h, rows, inst, |h|), intervals, inst) == BLANK
  {
    hide WalkHeaders, WalkIntervals;
    var inSets := Filter(rows, (r: Row) => InAnySet(h, r));
    FilterMembers(rows, (r: Row) => InAnySet(h, r));
    var mentioned := Insts(inSets) + Insts(intervals);
    ids := Unique(mentioned);
    forall i | 0 <= i < |intervals| ensures intervals[i].inst in ids {
      assert mentioned[|inSets| + i] == intervals[i].inst;
    }
    forall inst | inst !in ids ensures WalkIntervals(WalkHeaders(h, rows, inst, |h|), intervals, inst) == BLANK {
      NotMentioned(h, rows, inSets, intervals, ids, inst);
    }
  }

  /** `ledgr_membership_resolve_prepared`: the notes of every instrument mentioned, the last
      complete set, and the members in stable order. */
  method Resolve(headers: seq<Header>, rows: seq<Row>, t: int)
    returns (ids: seq<int>, notes: seq<Note>, lastComplete: Option<Header>, members: seq<int>)
    ensures NotesAre(headers, rows, t, ids, notes) && LastCompleteIs(headers, t, lastComplete)
    ensures Ascending(members) && forall inst :: inst in members <==> IsMember(headers, rows, inst, t)
  {
    hide WalkHeaders, WalkIntervals, EligibleHeaders, ApplicableIntervals;
    var h, intervals := EligibleHeaders(headers, t), ApplicableIntervals(rows, t);
    ids := MentionedIds(h, rows, intervals);
    var walked: seq<Note>;
    walked, lastComplete := WalkAllHeaders(h, rows, ids);
    notes := WalkAllIntervals(walked, intervals, ids);
    members := StableIds(MemberIds(ids, notes));
    MembersAre(headers, rows, t, ids, notes);
  }

  ghost predicate IsMember(headers: seq<Header>, rows: seq<Row>, inst: int, t: int) {
    Walked(headers, rows, inst, t).known && Walked(headers, rows, inst, t).member
  }

  lemma MembersAre(headers: seq<Header>, rows: seq<Row>, t: int, ids: seq<int>, notes: seq<Note>)
    requires NotesAre(headers, rows, t, ids, notes)
    ensures forall inst :: inst in MemberIds(ids, notes) <==> IsMember(headers, rows, inst, t)
  {
    hide Walked;
    forall inst ensures inst in MemberIds(ids, notes) <==> IsMember(headers, rows, inst, t) {
      if inst in ids { var j :| 0 <= j < |ids| && ids[j] == inst; }
    }
  }

  /** One requested instrument, from what the loops left. */
  method AnswerFor(headers: seq<Header>, rows: seq<Row>, t: int,
                   ids: seq<int>, notes: seq<Note>, lastComplete: Option<Header>, inst: int)
    returns (answer: Note)
    requires NotesAre(headers, rows, t, ids, notes) && LastCompleteIs(headers, t, lastComplete)
    ensures answer == Answer(headers, rows, inst, t)
  {
    hide Walked, EligibleHeaders;
    if inst in ids && notes[Position(ids, inst)].known { return notes[Position(ids, inst)]; }
    if lastComplete.Some? { return Omitted(lastComplete.value); }
    answer := if inst in ids then notes[Position(ids, inst)] else BLANK;
  }

  lemma NotMentioned(h: seq<Header>, rows: seq<Row>, inSets: seq<Row>, intervals: seq<Row>, ids: seq<int>, inst: int)
    requires inst !in ids
    requires forall r :: r in rows && InAnySet(h, r) ==> r in inSets
    requires forall i :: 0 <= i < |Insts(inSets) + Insts(intervals)| ==> (Insts(inSets) + Insts(intervals))[i] in ids
    ensures WalkIntervals(WalkHeaders(h, rows, inst, |h|), intervals, inst) == BLANK
  {
    var mentioned := Insts(inSets) + Insts(intervals);
    forall i | 0 <= i < |rows| && InAnySet(h, rows[i]) ensures rows[i].inst != inst {
      var j :| 0 <= j < |inSets| && inSets[j] == rows[i];
      assert mentioned[j] == rows[i].inst;
    }
    forall i | 0 <= i < |intervals| ensures intervals[i].inst != inst {
      assert mentioned[|inSets| + i] == intervals[i].inst;
    }
    HeadersSilent(h, rows, inst, |h|);
    IntervalsSilent(BLANK, intervals, inst);
  }
}
