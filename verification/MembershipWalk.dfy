/** What the direct walk amounts to: only the latest eligible listing and the latest
    eligible complete set matter, in whatever order headers become eligible. */
module MembershipWalk {
  import opened Wrappers
  import opened Clocks
  import opened Ordering
  import opened MembershipFacts
  import opened MembershipResolver

  /** The walk together with the last complete set passed. */
  datatype Walk = Walk(note: Note, last: Option<Header>)

  function WalkStep(w: Walk, h: Header, listing: Option<Row>): Walk {
    Walk(HeaderStep(w.note, h, listing), if h.complete then Some(h) else w.last)
  }

  function ListingIn(rows: seq<Row>, h: Header, inst: int): Option<Row> { ListingOf(SetRows(rows, h.setId), inst) }

  function WalkList(headers: seq<Header>, rows: seq<Row>, inst: int): Walk {
    if headers == [] then Walk(BLANK, None)
    else
      var n := |headers| - 1;
      WalkStep(WalkList(headers[..n], rows, inst), headers[n], ListingIn(rows, headers[n], inst))
  }

  /** The resolver's header loop is this walk. */
  lemma {:induction false} HeadersAreWalk(headers: seq<Header>, rows: seq<Row>, inst: int, k: nat)
    requires DistinctSets(headers) && k <= |headers|
    ensures var w := WalkList(headers[..k], rows, inst);
      && WalkHeaders(headers, rows, inst, k) == w.note
      && w.last == if LastComplete(headers, k).Some? then Some(headers[LastComplete(headers, k).value]) else None
  {
    if k > 0 {
      assert headers[..k][..k - 1] == headers[..k - 1];
      HeadersAreWalk(headers, rows, inst, k - 1);
      RowsById(headers, rows, k - 1);
    }
  }

  /** The walk over a longer list that passes by the headers not eligible. */
  function WalkSparse(all: seq<Header>, rows: seq<Row>, inst: int, t: int, n: nat): Walk
    requires n <= |all|
  {
    if n == 0 then Walk(BLANK, None)
    else
      var w := WalkSparse(all, rows, inst, t, n - 1);
      if Eligible(all[n - 1], t) then WalkStep(w, all[n - 1], ListingIn(rows, all[n - 1], inst)) else w
  }

  lemma WalkListSnoc(headers: seq<Header>, h: Header, rows: seq<Row>, inst: int)
    ensures WalkList(headers + [h], rows, inst) == WalkStep(WalkList(headers, rows, inst), h, ListingIn(rows, h, inst))
  {
    assert (headers + [h])[..|headers|] == headers;
  }

  lemma {:induction false} SparseIsFiltered(all: seq<Header>, rows: seq<Row>, inst: int, t: int, n: nat)
    requires n <= |all|
    ensures WalkList(Filter(all[..n], EligibleAt(t)), rows, inst) == WalkSparse(all, rows, inst, t, n)
  {
    if n > 0 {
      SparseIsFiltered(all, rows, inst, t, n - 1);
      assert all[..n] == all[..n - 1] + [all[n - 1]];
      KeepOneMore(all[..n - 1], all[n - 1], rows, inst, t);
    }
  }

  lemma KeepOneMore(headers: seq<Header>, h: Header, rows: seq<Row>, inst: int, t: int)
    ensures var before := WalkList(Filter(headers, EligibleAt(t)), rows, inst);
      WalkList(Filter(headers + [h], EligibleAt(t)), rows, inst)
        == if Eligible(h, t) then WalkStep(before, h, ListingIn(rows, h, inst)) else before
  {
    hide Filter, WalkStep, ListingIn, WalkList;
    FilterSnoc(headers, h, EligibleAt(t));
    var kept := Filter(headers, EligibleAt(t));
    assert kept + [] == kept;
    WalkListSnoc(kept, h, rows, inst);
  }

  // ---- latest of a set ------------------------------------------------------------------

  /** `m` counts up to the largest member; zero for none. */
  ghost predicate IsTop(a: set<nat>, m: nat) {
    if m == 0 then a == {} else m - 1 in a && forall i :: i in a ==> i < m
  }

  lemma TopUnique(a: set<nat>, m: nat, n: nat)
    requires IsTop(a, m) && IsTop(a, n)
    ensures m == n
  {
  }

  lemma TopExists(a: set<nat>) returns (m: nat)
    ensures IsTop(a, m)
    decreases |a|
  {
    if a == {} { return 0; }
    var x :| x in a;
    var n := TopExists(a - {x});
    m := if n < x + 1 then x + 1 else n;
    forall i | i in a ensures i < m { if i != x { assert i in a - {x}; } }
  }

  lemma TopAdd(a: set<nat>, m: nat, x: nat)
    requires IsTop(a, m)
    ensures IsTop(a + {x}, if x + 1 > m then x + 1 else m)
  {
  }

  /** Headers that list the instrument, and complete headers. */
  ghost function Listing(all: seq<Header>, rows: seq<Row>, inst: int): set<nat> {
    set i: nat | i < |all| && ListingIn(rows, all[i], inst).Some?
  }

  ghost function Complete(all: seq<Header>): set<nat> { set i: nat | i < |all| && all[i].complete }

  ghost function EligibleBelow(all: seq<Header>, t: int, n: nat): set<nat> {
    set i: nat | i < n && i < |all| && Eligible(all[i], t)
  }

  /** The walk's outcome from the latest listing and the latest complete set alone. */
  function Describe(all: seq<Header>, rows: seq<Row>, inst: int, m: nat, c: nat): Walk
    requires m <= |all| && c <= |all|
    requires m > 0 ==> ListingIn(rows, all[m - 1], inst).Some?
  {
    Walk(if m == 0 then BLANK
         else if m >= c then Listed(all[m - 1], ListingIn(rows, all[m - 1], inst).value)
         else Omitted(all[c - 1]),
         if c == 0 then None else Some(all[c - 1]))
  }

  lemma {:induction false} SparseIsDescribed(all: seq<Header>, rows: seq<Row>, inst: int, t: int, n: nat,
                                             m: nat, c: nat)
    requires n <= |all|
    requires IsTop(EligibleBelow(all, t, n) * Listing(all, rows, inst), m)
    requires IsTop(EligibleBelow(all, t, n) * Complete(all), c)
    ensures m <= n && c <= n && (m > 0 ==> ListingIn(rows, all[m - 1], inst).Some?)
    ensures WalkSparse(all, rows, inst, t, n) == Describe(all, rows, inst, m, c)
  {
    hide ListingIn;
    if n == 0 {
    } else if !Eligible(all[n - 1], t) {
      assert EligibleBelow(all, t, n) == EligibleBelow(all, t, n - 1);
      SparseIsDescribed(all, rows, inst, t, n - 1, m, c);
    } else {
      var before := EligibleBelow(all, t, n - 1);
      assert EligibleBelow(all, t, n) == before + {n - 1};
      var m' := TopExists(before * Listing(all, rows, inst));
      var c' := TopExists(before * Complete(all));
      SparseIsDescribed(all, rows, inst, t, n - 1, m', c');
      StepTops(before, Listing(all, rows, inst), n - 1, m', m);
      StepTops(before, Complete(all), n - 1, c', c);
    }
  }

  lemma StepTops(p: set<nat>, a: set<nat>, x: nat, m': nat, m: nat)
    requires IsTop(p * a, m') && IsTop((p + {x}) * a, m) && m' <= x
    ensures m == if x in a then x + 1 else m'
  {
    if x in a {
      assert (p + {x}) * a == p * a + {x};
      TopAdd(p * a, m', x);
      TopUnique((p + {x}) * a, m, x + 1);
    } else {
      assert (p + {x}) * a == p * a;
      TopUnique(p * a, m, m');
    }
  }

  // ---- sorting keeps set ids distinct ------------------------------------------------------

  lemma DistinctSetsKept(headers: seq<Header>, kept: seq<Header>)
    requires DistinctSets(headers) && Distinct(kept) && forall h :: h in kept ==> h in headers
    ensures DistinctSets(kept)
  {
    forall i, j | 0 <= i < j < |kept| ensures kept[i].setId != kept[j].setId {
      assert kept[i] in headers && kept[j] in headers;
      var x :| 0 <= x < |headers| && headers[x] == kept[i];
      var y :| 0 <= y < |headers| && headers[y] == kept[j];
    }
  }

  lemma SortedDistinctSets(headers: seq<Header>, t: int)
    requires DistinctSets(headers)
    ensures DistinctSets(Sort(headers, HeaderLe)) && DistinctSets(EligibleHeaders(headers, t))
  {
    var p := EligibleAt(t);
    SortDistinct(headers, HeaderLe);
    SortMembers(headers, HeaderLe);
    DistinctSetsKept(headers, Sort(headers, HeaderLe));
    FilterDistinct(headers, p);
    FilterMembers(headers, p);
    SortDistinct(Filter(headers, p), HeaderLe);
    SortMembers(Filter(headers, p), HeaderLe);
    DistinctSetsKept(headers, EligibleHeaders(headers, t));
  }

  // ---- intervals ------------------------------------------------------------------------------

  /** The last applicable interval row of the instrument. */
  function LastFor(intervals: seq<Row>, t: int, inst: int): (r: Option<Row>)
    ensures r.Some? ==> r.value in intervals && r.value.inst == inst && Applicable(r.value, t)
  {
    if intervals == [] then None
    else
      var n := |intervals| - 1;
      if Applicable(intervals[n], t) && intervals[n].inst == inst then Some(intervals[n])
      else LastFor(intervals[..n], t, inst)
  }

  function Overlay(n: Note, r: Option<Row>): Note { if r.Some? then Asserted(r.value) else n }

  lemma {:induction false} LastIntervalHolds(n: Note, intervals: seq<Row>, t: int, inst: int)
    ensures WalkIntervals(n, Filter(intervals, ApplicableAt(t)), inst) == Overlay(n, LastFor(intervals, t, inst))
  {
    if intervals != [] {
      var k := |intervals| - 1;
      LastIntervalHolds(n, intervals[..k], t, inst);
      assert intervals == intervals[..k] + [intervals[k]];
      var kept := Filter(intervals[..k], ApplicableAt(t));
      FilterSnoc(intervals[..k], intervals[k], ApplicableAt(t));
      WalkSnoc(n, kept + [intervals[k]], |kept|, inst);
      assert (kept + [intervals[k]])[..|kept|] == kept;
      assert (kept + [intervals[k]])[..|kept| + 1] == kept + [intervals[k]];
      assert kept + [] == kept;
    }
  }

  // ---- the answer ------------------------------------------------------------------------------

  /** The direct answer depends only on the latest eligible listing, the latest eligible
      complete set and the last applicable interval. */
  lemma AnswerIsDescribed(headers: seq<Header>, rows: seq<Row>, inst: int, t: int, m: nat, c: nat)
    requires DistinctSets(headers)
    requires var all := Sort(headers, HeaderLe);
      && IsTop(EligibleBelow(all, t, |all|) * Listing(all, rows, inst), m)
      && IsTop(EligibleBelow(all, t, |all|) * Complete(all), c)
    ensures var all := Sort(headers, HeaderLe);
      && m <= |all| && c <= |all| && (m > 0 ==> ListingIn(rows, all[m - 1], inst).Some?)
      && var w := Describe(all, rows, inst, m, c);
         var last := LastFor(Sort(Filter(rows, StandsAlone), RowLe), t, inst);
         && Walked(headers, rows, inst, t) == Overlay(w.note, last)
         && Answer(headers, rows, inst, t)
            == Overlay(if !w.note.known && w.last.Some? then Omitted(w.last.value) else w.note, last)
  {
    var all := Sort(headers, HeaderLe);
    var h := EligibleHeaders(headers, t);
    var p := EligibleAt(t);
    OrdersAreTotal();
    SortFilter(headers, HeaderLe, p);
    assert all[..|all|] == all && h[..|h|] == h;
    SparseIsFiltered(all, rows, inst, t, |all|);
    SparseIsDescribed(all, rows, inst, t, |all|, m, c);
    SortedDistinctSets(headers, t);
    HeadersAreWalk(h, rows, inst, |h|);
    var alone := Filter(rows, StandsAlone);
    SortFilter(alone, RowLe, ApplicableAt(t));
    LastIntervalHolds(WalkHeaders(h, rows, inst, |h|), Sort(alone, RowLe), t, inst);
  }

  // ---- what latest means ---------------------------------------------------------------------

  /** The first evidence outranks the second: it takes effect later; or at the same time, known
      later; or both at the same times, with the larger id. */
  predicate Outranks(f: Option<int>, k: Option<int>, id: int, f': Option<int>, k': Option<int>, id': int) {
    && f.Some? && k.Some? && f'.Some? && k'.Some?
    && (|| f.value > f'.value
        || (f.value == f'.value && k.value > k'.value)
        || (f.value == f'.value && k.value == k'.value && id > id'))
  }

  predicate OutranksHeader(h: Header, g: Header) { Outranks(h.from, h.known, h.setId, g.from, g.known, g.setId) }

  predicate OutranksRow(r: Row, s: Row) { Outranks(r.from, r.known, r.factId, s.from, s.known, s.factId) }

  predicate Lists(rows: seq<Row>, inst: int, h: Header) {
    exists i :: 0 <= i < |rows| && rows[i].setId == Some(h.setId) && rows[i].inst == inst
  }

  function ListsAt(rows: seq<Row>, inst: int, t: int): Header -> bool {
    (h: Header) => Eligible(h, t) && Lists(rows, inst, h)
  }

  function CompleteAt(t: int): Header -> bool { (h: Header) => Eligible(h, t) && h.complete }

  /** The header of a kind that outranks all others of it, if there is any of it. */
  ghost predicate IsLatest(headers: seq<Header>, kind: Header -> bool, latest: Option<Header>) {
    && (latest.None? ==> forall h :: h in headers ==> !kind(h))
    && (latest.Some? ==>
          && latest.value in headers && kind(latest.value)
          && forall g :: g in headers && kind(g) && g != latest.value ==> OutranksHeader(latest.value, g))
  }

  predicate AppliesTo(r: Row, inst: int, t: int) { Applicable(r, t) && r.inst == inst }

  predicate AssertsAt(r: Row, inst: int, t: int) { StandsAlone(r) && AppliesTo(r, inst, t) }

  /** The applicable interval row of the instrument that no other outranks. */
  ghost predicate IsLatestRow(rows: seq<Row>, inst: int, t: int, latest: Option<Row>) {
    && (latest.None? ==> forall r :: r in rows ==> !AssertsAt(r, inst, t))
    && (latest.Some? ==>
          && latest.value in rows && AssertsAt(latest.value, inst, t)
          && forall r :: r in rows && AssertsAt(r, inst, t) ==> !OutranksRow(r, latest.value))
  }

  lemma ListsIsListing(rows: seq<Row>, inst: int, h: Header)
    ensures ListingIn(rows, h, inst).Some? <==> Lists(rows, inst, h)
  {
    var group := SetRows(rows, h.setId);
    FilterMembers(rows, (r: Row) => InSet(r, h.setId));
    if ListingIn(rows, h, inst).Some? {
      var i :| 0 <= i < |group| && group[i] == ListingIn(rows, h, inst).value && FirstFor(group, inst, i);
      assert group[i] in group;
      var j :| 0 <= j < |rows| && rows[j] == group[i];
    }
    if Lists(rows, inst, h) {
      var i :| 0 <= i < |rows| && rows[i].setId == Some(h.setId) && rows[i].inst == inst;
      assert rows[i] in rows && InSet(rows[i], h.setId);
      var j :| 0 <= j < |group| && group[j] == rows[i];
    }
  }

  /** Of two eligible headers, the one later in the sorted list outranks the other. */
  lemma LaterPlaceOutranks(headers: seq<Header>, t: int, i: nat, j: nat)
    requires DistinctSets(headers) && i < j < |Sort(headers, HeaderLe)|
    requires Eligible(Sort(headers, HeaderLe)[i], t) && Eligible(Sort(headers, HeaderLe)[j], t)
    ensures OutranksHeader(Sort(headers, HeaderLe)[j], Sort(headers, HeaderLe)[i])
    ensures !OutranksHeader(Sort(headers, HeaderLe)[i], Sort(headers, HeaderLe)[j])
  {
    var all := Sort(headers, HeaderLe);
    OrdersAreTotal();
    SortSorted(headers, HeaderLe);
    SortedDistinctSets(headers, t);
    assert HeaderLe(all[i], all[j]) && all[i].setId != all[j].setId;
  }

  /** The last place of a kind in the sorted list outranks every other header of the kind. */
  lemma TopIsLatest(headers: seq<Header>, t: int, kind: Header -> bool, a: set<nat>, m: nat)
    requires DistinctSets(headers) && IsTop(a, m)
    requires var all := Sort(headers, HeaderLe);
      forall i: nat :: i in a <==> i < |all| && Eligible(all[i], t) && kind(all[i])
    requires forall h :: kind(h) ==> Eligible(h, t)
    ensures m <= |Sort(headers, HeaderLe)|
    ensures IsLatest(headers, kind, if m == 0 then None else Some(Sort(headers, HeaderLe)[m - 1]))
  {
    hide Eligible, OutranksHeader, DistinctSets;
    var all := Sort(headers, HeaderLe);
    SortMembers(headers, HeaderLe);
    forall g | g in headers && kind(g) ensures m > 0 && (g != all[m - 1] ==> OutranksHeader(all[m - 1], g)) {
      assert g in all;
      var i: nat :| i < |all| && all[i] == g;
      assert i in a && i < m;
      if i < m - 1 { LaterPlaceOutranks(headers, t, i, m - 1); }
    }
    if m > 0 { assert all[m - 1] in all; }
  }

  lemma {:induction false} LastForIsLast(intervals: seq<Row>, t: int, inst: int)
    ensures var last := LastFor(intervals, t, inst);
      && (last.None? ==> forall i :: 0 <= i < |intervals| ==> !AppliesTo(intervals[i], inst, t))
      && (last.Some? ==> exists i :: LastPlace(intervals, t, inst, i) && intervals[i] == last.value)
  {
    hide Applicable;
    if intervals != [] {
      var n := |intervals| - 1;
      LastForIsLast(intervals[..n], t, inst);
      assert forall j :: 0 <= j < n ==> intervals[j] == intervals[..n][j];
      if AppliesTo(intervals[n], inst, t) {
        assert LastPlace(intervals, t, inst, n);
      } else if LastFor(intervals, t, inst).Some? {
        var i :| LastPlace(intervals[..n], t, inst, i) && intervals[..n][i] == LastFor(intervals[..n], t, inst).value;
        StillLast(intervals, t, inst, n, i);
      }
    }
  }

  lemma StillLast(intervals: seq<Row>, t: int, inst: int, n: nat, i: int)
    requires |intervals| == n + 1 && !AppliesTo(intervals[n], inst, t) && LastPlace(intervals[..n], t, inst, i)
    ensures LastPlace(intervals, t, inst, i)
  {
    hide AppliesTo;
    assert forall j :: 0 <= j < n ==> intervals[j] == intervals[..n][j];
  }

  ghost predicate LastPlace(intervals: seq<Row>, t: int, inst: int, i: int) {
    && 0 <= i < |intervals| && AppliesTo(intervals[i], inst, t)
    && forall j :: i < j < |intervals| ==> !AppliesTo(intervals[j], inst, t)
  }

  lemma LaterRowHolds(r: Row, s: Row)
    requires RowLe(r, s)
    ensures !OutranksRow(r, s)
  {
  }

  lemma LastIsLatestRow(rows: seq<Row>, inst: int, t: int)
    ensures IsLatestRow(rows, inst, t, LastFor(Sort(Filter(rows, StandsAlone), RowLe), t, inst))
  {
    hide Applicable, RowLe, OutranksRow, LastFor, Sort, Filter;
    var alone := Filter(rows, StandsAlone);
    var all := Sort(alone, RowLe);
    OrdersAreTotal();
    SortSorted(alone, RowLe);
    SortMembers(alone, RowLe);
    FilterMembers(rows, StandsAlone);
    LastForIsLast(all, t, inst);
    var last := LastFor(all, t, inst);
    forall r | r in rows && AssertsAt(r, inst, t) ensures last.Some? && !OutranksRow(r, last.value) {
      assert r in all;
      var i :| 0 <= i < |all| && all[i] == r;
      var k :| LastPlace(all, t, inst, k) && all[k] == last.value;
      assert i <= k;
      if i < k { LaterRowHolds(all[i], all[k]); } else { NotAboveItself(r); }
    }
  }

  lemma NotAboveItself(r: Row)
    ensures !OutranksRow(r, r)
  {
  }

  /** Whether the walk ends on a listing: there is one, and no complete set outranks it. */
  predicate ListingHolds(listing: Option<Header>, complete: Option<Header>) {
    listing.Some? && (complete.None? || !OutranksHeader(complete.value, listing.value))
  }

  /** The answer, told by its fields: an applicable interval decides; failing that a listing that
      no complete set outranks makes a member; failing that any complete set denies. */
  ghost predicate Tells(n: Note, rows: seq<Row>, inst: int, listing: Option<Header>, complete: Option<Header>,
                        interval: Option<Row>)
    requires ListingHolds(listing, complete) ==> ListingIn(rows, listing.value, inst).Some?
  {
    if interval.Some? then
      var r := interval.value;
      && n.known && (n.member <==> r.member) && n.evidence == OfFact(r.factId) && n.since == r.known
      && n.reason == (if r.member then MemberAsserted else NonmemberAsserted)
    else if ListingHolds(listing, complete) then
      var h := listing.value;
      && n.known && n.member && n.reason == MemberAsserted && n.since == h.known
      && n.evidence == OfSetRow(h.setId, ListingIn(rows, h, inst).value.factId)
    else if complete.Some? then
      var h := complete.value;
      n.known && !n.member && n.reason == OmittedFromCompleteSet && n.evidence == OfSet(h.setId) && n.since == h.known
    else
      !n.known && !n.member && n.reason == NoReason && n.evidence == NoEvidence && n.since == None
  }

  /** From the clocks alone: the direct answer is what the latest applicable interval, the latest
      eligible listing and the latest eligible complete set tell. */
  lemma AnswerIsLatest(headers: seq<Header>, rows: seq<Row>, inst: int, t: int)
    returns (listing: Option<Header>, complete: Option<Header>, interval: Option<Row>)
    requires DistinctSets(headers)
    ensures IsLatest(headers, ListsAt(rows, inst, t), listing)
    ensures IsLatest(headers, CompleteAt(t), complete)
    ensures IsLatestRow(rows, inst, t, interval)
    ensures listing.Some? ==> ListingIn(rows, listing.value, inst).Some?
    ensures Tells(Answer(headers, rows, inst, t), rows, inst, listing, complete, interval)
    ensures IsMember(headers, rows, inst, t)
       <==> if interval.Some? then interval.value.member else ListingHolds(listing, complete)
  {
    hide Walked, Answer, Lists, ListingIn, Describe, IsLatest, IsLatestRow, Tells, LastFor, ListingHolds;
    hide Eligible, OutranksHeader;
    var m, c := LatestPlaces(headers, rows, inst, t);
    var all := Sort(headers, HeaderLe);
    listing := if m == 0 then None else Some(all[m - 1]);
    complete := if c == 0 then None else Some(all[c - 1]);
    interval := LastFor(Sort(Filter(rows, StandsAlone), RowLe), t, inst);
    LastIsLatestRow(rows, inst, t);
    AnswerIsDescribed(headers, rows, inst, t, m, c);
    HoldsByPlace(headers, t, m, c);
    DescribeTells(Answer(headers, rows, inst, t), all, rows, inst, m, c, interval);
    WalkedIsMember(headers, rows, inst, t, m, c);
  }

  /** The places, in the sorted list, of the latest listing and the latest complete set. */
  lemma LatestPlaces(headers: seq<Header>, rows: seq<Row>, inst: int, t: int) returns (m: nat, c: nat)
    requires DistinctSets(headers)
    ensures var all := Sort(headers, HeaderLe);
      && IsTop(EligibleBelow(all, t, |all|) * Listing(all, rows, inst), m)
      && IsTop(EligibleBelow(all, t, |all|) * Complete(all), c)
      && m <= |all| && c <= |all| && (m > 0 ==> Eligible(all[m - 1], t)) && (c > 0 ==> Eligible(all[c - 1], t))
      && IsLatest(headers, ListsAt(rows, inst, t), if m == 0 then None else Some(all[m - 1]))
      && IsLatest(headers, CompleteAt(t), if c == 0 then None else Some(all[c - 1]))
  {
    hide Lists, ListingIn, IsLatest, Eligible;
    var all := Sort(headers, HeaderLe);
    var eligible := EligibleBelow(all, t, |all|);
    forall h ensures ListingIn(rows, h, inst).Some? <==> Lists(rows, inst, h) { ListsIsListing(rows, inst, h); }
    m := TopExists(eligible * Listing(all, rows, inst));
    c := TopExists(eligible * Complete(all));
    TopIsLatest(headers, t, ListsAt(rows, inst, t), eligible * Listing(all, rows, inst), m);
    TopIsLatest(headers, t, CompleteAt(t), eligible * Complete(all), c);
  }

  /** A listing holds when no complete set lies at a later place. */
  lemma HoldsByPlace(headers: seq<Header>, t: int, m: nat, c: nat)
    requires DistinctSets(headers) && m <= |Sort(headers, HeaderLe)| && c <= |Sort(headers, HeaderLe)|
    requires m > 0 ==> Eligible(Sort(headers, HeaderLe)[m - 1], t)
    requires c > 0 ==> Eligible(Sort(headers, HeaderLe)[c - 1], t)
    ensures var all := Sort(headers, HeaderLe);
      var listing, complete := if m == 0 then None else Some(all[m - 1]), if c == 0 then None else Some(all[c - 1]);
      ListingHolds(listing, complete) <==> m > 0 && m >= c
  {
    hide Eligible;
    if 0 < m < c { LaterPlaceOutranks(headers, t, m - 1, c - 1); }
    if 0 < c < m { LaterPlaceOutranks(headers, t, c - 1, m - 1); }
  }

  lemma DescribeTells(n: Note, all: seq<Header>, rows: seq<Row>, inst: int, m: nat, c: nat, interval: Option<Row>)
    requires m <= |all| && c <= |all| && (m > 0 ==> ListingIn(rows, all[m - 1], inst).Some?)
    requires var w := Describe(all, rows, inst, m, c);
      n == Overlay(if !w.note.known && w.last.Some? then Omitted(w.last.value) else w.note, interval)
    requires ListingHolds(if m == 0 then None else Some(all[m - 1]), if c == 0 then None else Some(all[c - 1]))
        <==> m > 0 && m >= c
    ensures Tells(n, rows, inst, if m == 0 then None else Some(all[m - 1]), if c == 0 then None else Some(all[c - 1]),
                  interval)
  {
    hide ListingIn, OutranksHeader;
  }

  lemma WalkedIsMember(headers: seq<Header>, rows: seq<Row>, inst: int, t: int, m: nat, c: nat)
    requires var all := Sort(headers, HeaderLe);
      m <= |all| && c <= |all| && (m > 0 ==> ListingIn(rows, all[m - 1], inst).Some?)
    requires Walked(headers, rows, inst, t)
          == Overlay(Describe(Sort(headers, HeaderLe), rows, inst, m, c).note,
                     LastFor(Sort(Filter(rows, StandsAlone), RowLe), t, inst))
    ensures var interval := LastFor(Sort(Filter(rows, StandsAlone), RowLe), t, inst);
      IsMember(headers, rows, inst, t) <==> if interval.Some? then interval.value.member else m > 0 && m >= c
  {
    hide Walked, ListingIn, LastFor;
  }
}
