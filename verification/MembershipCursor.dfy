/** The prepared membership provider: a plan compiled once, and a cursor that admits headers
    as they become eligible and starts over when the cutoff falls. */
module MembershipCursor {
  import opened Wrappers
  import opened Clocks
  import opened Ordering
  import opened MembershipFacts
  import opened MembershipResolver
  import opened MembershipWalk

  // ---- the plan -------------------------------------------------------------------------

  /** A header's place and the moment it becomes eligible; none if it never does. */
  datatype Entry = Entry(time: Option<int>, place: nat)

  predicate EntryLe(a: Entry, b: Entry) { !ClockLess(b.time, a.time) }

  function EligibleFrom(h: Header): Option<int> {
    if h.from.None? || h.known.None? then None
    else Some(if h.from.value < h.known.value then h.known.value else h.from.value)
  }

  function Entries(headers: seq<Header>): (e: seq<Entry>)
    ensures |e| == |headers|
    ensures forall i :: 0 <= i < |e| ==> e[i] == Entry(EligibleFrom(headers[i]), i)
  {
    seq(|headers|, i requires 0 <= i < |headers| => Entry(EligibleFrom(headers[i]), i))
  }

  function Groups(headers: seq<Header>, rows: seq<Row>): (g: seq<seq<Row>>)
    ensures |g| == |headers| && forall i :: 0 <= i < |g| ==> g[i] == RowsOfHeader(headers, rows, i)
  {
    seq(|headers|, i requires 0 <= i => RowsOfHeader(headers, rows, i))
  }

  datatype Plan = Plan(key: seq<int>, headers: seq<Header>, groups: seq<seq<Row>>, entries: seq<Entry>,
                       intervals: seq<Row>)

  /** `prepared_membership_plan`: headers in processing order with their rows, the order in
      which they become eligible, and the interval rows in processing order. */
  function MakePlan(headers: seq<Header>, rows: seq<Row>, key: seq<int>): Plan {
    var all := Sort(headers, HeaderLe);
    Plan(key, all, Groups(all, rows), Sort(Entries(all), EntryLe), Sort(Filter(rows, StandsAlone), RowLe))
  }

  predicate EntryReached(e: Entry, t: int) { Reached(e.time, t) }

  ghost predicate Planned(p: Plan) {
    && |p.groups| == |p.headers| && SortedBy(p.entries, EntryLe)
    && forall e :: e in p.entries <==> e.place < |p.headers| && e.time == EligibleFrom(p.headers[e.place])
  }

  lemma PlanIsPlanned(headers: seq<Header>, rows: seq<Row>, key: seq<int>)
    ensures Planned(MakePlan(headers, rows, key)) && MakePlan(headers, rows, key).key == key
  {
    var all := Sort(headers, HeaderLe);
    SortSorted(Entries(all), EntryLe);
    SortMembers(Entries(all), EntryLe);
    forall e: Entry ensures e in Entries(all) <==> e.place < |all| && e.time == EligibleFrom(all[e.place]) {
      if e.place < |all| && e.time == EligibleFrom(all[e.place]) { assert Entries(all)[e.place] == e; }
    }
  }

  /** How many headers are eligible at a cutoff. */
  function EligibleCount(p: Plan, t: int): (n: nat)
    requires Planned(p)
    ensures n <= |p.entries|
    ensures forall i :: 0 <= i < n ==> EntryReached(p.entries[i], t)
    ensures forall i :: n <= i < |p.entries| ==> !EntryReached(p.entries[i], t)
  {
    assert forall i, j :: 0 <= i < j < |p.entries| ==> EntryLe(p.entries[i], p.entries[j]);
    FindInterval(p.entries, (e: Entry) => EntryReached(e, t))
  }

  lemma EligibleGrows(p: Plan, s: int, t: int)
    requires Planned(p) && s <= t
    ensures EligibleCount(p, s) <= EligibleCount(p, t)
  {
    var n, m := EligibleCount(p, t), EligibleCount(p, s);
    assert m > n ==> EntryReached(p.entries[n], s);
  }

  /** The places of the first `n` entries. */
  ghost function Admitted(p: Plan, n: nat): set<nat>
    requires n <= |p.entries|
  {
    set i: nat | i < n :: p.entries[i].place
  }

  /** The headers admitted at a cutoff are exactly the eligible ones. */
  lemma AdmittedIsEligible(p: Plan, t: int)
    requires Planned(p)
    ensures Admitted(p, EligibleCount(p, t)) == EligibleBelow(p.headers, t, |p.headers|)
  {
    var n := EligibleCount(p, t);
    forall x: nat ensures x in Admitted(p, n) <==> x in EligibleBelow(p.headers, t, |p.headers|) {
      if x in Admitted(p, n) {
        var i: nat :| i < n && p.entries[i].place == x;
        assert p.entries[i] in p.entries && EntryReached(p.entries[i], t);
      }
      if x in EligibleBelow(p.headers, t, |p.headers|) {
        var e := Entry(EligibleFrom(p.headers[x]), x);
        assert e in p.entries;
        var i :| 0 <= i < |p.entries| && p.entries[i] == e;
        assert EntryReached(e, t);
      }
    }
  }

  lemma AdmitOne(p: Plan, n: nat)
    requires n < |p.entries|
    ensures Admitted(p, n + 1) == Admitted(p, n) + {p.entries[n].place}
  {
  }

  // ---- header state ---------------------------------------------------------------------------

  /** The latest complete set and, per key instrument, the latest listing; counted from one. */
  datatype HeaderState = HeaderState(latestComplete: nat, memberHeader: seq<nat>, memberFact: seq<Option<int>>,
                                     memberKnowledge: seq<Option<int>>)

  function Fresh(p: Plan): HeaderState {
    HeaderState(0, seq(|p.key|, _ => 0), seq(|p.key|, _ => None), seq(|p.key|, _ => None))
  }

  ghost function ListedIn(p: Plan, inst: int): set<nat> {
    set i: nat | i < |p.groups| && ListingOf(p.groups[i], inst).Some?
  }

  /** One instrument's latest listing among the admitted headers, with its fact and since
      when the header has been known. */
  ghost predicate TracksAt(p: Plan, admitted: set<nat>, inst: int, header: nat, fact: Option<int>, since: Option<int>) {
    && IsTop(admitted * ListedIn(p, inst), header)
    && header <= |p.groups| == |p.headers|
    && (header > 0 ==>
          && ListingOf(p.groups[header - 1], inst).Some?
          && fact == Some(ListingOf(p.groups[header - 1], inst).value.factId)
          && since == p.headers[header - 1].known)
  }

  ghost predicate TracksKey(p: Plan, admitted: set<nat>, s: HeaderState, j: nat)
    requires j < |s.memberHeader| == |s.memberFact| == |s.memberKnowledge| == |p.key|
  {
    TracksAt(p, admitted, p.key[j], s.memberHeader[j], s.memberFact[j], s.memberKnowledge[j])
  }

  ghost predicate Tracks(p: Plan, admitted: set<nat>, s: HeaderState) {
    && |s.memberHeader| == |s.memberFact| == |s.memberKnowledge| == |p.key|
    && IsTop(admitted * Complete(p.headers), s.latestComplete)
    && forall j :: 0 <= j < |p.key| ==> TracksKey(p, admitted, s, j)
  }

  /** A listing only counts if its header comes later than the one held. */
  predicate Later(header: nat, listing: Option<Row>, held: nat) { listing.Some? && header > held }

  /** `advance_prepared_header`: admits one header, in whatever order it comes. */
  method AdvanceHeader(p: Plan, s: HeaderState, place: nat, ghost admitted: set<nat>) returns (n: HeaderState)
    requires Planned(p) && place < |p.headers| && Tracks(p, admitted, s)
    ensures Tracks(p, admitted + {place}, n)
  {
    var header, group := place + 1, p.groups[place];
    var latest := if p.headers[place].complete && header > s.latestComplete then header else s.latestComplete;
    CompleteAdded(p, admitted, place, s.latestComplete);
    var headers: seq<nat> := [];
    var facts: seq<Option<int>>, known: seq<Option<int>> := [], [];
    for j := 0 to |p.key|
      invariant |headers| == |facts| == |known| == j
      invariant forall k :: 0 <= k < j ==> TracksAt(p, admitted + {place}, p.key[k], headers[k], facts[k], known[k])
    {
      var listing := ListingOf(group, p.key[j]);
      var later := Later(header, listing, s.memberHeader[j]);
      assert TracksKey(p, admitted, s, j);
      ListingAdded(p, admitted, place, p.key[j], s.memberHeader[j], s.memberFact[j], s.memberKnowledge[j]);
      headers := headers + [if later then header else s.memberHeader[j]];
      facts := facts + [if later then Some(listing.value.factId) else s.memberFact[j]];
      known := known + [if later then p.headers[place].known else s.memberKnowledge[j]];
    }
    n := HeaderState(latest, headers, facts, known);
  }

  lemma CompleteAdded(p: Plan, admitted: set<nat>, place: nat, latest: nat)
    requires place < |p.headers| && IsTop(admitted * Complete(p.headers), latest)
    ensures IsTop((admitted + {place}) * Complete(p.headers),
                  if p.headers[place].complete && place + 1 > latest then place + 1 else latest)
  {
    if p.headers[place].complete {
      assert (admitted + {place}) * Complete(p.headers) == admitted * Complete(p.headers) + {place};
      TopAdd(admitted * Complete(p.headers), latest, place);
    } else {
      assert (admitted + {place}) * Complete(p.headers) == admitted * Complete(p.headers);
    }
  }

  lemma ListingAdded(p: Plan, admitted: set<nat>, place: nat, inst: int, held: nat, fact: Option<int>,
                     since: Option<int>)
    requires place < |p.groups| && TracksAt(p, admitted, inst, held, fact, since)
    ensures var listing := ListingOf(p.groups[place], inst);
      var later := Later(place + 1, listing, held);
      TracksAt(p, admitted + {place}, inst, if later then place + 1 else held,
               if later then Some(listing.value.factId) else fact, if later then p.headers[place].known else since)
  {
    if ListingOf(p.groups[place], inst).Some? {
      assert (admitted + {place}) * ListedIn(p, inst) == admitted * ListedIn(p, inst) + {place};
      TopAdd(admitted * ListedIn(p, inst), held, place);
    } else {
      assert (admitted + {place}) * ListedIn(p, inst) == admitted * ListedIn(p, inst);
    }
  }

  lemma FreshTracks(p: Plan)
    requires |p.groups| == |p.headers|
    ensures Tracks(p, {}, Fresh(p))
  {
    forall j | 0 <= j < |p.key| ensures TracksKey(p, {}, Fresh(p), j) {
      assert {} * ListedIn(p, p.key[j]) == {};
    }
    assert {} * Complete(p.headers) == {};
  }

  // ---- planes derived from the header state ------------------------------------------------------

  function KnownPlane(s: HeaderState): (r: seq<bool>)
    ensures |r| == |s.memberHeader|
    ensures forall j :: 0 <= j < |r| ==> r[j] == (s.memberHeader[j] > 0 || s.latestComplete > 0)
  {
    seq(|s.memberHeader|, j requires 0 <= j < |s.memberHeader| => s.memberHeader[j] > 0 || s.latestComplete > 0)
  }

  function MemberPlane(s: HeaderState): (r: seq<bool>)
    ensures |r| == |s.memberHeader|
    ensures forall j :: 0 <= j < |r| ==> r[j] == (s.memberHeader[j] > 0 && s.memberHeader[j] >= s.latestComplete)
  {
    seq(|s.memberHeader|, j requires 0 <= j < |s.memberHeader| =>
      s.memberHeader[j] > 0 && s.memberHeader[j] >= s.latestComplete)
  }

  datatype Detail = Detail(reason: seq<Reason>, winner: seq<Evidence>, knowledge: seq<Option<int>>)

  function ReasonAt(known: bool, member: bool): Reason {
    if member then MemberAsserted else if known then OmittedFromCompleteSet else NoReason
  }

  function WinnerAt(p: Plan, latest: nat, header: nat, fact: Option<int>, known: bool, member: bool): Evidence
    requires latest <= |p.headers| && header <= |p.headers| && (member ==> header > 0 && fact.Some?)
  {
    if member then OfSetRow(p.headers[header - 1].setId, fact.value)
    else if known && latest > 0 then OfSet(p.headers[latest - 1].setId)
    else NoEvidence
  }

  function KnowledgeAt(p: Plan, latest: nat, since: Option<int>, known: bool, member: bool): Option<int>
    requires latest <= |p.headers|
  {
    if member then since else if known && latest > 0 then p.headers[latest - 1].known else None
  }

  /** What the header state says of one key instrument. */
  function NoteAt(p: Plan, latest: nat, header: nat, fact: Option<int>, since: Option<int>): Note
    requires latest <= |p.headers| && header <= |p.headers| && (header > 0 ==> fact.Some?)
  {
    var known, member := header > 0 || latest > 0, header > 0 && header >= latest;
    Note(known, member, ReasonAt(known, member), WinnerAt(p, latest, header, fact, known, member),
         KnowledgeAt(p, latest, since, known, member))
  }

  lemma TopBelow(p: Plan, t: int, n: nat)
    requires IsTop(EligibleBelow(p.headers, t, |p.headers|) * Complete(p.headers), n)
    ensures n <= |p.headers|
  {
  }

  /** The header state at a cutoff, overlaid with the interval rows, is the direct answer. */
  lemma StateIsAnswer(headers: seq<Header>, rows: seq<Row>, key: seq<int>, t: int, s: HeaderState, j: nat)
    requires DistinctSets(headers) && j < |key|
    requires var p := MakePlan(headers, rows, key); Tracks(p, EligibleBelow(p.headers, t, |p.headers|), s)
    ensures var p := MakePlan(headers, rows, key);
      && NoteReady(p, s, j)
      && Overlay(HeaderNote(p, s, j), LastFor(p.intervals, t, key[j])) == Answer(headers, rows, key[j], t)
  {
    hide Answer, Walked, LastFor;
    var p := MakePlan(headers, rows, key);
    assert TracksKey(p, EligibleBelow(p.headers, t, |p.headers|), s, j);
    SortedDistinctSets(headers, t);
    GroupsById(headers, rows, key);
    assert ListedIn(p, key[j]) == Listing(p.headers, rows, key[j]);
    TopBelow(p, t, s.latestComplete);
    AnswerIsDescribed(headers, rows, key[j], t, s.memberHeader[j], s.latestComplete);
  }

  lemma GroupsById(headers: seq<Header>, rows: seq<Row>, key: seq<int>)
    requires DistinctSets(Sort(headers, HeaderLe))
    ensures var p := MakePlan(headers, rows, key);
      forall i :: 0 <= i < |p.headers| ==> p.groups[i] == SetRows(rows, p.headers[i].setId)
  {
    var all := Sort(headers, HeaderLe);
    forall i | 0 <= i < |all| ensures Groups(all, rows)[i] == SetRows(rows, all[i].setId) { RowsById(all, rows, i); }
  }

  lemma TracksBounds(p: Plan, admitted: set<nat>, s: HeaderState)
    requires Tracks(p, admitted, s) && |p.groups| == |p.headers|
    ensures s.latestComplete <= |p.headers|
    ensures forall j :: 0 <= j < |p.key| ==> NoteReady(p, s, j)
  {
    if s.latestComplete > 0 { assert s.latestComplete - 1 in Complete(p.headers); }
    forall j | 0 <= j < |p.key| ensures NoteReady(p, s, j) {
      assert TracksKey(p, admitted, s, j);
    }
  }

  ghost predicate NoteReady(p: Plan, s: HeaderState, j: nat) {
    && j < |s.memberHeader| == |s.memberFact| == |s.memberKnowledge|
    && s.latestComplete <= |p.headers| && s.memberHeader[j] <= |p.headers|
    && (s.memberHeader[j] > 0 ==> s.memberFact[j].Some?)
  }

  ghost function HeaderNote(p: Plan, s: HeaderState, j: nat): Note
    requires NoteReady(p, s, j)
  {
    NoteAt(p, s.latestComplete, s.memberHeader[j], s.memberFact[j], s.memberKnowledge[j])
  }

  ghost predicate IsDetail(p: Plan, s: HeaderState, d: Detail) {
    && |d.reason| == |d.winner| == |d.knowledge| == |p.key|
    && forall j :: 0 <= j < |p.key| ==> DetailsNote(p, s, j, d.reason[j], d.winner[j], d.knowledge[j])
  }

  ghost predicate DetailsNote(p: Plan, s: HeaderState, j: nat, reason: Reason, winner: Evidence, since: Option<int>) {
    && NoteReady(p, s, j)
    && var n := HeaderNote(p, s, j); reason == n.reason && winner == n.evidence && since == n.since
  }

  /** The answer planes of one resolution. */
  datatype Planes = Planes(known: seq<bool>, member: seq<bool>, reason: seq<Reason>, winner: seq<Evidence>,
                           knowledge: seq<Option<int>>)

  predicate Shaped(x: Planes, n: nat) { |x.known| == |x.member| == |x.reason| == |x.winner| == |x.knowledge| == n }

  function NoteOf(x: Planes, j: nat): Note
    requires Shaped(x, |x.known|) && j < |x.known|
  {
    Note(x.known[j], x.member[j], x.reason[j], x.winner[j], x.knowledge[j])
  }

  /** The interval rows' last word on each key instrument. */
  method OverlayIntervals(p: Plan, t: int, base: Planes) returns (x: Planes)
    requires Shaped(base, |p.key|)
    ensures Shaped(x, |p.key|)
    ensures forall j :: 0 <= j < |p.key| ==> NoteOf(x, j) == Overlay(NoteOf(base, j), LastFor(p.intervals, t, p.key[j]))
  {
    x := base;
    for j := 0 to |p.key|
      invariant Shaped(x, |p.key|)
      invariant forall k :: 0 <= k < j ==> NoteOf(x, k) == Overlay(NoteOf(base, k), LastFor(p.intervals, t, p.key[k]))
      invariant forall k :: j <= k < |p.key| ==> NoteOf(x, k) == NoteOf(base, k)
    {
      var r := LastFor(p.intervals, t, p.key[j]);
      if r.Some? {
        var n := Asserted(r.value);
        x := Planes(x.known[j := n.known], x.member[j := n.member], x.reason[j := n.reason],
                    x.winner[j := n.evidence], x.knowledge[j := n.since]);
      }
    }
  }

  /** Key entries marked as members, in key order. */
  function Selected(key: seq<int>, known: seq<bool>, member: seq<bool>): (r: seq<int>)
    requires |key| == |known| == |member|
    ensures forall x :: x in r <==> exists j :: 0 <= j < |key| && key[j] == x && known[j] && member[j]
  {
    if key == [] then []
    else
      var n := |key| - 1;
      Selected(key[..n], known[..n], member[..n]) + if known[n] && member[n] then [key[n]] else []
  }

  lemma {:induction false} SelectedAscends(key: seq<int>, known: seq<bool>, member: seq<bool>)
    requires |key| == |known| == |member| && Ascending(key)
    ensures Ascending(Selected(key, known, member))
  {
    if key != [] {
      var n := |key| - 1;
      SelectedAscends(key[..n], known[..n], member[..n]);
      var front := Selected(key[..n], known[..n], member[..n]);
      forall i | 0 <= i < |front| ensures front[i] < key[n] {
        assert front[i] in front;
        var j :| 0 <= j < n && key[..n][j] == front[i];
      }
    }
  }

  /** Admits the entries from `low` up to `high`. */
  method AdmitRange(p: Plan, start: HeaderState, low: nat, high: nat) returns (s: HeaderState)
    requires Planned(p) && low <= high <= |p.entries| && Tracks(p, Admitted(p, low), start)
    ensures Tracks(p, Admitted(p, high), s)
  {
    hide Tracks, Admitted;
    s := start;
    for position := low to high
      invariant Tracks(p, Admitted(p, position), s)
    {
      assert p.entries[position] in p.entries;
      AdmitOne(p, position);
      s := AdvanceHeader(p, s, p.entries[position].place, Admitted(p, position));
    }
  }

  method BuildDetail(p: Plan, s: HeaderState, known: seq<bool>, member: seq<bool>, ghost admitted: set<nat>)
    returns (d: Detail)
    requires |p.groups| == |p.headers| && Tracks(p, admitted, s) && known == KnownPlane(s) && member == MemberPlane(s)
    ensures IsDetail(p, s, d)
  {
    TracksBounds(p, admitted, s);
    var reason: seq<Reason> := [];
    var winner: seq<Evidence> := [];
    var since: seq<Option<int>> := [];
    for j := 0 to |p.key|
      invariant |reason| == |winner| == |since| == j
      invariant forall k :: 0 <= k < j ==> DetailsNote(p, s, k, reason[k], winner[k], since[k])
    {
      assert NoteReady(p, s, j);
      reason := reason + [ReasonAt(known[j], member[j])];
      winner := winner + [WinnerAt(p, s.latestComplete, s.memberHeader[j], s.memberFact[j], known[j], member[j])];
      since := since + [KnowledgeAt(p, s.latestComplete, s.memberKnowledge[j], known[j], member[j])];
    }
    d := Detail(reason, winner, since);
  }

  /** The interval rows' last word, on the two planes members are read from. */
  method OverlayMembers(p: Plan, t: int, known: seq<bool>, member: seq<bool>) returns (k: seq<bool>, m: seq<bool>)
    requires |known| == |member| == |p.key|
    ensures |k| == |m| == |p.key|
    ensures forall j :: 0 <= j < |p.key| ==>
      var r := LastFor(p.intervals, t, p.key[j]);
      k[j] == (r.Some? || known[j]) && m[j] == if r.Some? then r.value.member else member[j]
  {
    k, m := known, member;
    for j := 0 to |p.key|
      invariant |k| == |m| == |p.key|
      invariant forall i :: 0 <= i < j ==>
        var r := LastFor(p.intervals, t, p.key[i]);
        k[i] == (r.Some? || known[i]) && m[i] == if r.Some? then r.value.member else member[i]
      invariant forall i :: j <= i < |p.key| ==> k[i] == known[i] && m[i] == member[i]
    {
      var r := LastFor(p.intervals, t, p.key[j]);
      if r.Some? { k, m := k[j := true], m[j := r.value.member]; }
    }
  }

  class Membership {
    const plan: Plan
    var eligible: nat
    var last: Option<int>
    var state: HeaderState
    var cachedKnown: seq<bool>
    var cachedMember: seq<bool>
    var cachedDetail: Option<Detail>

    /** The state is that of the headers eligible at the last cutoff; the caches are current. */
    ghost predicate Valid()
      reads this
    {
      && Planned(plan) && eligible <= |plan.entries|
      && Tracks(plan, Admitted(plan, eligible), state)
      && (last.None? ==> eligible == 0)
      && (last.Some? ==> eligible == EligibleCount(plan, last.value))
      && cachedKnown == KnownPlane(state) && cachedMember == MemberPlane(state)
      && (cachedDetail.Some? ==> IsDetail(plan, state, cachedDetail.value))
    }

    constructor (plan: Plan)
      requires Planned(plan)
      ensures Valid() && this.plan == plan && last == None
    {
      this.plan := plan;
      eligible, last, state := 0, None, Fresh(plan);
      cachedKnown, cachedMember := seq(|plan.key|, _ => false), seq(|plan.key|, _ => false);
      cachedDetail := None;
      new;
      FreshTracks(plan);
      assert Admitted(plan, 0) == {};
    }

    /** `advance_headers`: forward only admits; backward starts over. */
    method AdvanceHeaders(t: int)
      requires Valid()
      modifies this
      ensures Valid() && last == Some(t)
    {
      hide Tracks, Admitted, KnownPlane, MemberPlane;
      if last.None? || t < last.value {
        ResetHeaders();
      } else {
        EligibleGrows(plan, last.value, t);
      }
      last := Some(t);
      var target := EligibleCount(plan, t);
      if target <= eligible {
        return;
      }
      var s := AdmitRange(plan, state, eligible, target);
      state, eligible := s, target;
      cachedKnown, cachedMember, cachedDetail := KnownPlane(s), MemberPlane(s), None;
    }

    method ResetHeaders()
      requires Planned(plan)
      modifies this
      ensures Planned(plan) && eligible == 0 && last == old(last)
      ensures Tracks(plan, Admitted(plan, 0), state)
      ensures cachedKnown == KnownPlane(state) && cachedMember == MemberPlane(state) && cachedDetail == None
    {
      eligible, state := 0, Fresh(plan);
      cachedKnown, cachedMember := seq(|plan.key|, _ => false), seq(|plan.key|, _ => false);
      cachedDetail := None;
      FreshTracks(plan);
      assert Admitted(plan, 0) == {};
    }

    /** Reasons and winners, computed once per header state. */
    method HeaderDetail() returns (d: Detail)
      requires Valid()
      modifies this`cachedDetail
      ensures Valid() && IsDetail(plan, state, d)
    {
      if cachedDetail.Some? { return cachedDetail.value; }
      d := BuildDetail(plan, state, cachedKnown, cachedMember, Admitted(plan, eligible));
      cachedDetail := Some(d);
    }

    /** `resolve`: at any cutoff, in any order of cutoffs, every key instrument gets the
        direct resolver's state, reason and evidence, with the evidence's knowledge time. */
    method ResolveAt(ghost headers: seq<Header>, ghost rows: seq<Row>, t: int) returns (x: Planes)
      requires Valid() && DistinctSets(headers) && plan == MakePlan(headers, rows, plan.key)
      modifies this
      ensures Valid() && last == Some(t)
      ensures Shaped(x, |plan.key|)
      ensures forall j :: 0 <= j < |plan.key| ==> NoteOf(x, j) == Answer(headers, rows, plan.key[j], t)
    {
      AdvanceHeaders(t);
      var detail := HeaderDetail();
      var base := Planes(cachedKnown, cachedMember, detail.reason, detail.winner, detail.knowledge);
      x := OverlayIntervals(plan, t, base);
      AdmittedIsEligible(plan, t);
      forall j | 0 <= j < |plan.key| ensures NoteOf(x, j) == Answer(headers, rows, plan.key[j], t) {
        assert DetailsNote(plan, state, j, detail.reason[j], detail.winner[j], detail.knowledge[j]);
        assert NoteOf(base, j) == HeaderNote(plan, state, j);
        StateIsAnswer(headers, rows, plan.key, t, state, j);
      }
    }

    /** `members_at`: the direct resolver's members, when the key covers the rows. */
    method MembersAt(ghost headers: seq<Header>, ghost rows: seq<Row>, t: int) returns (members: seq<int>)
      requires Valid() && DistinctSets(headers) && plan == MakePlan(headers, rows, plan.key)
      requires Ascending(plan.key) && forall r :: r in rows ==> r.inst in plan.key
      modifies this
      ensures Valid() && last == Some(t)
      ensures Ascending(members) && forall inst :: inst in members <==> IsMember(headers, rows, inst, t)
    {
      AdvanceHeaders(t);
      var known, member := OverlayMembers(plan, t, cachedKnown, cachedMember);
      members := Selected(plan.key, known, member);
      SelectedAscends(plan.key, known, member);
      forall inst ensures inst in members <==> IsMember(headers, rows, inst, t) {
        if inst in plan.key {
          var j :| 0 <= j < |plan.key| && plan.key[j] == inst;
          KeyMember(headers, rows, t, j);
          assert known[j] && member[j] <==> IsMember(headers, rows, inst, t);
          OnePlace(inst, j);
        } else {
          Unmentioned(headers, rows, inst, t);
        }
      }
    }

    lemma OnePlace(inst: int, j: nat)
      requires Ascending(plan.key) && j < |plan.key| && plan.key[j] == inst
      ensures forall k :: 0 <= k < |plan.key| && plan.key[k] == inst ==> k == j
    {
    }

    /** The cached planes, overlaid, say whether a key instrument is a member. */
    lemma KeyMember(headers: seq<Header>, rows: seq<Row>, t: int, j: nat)
      requires Valid() && last == Some(t) && DistinctSets(headers) && plan == MakePlan(headers, rows, plan.key)
      requires j < |plan.key|
      ensures var r := LastFor(plan.intervals, t, plan.key[j]);
        IsMember(headers, rows, plan.key[j], t)
        <==> if r.Some? then r.value.member else cachedKnown[j] && cachedMember[j]
    {
      AdmittedIsEligible(plan, t);
      StateIsAnswer(headers, rows, plan.key, t, state, j);
    }
  }

  lemma Unmentioned(headers: seq<Header>, rows: seq<Row>, inst: int, t: int)
    requires forall r :: r in rows ==> r.inst != inst
    ensures !IsMember(headers, rows, inst, t)
  {
    var h := EligibleHeaders(headers, t);
    HeadersSilent(h, rows, inst, |h|);
    var intervals := ApplicableIntervals(rows, t);
    FilterMembers(rows, StandsAlone);
    FilterMembers(Filter(rows, StandsAlone), ApplicableAt(t));
    SortMembers(Filter(Filter(rows, StandsAlone), ApplicableAt(t)), RowLe);
    forall i | 0 <= i < |intervals| ensures intervals[i].inst != inst { assert intervals[i] in intervals; }
    IntervalsSilent(WalkHeaders(h, rows, inst, |h|), intervals, inst);
  }

  // ---- from facts to answers ---------------------------------------------------------------

  ghost predicate DirectPlanes(headers: seq<Header>, rows: seq<Row>, key: seq<int>, cutoff: int, x: Planes) {
    Shaped(x, |key|) && forall j :: 0 <= j < |key| ==> NoteOf(x, j) == Answer(headers, rows, key[j], cutoff)
  }

  /** Plan once, then resolve at any list of cutoffs, rising, falling or repeated: every
      answer is the direct resolver's at its own cutoff. */
  method ResolveAll(headers: seq<Header>, rows: seq<Row>, key: seq<int>, cutoffs: seq<int>)
    returns (answers: seq<Planes>)
    requires DistinctSets(headers)
    ensures |answers| == |cutoffs|
    ensures forall k :: 0 <= k < |cutoffs| ==> DirectPlanes(headers, rows, key, cutoffs[k], answers[k])
  {
    hide MakePlan, Planned, Answer, NoteOf, DistinctSets;
    PlanIsPlanned(headers, rows, key);
    var provider := new Membership(MakePlan(headers, rows, key));
    answers := [];
    for k := 0 to |cutoffs|
      invariant provider.Valid() && provider.plan == MakePlan(headers, rows, key) && fresh(provider)
      invariant |answers| == k
      invariant forall n :: 0 <= n < k ==> DirectPlanes(headers, rows, key, cutoffs[n], answers[n])
    {
      var x := provider.ResolveAt(headers, rows, cutoffs[k]);
      assert DirectPlanes(headers, rows, key, cutoffs[k], x);
      answers := answers + [x];
    }
  }

  /** The members at a cutoff, in stable order. */
  ghost predicate AreMembers(headers: seq<Header>, rows: seq<Row>, cutoff: int, members: seq<int>) {
    Ascending(members) && forall inst :: inst in members <==> IsMember(headers, rows, inst, cutoff)
  }

  lemma SameMembers(headers: seq<Header>, rows: seq<Row>, cutoff: int, a: seq<int>, b: seq<int>)
    requires AreMembers(headers, rows, cutoff, a) && AreMembers(headers, rows, cutoff, b)
    ensures a == b
  {
    hide IsMember;
    AscendingUnique(a, b);
  }

  /** Both resolvers at any list of cutoffs: they return the same members in the same order. */
  method MembersAll(headers: seq<Header>, rows: seq<Row>, key: seq<int>, cutoffs: seq<int>)
    returns (prepared: seq<seq<int>>, direct: seq<seq<int>>)
    requires DistinctSets(headers) && Ascending(key) && forall r :: r in rows ==> r.inst in key
    ensures prepared == direct && |direct| == |cutoffs|
    ensures forall k :: 0 <= k < |cutoffs| ==> AreMembers(headers, rows, cutoffs[k], direct[k])
  {
    hide MakePlan, Planned, IsMember, DistinctSets;
    PlanIsPlanned(headers, rows, key);
    var provider := new Membership(MakePlan(headers, rows, key));
    prepared, direct := [], [];
    for k := 0 to |cutoffs|
      invariant provider.Valid() && provider.plan == MakePlan(headers, rows, key) && fresh(provider)
      invariant prepared == direct && |direct| == k
      invariant forall n :: 0 <= n < k ==> AreMembers(headers, rows, cutoffs[n], direct[n])
    {
      var members := provider.MembersAt(headers, rows, cutoffs[k]);
      var _, _, _, resolved := Resolve(headers, rows, cutoffs[k]);
      assert AreMembers(headers, rows, cutoffs[k], members) && AreMembers(headers, rows, cutoffs[k], resolved);
      SameMembers(headers, rows, cutoffs[k], members, resolved);
      prepared, direct := prepared + [members], direct + [resolved];
    }
  }
}
