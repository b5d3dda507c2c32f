/** Sealing membership facts: set rows are checked against their headers, those that cannot
    take part in a conflict are dropped, and the rest is swept. */
module MembershipSeal {
  import opened Wrappers
  import opened Ordering
  import opened ScopeGroups
  import opened OverlapSweep

  /** The empty text. */
  const EMPTY: int := 0

  /** A membership row; a set row carries the identity of its set. */
  datatype MemberFact = MemberFact(
    factId: int, universe: int, inst: int, setId: Option<int>, from: int, until: Option<int>,
    known: Option<int>, member: Option<bool>, provenance: Option<int>)

  datatype SetHeader = SetHeader(
    universe: Option<int>, setId: Option<int>, from: int, known: Option<int>,
    complete: Option<bool>, provenance: Option<int>)

  datatype Refusal =
    | EmptySetIdentity | NotAMember | MalformedHeaders | DuplicateHeader | MissingHeader | EffectiveMismatch
    | BoundedInterval | KnowledgeMismatch | ProvenanceMismatch | DuplicateMember | MissingState

  predicate IsSetRow(r: MemberFact) { r.setId.Some? }

  predicate WellFormed(h: SetHeader) {
    && h.universe.Some? && h.universe.value != EMPTY
    && h.setId.Some? && h.setId.value != EMPTY && h.complete.Some?
  }

  predicate Heads(h: SetHeader, r: MemberFact) { h.universe == Some(r.universe) && h.setId == r.setId }

  /** `match`: the first header of the row's set. */
  function HeaderOf(headers: seq<SetHeader>, r: MemberFact): (h: Option<SetHeader>)
    ensures h.Some? ==> h.value in headers && Heads(h.value, r)
    ensures h.None? ==> forall i :: 0 <= i < |headers| ==> !Heads(headers[i], r)
  {
    if headers == [] then None
    else if Heads(headers[0], r) then Some(headers[0])
    else
      var rest := HeaderOf(headers[1..], r);
      assert rest.None? ==> forall i :: 1 <= i < |headers| ==> headers[i] == headers[1..][i - 1];
      rest
  }

  predicate SameIdentity(g: SetHeader, h: SetHeader) { g.universe == h.universe && g.setId == h.setId }

  predicate SameMember(a: MemberFact, b: MemberFact) {
    a.universe == b.universe && a.setId == b.setId && a.inst == b.inst
  }

  /** The test of one rule. */
  predicate Broken(rule: Refusal, rows: seq<MemberFact>, headers: seq<SetHeader>) {
    var sets := Filter(rows, IsSetRow);
    match rule
    case EmptySetIdentity => exists r :: r in sets && r.setId == Some(EMPTY)
    case NotAMember => exists r :: r in sets && r.member != Some(true)
    case MalformedHeaders => headers == [] || exists h :: h in headers && !WellFormed(h)
    case DuplicateHeader => exists i, j :: 0 <= i < j < |headers| && SameIdentity(headers[i], headers[j])
    case MissingHeader => exists r :: r in sets && HeaderOf(headers, r).None?
    case EffectiveMismatch =>
      exists r :: r in sets && HeaderOf(headers, r).Some? && r.from != HeaderOf(headers, r).value.from
    case BoundedInterval => exists r :: r in sets && r.until.Some?
    case KnowledgeMismatch =>
      exists r :: r in sets && HeaderOf(headers, r).Some? && r.known != HeaderOf(headers, r).value.known
    case ProvenanceMismatch =>
      exists r :: r in sets && HeaderOf(headers, r).Some?
                  && (r.provenance.None? || r.provenance != HeaderOf(headers, r).value.provenance)
    case DuplicateMember => exists i, j :: 0 <= i < j < |sets| && SameMember(sets[i], sets[j])
    case MissingState => false
  }

  /** The checks on set rows, in order. */
  function Check(rows: seq<MemberFact>, headers: seq<SetHeader>): Option<Refusal> {
    if Broken(EmptySetIdentity, rows, headers) then Some(EmptySetIdentity)
    else if Broken(NotAMember, rows, headers) then Some(NotAMember)
    else if Broken(MalformedHeaders, rows, headers) then Some(MalformedHeaders)
    else if Broken(DuplicateHeader, rows, headers) then Some(DuplicateHeader)
    else if Broken(MissingHeader, rows, headers) then Some(MissingHeader)
    else if Broken(EffectiveMismatch, rows, headers) then Some(EffectiveMismatch)
    else if Broken(BoundedInterval, rows, headers) then Some(BoundedInterval)
    else if Broken(KnowledgeMismatch, rows, headers) then Some(KnowledgeMismatch)
    else if Broken(ProvenanceMismatch, rows, headers) then Some(ProvenanceMismatch)
    else if Broken(DuplicateMember, rows, headers) then Some(DuplicateMember)
    else None
  }

  // ---- what the checks ask ---------------------------------------------------------------

  function SetOf(r: MemberFact): (Option<int>, Option<int>) { (Some(r.universe), r.setId) }
  function IdentityOf(h: SetHeader): (Option<int>, Option<int>) { (h.universe, h.setId) }

  /** Some header of the row's set agrees with it in this respect. */
  ghost predicate HasHeader(headers: seq<SetHeader>, r: MemberFact, agrees: (SetHeader, MemberFact) -> bool) {
    exists i :: 0 <= i < |headers| && IdentityOf(headers[i]) == SetOf(r) && agrees(headers[i], r)
  }

  predicate Given(x: Option<int>) { x != None && x != Some(EMPTY) }

  ghost predicate DistinctIdentities(headers: seq<SetHeader>) {
    forall i, j :: 0 <= i < |headers| && 0 <= j < |headers| ==>
      (IdentityOf(headers[i]) == IdentityOf(headers[j]) ==> i == j)
  }

  ghost predicate ListedOnce(sets: seq<MemberFact>) {
    forall i, j :: 0 <= i < |sets| && 0 <= j < |sets| ==>
      (SetOf(sets[i]) == SetOf(sets[j]) && sets[i].inst == sets[j].inst ==> i == j)
  }

  /** The rules in the order in which they are checked. */
  ghost predicate Holds(rule: Refusal, rows: seq<MemberFact>, headers: seq<SetHeader>) {
    var sets := Filter(rows, IsSetRow);
    match rule
    case EmptySetIdentity => forall r :: r in sets ==> Given(r.setId)
    case NotAMember => forall r :: r in sets ==> r.member == Some(true)
    case MalformedHeaders =>
      |headers| > 0 && forall h :: h in headers ==> Given(h.universe) && Given(h.setId) && h.complete != None
    case DuplicateHeader => DistinctIdentities(headers)
    case MissingHeader => forall r :: r in sets ==> HasHeader(headers, r, AnyHeader)
    case EffectiveMismatch => forall r :: r in sets ==> HasHeader(headers, r, SameStart)
    case BoundedInterval => forall r :: r in sets ==> r.until == None
    case KnowledgeMismatch => forall r :: r in sets ==> HasHeader(headers, r, SameKnown)
    case ProvenanceMismatch => forall r :: r in sets ==> HasHeader(headers, r, SameProvenance)
    case DuplicateMember => ListedOnce(sets)
    case MissingState => true
  }

  predicate AnyHeader(h: SetHeader, r: MemberFact) { true }
  predicate SameStart(h: SetHeader, r: MemberFact) { h.from == r.from }
  predicate SameKnown(h: SetHeader, r: MemberFact) { h.known == r.known }
  predicate SameProvenance(h: SetHeader, r: MemberFact) { r.provenance != None && h.provenance == r.provenance }

  function Rank(rule: Refusal): nat {
    match rule
    case EmptySetIdentity => 1 case NotAMember => 2 case MalformedHeaders => 3 case DuplicateHeader => 4
    case MissingHeader => 5 case EffectiveMismatch => 6 case BoundedInterval => 7 case KnowledgeMismatch => 8
    case ProvenanceMismatch => 9 case DuplicateMember => 10 case MissingState => 11
  }

  /** With distinct identities the header `match` finds is the only one of the row's set. */
  lemma HeaderIsOnly(headers: seq<SetHeader>, r: MemberFact, agrees: (SetHeader, MemberFact) -> bool)
    requires DistinctIdentities(headers) && IsSetRow(r)
    ensures HasHeader(headers, r, agrees) <==> HeaderOf(headers, r).Some? && agrees(HeaderOf(headers, r).value, r)
  {
    var found := HeaderOf(headers, r);
    if found.Some? {
      var i :| 0 <= i < |headers| && headers[i] == found.value;
      assert IdentityOf(headers[i]) == SetOf(r);
    }
    forall j | 0 <= j < |headers| && IdentityOf(headers[j]) == SetOf(r) ensures found == Some(headers[j]) {
      assert Heads(headers[j], r);
    }
  }

  /** A rule's test finds it broken exactly when it does not hold, the earlier ones holding. */
  lemma BrokenMeans(rule: Refusal, rows: seq<MemberFact>, headers: seq<SetHeader>)
    requires Rank(rule) > Rank(MissingHeader) ==> Holds(MissingHeader, rows, headers)
    requires Rank(rule) > Rank(DuplicateHeader) ==> DistinctIdentities(headers)
    ensures Broken(rule, rows, headers) <==> !Holds(rule, rows, headers)
  {
    hide HeaderOf, HasHeader;
    var sets := Filter(rows, IsSetRow);
    FilterMembers(rows, IsSetRow);
    if DistinctIdentities(headers) && Rank(rule) > Rank(DuplicateHeader) {
      forall r | r in sets
        ensures HasHeader(headers, r, AnyHeader) <==> HeaderOf(headers, r).Some?
        ensures HeaderOf(headers, r).Some? ==>
          && (HasHeader(headers, r, SameStart) <==> SameStart(HeaderOf(headers, r).value, r))
          && (HasHeader(headers, r, SameKnown) <==> SameKnown(HeaderOf(headers, r).value, r))
          && (HasHeader(headers, r, SameProvenance) <==> SameProvenance(HeaderOf(headers, r).value, r))
      {
        HeaderIsOnly(headers, r, AnyHeader);
        HeaderIsOnly(headers, r, SameStart);
        HeaderIsOnly(headers, r, SameKnown);
        HeaderIsOnly(headers, r, SameProvenance);
      }
    }
  }

  /** Set rows pass exactly when every rule holds. */
  lemma ChecksAccept(rows: seq<MemberFact>, headers: seq<SetHeader>)
    ensures Check(rows, headers) == None <==> forall rule: Refusal :: Holds(rule, rows, headers)
  {
    hide Broken;
    if Check(rows, headers).Some? {
      ChecksName(rows, headers, Check(rows, headers).value);
    } else {
      BrokenMeans(DuplicateHeader, rows, headers);
      assert Holds(DuplicateHeader, rows, headers);
      BrokenMeans(MissingHeader, rows, headers);
      forall rule: Refusal ensures Holds(rule, rows, headers) { BrokenMeans(rule, rows, headers); }
    }
  }

  /** And a refusal names the first rule that does not. */
  lemma ChecksName(rows: seq<MemberFact>, headers: seq<SetHeader>, refusal: Refusal)
    requires Check(rows, headers) == Some(refusal)
    ensures !Holds(refusal, rows, headers)
    ensures forall rule: Refusal :: Rank(rule) < Rank(refusal) ==> Holds(rule, rows, headers)
  {
    hide Broken;
    BrokenMeans(DuplicateHeader, rows, headers);
    if Rank(refusal) > Rank(DuplicateHeader) {
      assert Holds(DuplicateHeader, rows, headers);
      BrokenMeans(MissingHeader, rows, headers);
    }
    BrokenMeans(refusal, rows, headers);
    forall rule: Refusal | Rank(rule) < Rank(refusal) ensures Holds(rule, rows, headers) {
      BrokenMeans(rule, rows, headers);
    }
  }

  predicate SharesScope(a: MemberFact, b: MemberFact) { a.inst == b.inst && a.universe == b.universe }

  /** An interval row, or a set row whose scope holds an interval row. */
  predicate Contestable(rows: seq<MemberFact>, r: MemberFact) {
    !IsSetRow(r) || exists i :: 0 <= i < |rows| && !IsSetRow(rows[i]) && SharesScope(rows[i], r)
  }

  function ContestableIn(rows: seq<MemberFact>): MemberFact -> bool { (r: MemberFact) => Contestable(rows, r) }

  /** `membership_sweep_rows`: refuses malformed set rows, and drops those no interval row
      can contradict. */
  function SweepRows(rows: seq<MemberFact>, headers: seq<SetHeader>): Result<seq<MemberFact>, Refusal> {
    if forall i :: 0 <= i < |rows| ==> !IsSetRow(rows[i]) then Success(rows)
    else
      var refusal := Check(rows, headers);
      if refusal.Some? then Failure(refusal.value) else Success(Filter(rows, ContestableIn(rows)))
  }

  /** The sweep is given the interval rows and the set rows of a scope that has one. */
  lemma KeptAreContestable(rows: seq<MemberFact>, headers: seq<SetHeader>, r: MemberFact)
    requires SweepRows(rows, headers).Success?
    ensures r in SweepRows(rows, headers).value
       <==> r in rows && (r.setId == None || exists q :: q in rows && q.setId == None
                                                          && (q.universe, q.inst) == (r.universe, r.inst))
  {
    hide Check;
    FilterMembers(rows, ContestableIn(rows));
    if q :| q in rows && q.setId == None && (q.universe, q.inst) == (r.universe, r.inst) {
      var i :| 0 <= i < |rows| && rows[i] == q;
      assert SharesScope(rows[i], r) && !IsSetRow(rows[i]);
    }
    if r in rows { var k :| 0 <= k < |rows| && rows[k] == r; }
  }

  function StateCode(member: Option<bool>): int { if member.None? then 2 else if member.value then 1 else 0 }

  function ClaimOf(r: MemberFact): Claim {
    Claim((r.inst, r.universe, 0), StateCode(r.member), r.from, EndOf(r.until), r.factId)
  }

  function ClaimsOf(rows: seq<MemberFact>): (claims: seq<Claim>)
    ensures |claims| == |rows| && forall i :: 0 <= i < |rows| ==> claims[i] == ClaimOf(rows[i])
  {
    seq(|rows|, i requires 0 <= i < |rows| => ClaimOf(rows[i]))
  }

  /** Two facts of one scope assert different states over overlapping intervals. */
  ghost predicate Contradicts(rows: seq<MemberFact>) {
    exists a, b :: a in rows && b in rows && Opposing(ClaimOf(a), ClaimOf(b))
  }

  lemma ClaimsContradict(rows: seq<MemberFact>)
    ensures HasOpposing(ClaimsOf(rows)) <==> Contradicts(rows)
  {
    var claims := ClaimsOf(rows);
    if HasOpposing(claims) {
      var c, d :| c in claims && d in claims && Opposing(c, d);
      var i :| 0 <= i < |rows| && claims[i] == c;
      var j :| 0 <= j < |rows| && claims[j] == d;
      assert rows[i] in rows && rows[j] in rows;
    }
    if Contradicts(rows) {
      var a, b :| a in rows && b in rows && Opposing(ClaimOf(a), ClaimOf(b));
      var i :| 0 <= i < |rows| && rows[i] == a;
      var j :| 0 <= j < |rows| && rows[j] == b;
      assert claims[i] in claims && claims[j] in claims;
    }
  }

  lemma SetRowsAssertMembership(rows: seq<MemberFact>, headers: seq<SetHeader>, r: MemberFact)
    requires Check(rows, headers).None? && r in rows && IsSetRow(r)
    ensures r.member == Some(true)
  {
    assert !Broken(NotAMember, rows, headers);
    FilterMembers(rows, IsSetRow);
    assert r in Filter(rows, IsSetRow);
  }

  /** Dropping never changes the verdict: a contradiction needs a row that is not a set row,
      and every row it could contradict is kept. */
  lemma PruningKeepsVerdict(rows: seq<MemberFact>, headers: seq<SetHeader>)
    requires SweepRows(rows, headers).Success?
    ensures Contradicts(SweepRows(rows, headers).value) <==> Contradicts(rows)
  {
    hide Check;
    if exists i :: 0 <= i < |rows| && IsSetRow(rows[i]) {
      var kept := Filter(rows, ContestableIn(rows));
      FilterMembers(rows, ContestableIn(rows));
      assert SweepRows(rows, headers).value == kept;
      if Contradicts(rows) {
        var a, b :| a in rows && b in rows && Opposing(ClaimOf(a), ClaimOf(b));
        OneStandsAlone(rows, headers, a, b);
        assert Contestable(rows, a) && Contestable(rows, b);
        assert a in kept && b in kept;
      }
    }
  }

  lemma OneStandsAlone(rows: seq<MemberFact>, headers: seq<SetHeader>, a: MemberFact, b: MemberFact)
    requires Check(rows, headers).None? && a in rows && b in rows && Opposing(ClaimOf(a), ClaimOf(b))
    ensures Contestable(rows, a) && Contestable(rows, b)
  {
    hide Check;
    if IsSetRow(a) { SetRowsAssertMembership(rows, headers, a); }
    if IsSetRow(b) { SetRowsAssertMembership(rows, headers, b); }
    var i :| 0 <= i < |rows| && rows[i] == a;
    var j :| 0 <= j < |rows| && rows[j] == b;
    assert !IsSetRow(rows[i]) || !IsSetRow(rows[j]);
    assert SharesScope(rows[i], b) && SharesScope(rows[j], a);
  }

  ghost predicate ValidIntervals(rows: seq<MemberFact>) {
    forall i :: 0 <= i < |rows| ==> Lt(Fin(rows[i].from), EndOf(rows[i].until))
  }

  ghost predicate SomeStateMissing(rows: seq<MemberFact>) { exists i :: 0 <= i < |rows| && rows[i].member.None? }

  /** A row with a missing state is never dropped. */
  lemma MissingStateSurvives(rows: seq<MemberFact>, headers: seq<SetHeader>)
    requires SweepRows(rows, headers).Success?
    ensures SomeStateMissing(SweepRows(rows, headers).value) <==> SomeStateMissing(rows)
  {
    hide Check;
    var kept := SweepRows(rows, headers).value;
    FilterMembers(rows, ContestableIn(rows));
    if SomeStateMissing(rows) {
      var i :| 0 <= i < |rows| && rows[i].member.None?;
      if Check(rows, headers).None? && IsSetRow(rows[i]) { SetRowsAssertMembership(rows, headers, rows[i]); }
      assert rows[i] in kept;
      var j :| 0 <= j < |kept| && kept[j] == rows[i];
    }
    if SomeStateMissing(kept) {
      var j :| 0 <= j < |kept| && kept[j].member.None?;
      assert kept[j] in kept;
      var i :| 0 <= i < |rows| && rows[i] == kept[j];
    }
  }

  /** The seal's membership check, as if every row had been swept: it is refused by the set
      checks or for a missing state, and otherwise the verdict is that of all the rows. */
  method SealMembership(rows: seq<MemberFact>, headers: seq<SetHeader>) returns (r: Result<bool, Refusal>)
    requires ValidIntervals(rows)
    ensures r.Failure? <==> SweepRows(rows, headers).Failure? || SomeStateMissing(rows)
    ensures SweepRows(rows, headers).Failure? ==> r == Failure(SweepRows(rows, headers).error)
    ensures r.Success? ==> (r.value <==> Contradicts(rows))
  {
    hide Check;
    var swept := SweepRows(rows, headers);
    if swept.Failure? { return Failure(swept.error); }
    PruningKeepsVerdict(rows, headers);
    MissingStateSurvives(rows, headers);
    FilterMembers(rows, ContestableIn(rows));
    var kept := swept.value;
    if exists i :: 0 <= i < |kept| && kept[i].member.None? { return Failure(MissingState); }
    forall i | 0 <= i < |kept| ensures Lt(Fin(ClaimsOf(kept)[i].start), ClaimsOf(kept)[i].end) {
      assert kept[i] in kept;
      var j :| 0 <= j < |rows| && rows[j] == kept[i];
    }
    ClaimsContradict(kept);
    var conflict := OpposingOverlap(ClaimsOf(kept));
    r := Success(conflict);
  }
}
