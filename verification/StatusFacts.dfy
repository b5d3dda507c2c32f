/** Trading-status facts: who asserts what, over which half-open interval, known
    from when, and which earlier fact it corrects. */
module StatusFacts {
  import opened Wrappers
  import opened Clocks
  import opened Forest

  datatype StatusRow = StatusRow(
    factId: int, instrument: int, source: int, precedence: int, status: int,
    from: int, to: Option<int>, knowledge: Option<int>, supersedes: Option<int>)

  predicate Overlap(a: StatusRow, b: StatusRow) {
    BeforeEnd(a.from, b.to) && BeforeEnd(b.from, a.to)
  }

  function Scope(row: StatusRow): (int, int, int) {
    (row.instrument, row.source, row.precedence)
  }

  /** Same source, same precedence, overlapping, yet different statuses. */
  predicate Clash(a: StatusRow, b: StatusRow) {
    Scope(a) == Scope(b) && a.status != b.status && Overlap(a, b)
  }

  /** Facts with proper intervals overlap exactly when both are in force at some instant. */
  lemma OverlapMeans(a: StatusRow, b: StatusRow)
    requires BeforeEnd(a.from, a.to) && BeforeEnd(b.from, b.to)
    ensures Overlap(a, b) <==> exists t :: InForceAt(a, t) && InForceAt(b, t)
  {
    var later := if a.from < b.from then b.from else a.from;
    if Overlap(a, b) { assert InForceAt(a, later) && InForceAt(b, later); }
  }

  predicate InForceAt(a: StatusRow, t: int) { a.from <= t && (a.to == None || t < a.to.value) }

  ghost predicate ValidIntervals(rows: seq<StatusRow>) {
    forall i :: 0 <= i < |rows| ==> BeforeEnd(rows[i].from, rows[i].to)
  }

  /** `match`: the first row carrying the id. */
  function Match(rows: seq<StatusRow>, id: int): (r: Option<nat>)
    ensures r.Some? ==> r.value < |rows| && rows[r.value].factId == id
    ensures r.None? <==> forall i :: 0 <= i < |rows| ==> rows[i].factId != id
  {
    if rows == [] then None
    else if rows[0].factId == id then Some(0)
    else
      var rest := Match(rows[1..], id);
      if rest.None? then
        assert forall i :: 1 <= i < |rows| ==> rows[i] == rows[1..][i - 1];
        None
      else Some(rest.value + 1)
  }

  function ParentOf(rows: seq<StatusRow>, i: nat): (r: Option<nat>)
    requires i < |rows|
    ensures r.Some? ==> r.value < |rows| && rows[i].supersedes == Some(rows[r.value].factId)
  {
    if rows[i].supersedes.Some? then Match(rows, rows[i].supersedes.value) else None
  }

  function ParentsOf(rows: seq<StatusRow>): (parent: Parents)
    ensures |parent| == |rows| && Valid(parent)
    ensures forall i :: 0 <= i < |rows| ==> parent[i] == ParentOf(rows, i)
  {
    seq(|rows|, i requires 0 <= i < |rows| => ParentOf(rows, i))
  }

  ghost predicate Related(rows: seq<StatusRow>, i: nat, j: nat)
    requires i < |rows| && j < |rows|
  {
    Ancestor(ParentsOf(rows), i, j) || Ancestor(ParentsOf(rows), j, i)
  }

  /** The contradiction the validator exists to refuse. */
  ghost predicate UnrelatedClash(rows: seq<StatusRow>) {
    exists i: nat, j: nat :: i < |rows| && j < |rows| && Clash(rows[i], rows[j]) && !Related(rows, i, j)
  }
}
