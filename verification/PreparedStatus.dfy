/** The compiled trading-status answers: a cursor over the status segments reads, at any
    cutoff, what the production rule says of the facts active at that cutoff. */
module PreparedStatus {
  import opened Wrappers
  import opened Clocks
  import opened Ordering
  import opened StatusFacts
  import opened StatusRuntime
  import opened LineageNumbers
  import opened Segments
  import opened SegmentCursor
  import Walk = StatusLineage

  /** A status row's clocks, with its instrument found in the key. */
  function TimedRow(r: StatusRow, key: seq<int>): Timed {
    Timed(if r.instrument in key then Some(Position(key, r.instrument)) else None, Some(r.from), r.knowledge, r.to)
  }

  function TimedRows(rows: seq<StatusRow>, key: seq<int>): (timed: seq<Timed>)
    ensures |timed| == |rows| && forall i :: 0 <= i < |rows| ==> timed[i] == TimedRow(rows[i], key)
  {
    seq(|rows|, i requires 0 <= i < |rows| => TimedRow(rows[i], key))
  }

  function RowSet(rows: seq<StatusRow>, applicable: seq<nat>): set<nat> {
    set n | n in applicable && n < |rows|
  }

  /** The status rule over applicable row numbers. */
  function StatusRule(rows: seq<StatusRow>, lineage: Walk.Lineage): Rule<Resolution>
  {
    Rule(Unknown, applicable => ResolveRows(rows, lineage, applicable))
  }

  function ResolveRows(rows: seq<StatusRow>, lineage: Walk.Lineage, applicable: seq<nat>): Resolution {
    if |lineage.entry| == |lineage.exit| == |rows| then ResolveActive(rows, lineage, RowSet(rows, applicable))
    else Unknown
  }

  /** The rows compiled as applicable are the active facts of the instrument. */
  lemma ApplicableIsActive(rows: seq<StatusRow>, key: seq<int>, i: nat, t: int)
    requires i < |key| && Distinct(key)
    ensures var timed := TimedRows(rows, key);
      RowSet(rows, ApplicableAt(timed, RowsOf(timed, i, |timed|), t)) == ActiveRows(rows, key[i], t)
  {
    var timed := TimedRows(rows, key);
    var applicable := ApplicableAt(timed, RowsOf(timed, i, |timed|), t);
    forall n: nat ensures n in RowSet(rows, applicable) <==> n in ActiveRows(rows, key[i], t) {
      if n < |rows| {
        assert timed[n] == TimedRow(rows[n], key);
        assert timed[n].inst == Some(i) <==> rows[n].instrument == key[i];
        assert AppliesAt(timed[n], t) <==> ActiveAt(rows[n], t);
      }
    }
  }

  /** The direct answer over the compiled rows is the status at the cutoff. */
  lemma DirectIsResolve(rows: seq<StatusRow>, lineage: Walk.Lineage, key: seq<int>, i: nat, t: int)
    requires IsLineage(ParentsOf(rows), lineage) && i < |key| && Distinct(key)
    ensures Direct(TimedRows(rows, key), StatusRule(rows, lineage), i, t) == Resolve(rows, lineage, key[i], t)
  {
    var timed := TimedRows(rows, key);
    var applicable := ApplicableAt(timed, RowsOf(timed, i, |timed|), t);
    ApplicableIsActive(rows, key, i, t);
    if applicable != [] { assert applicable[0] in applicable; }
  }

  /** After any sequence of seeks, the compiled status is the rule's status at the last cutoff. */
  method ReadStatus(rows: seq<StatusRow>, lineage: Walk.Lineage, key: seq<int>, cursor: Cursor<Resolution>, i: nat)
    returns (status: Resolution)
    requires IsLineage(ParentsOf(rows), lineage) && Distinct(key) && i < |key|
    requires IsTable(cursor.table, |key|, StatusRule(rows, lineage), TimedRows(rows, key))
    requires cursor.Valid() && cursor.last.Some?
    ensures status == Resolve(rows, lineage, key[i], cursor.last.value)
  {
    status := cursor.Read(|key|, StatusRule(rows, lineage), TimedRows(rows, key), i);
    DirectIsResolve(rows, lineage, key, i, cursor.last.value);
  }

  ghost predicate StatusesAt(rows: seq<StatusRow>, lineage: Walk.Lineage, key: seq<int>, cutoff: int,
                             statuses: seq<Resolution>)
    requires IsLineage(ParentsOf(rows), lineage)
  {
    |statuses| == |key| && forall i :: 0 <= i < |key| ==> statuses[i] == Resolve(rows, lineage, key[i], cutoff)
  }

  /** Status rows compiled once and read at any list of cutoffs: at each of them every
      instrument has the status the production rule gives it then. */
  method StatusAtAll(rows: seq<StatusRow>, lineage: Walk.Lineage, key: seq<int>, cutoffs: seq<int>)
    returns (statuses: seq<seq<Resolution>>)
    requires IsLineage(ParentsOf(rows), lineage) && Distinct(key)
    ensures |statuses| == |cutoffs|
    ensures forall k :: 0 <= k < |cutoffs| ==> StatusesAt(rows, lineage, key, cutoffs[k], statuses[k])
  {
    statuses := AnswerAll(TimedRows(rows, key), StatusRule(rows, lineage), |key|, cutoffs);
    forall k | 0 <= k < |cutoffs| ensures StatusesAt(rows, lineage, key, cutoffs[k], statuses[k]) {
      assert DirectAnswers(TimedRows(rows, key), StatusRule(rows, lineage), |key|, cutoffs[k], statuses[k]);
      forall i: nat | i < |key| ensures statuses[k][i] == Resolve(rows, lineage, key[i], cutoffs[k]) {
        DirectIsResolve(rows, lineage, key, i, cutoffs[k]);
      }
    }
  }
}
