/** When a fact counts: effective, known, and not yet ended. */
module Clocks {
  import opened Wrappers

  /** A clock has been reached; a missing one never is. */
  predicate Reached(x: Option<int>, t: int) { x.Some? && x.value <= t }

  /** `t` lies before the end of an interval; a missing end never comes. */
  predicate BeforeEnd(t: int, end: Option<int>) { end.None? || t < end.value }

  /** `ledgr_availability_applicable`: in force and known at `t`. */
  predicate Applies(from: Option<int>, known: Option<int>, until: Option<int>, t: int) {
    Reached(from, t) && Reached(known, t) && BeforeEnd(t, until)
  }
}
