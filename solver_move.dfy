/**
 * `SolverMove`: one entry of the trail, or the driver's verdict for the next step.
 * Propagate, Decide and DecideFromConflict assign a literal; Sat and Conflict
 * never stand on the trail.
 */
module Moves {
  import opened Literals

  datatype SolverMove =
    | Propagate(variable: int, clause: nat)
    | Decide(variable: int)
    | DecideFromConflict(variable: int)
    | Sat
    | Conflict(index: nat)

  /** The moves that assign a literal (the ones a trail holds). */
  predicate Assigns(m: SolverMove) {
    m.Propagate? || m.Decide? || m.DecideFromConflict?
  }

  /** The variable a move assigns. */
  function VarOf(m: SolverMove): nat
    requires Assigns(m)
  {
    Abs(m.variable)
  }

  /** Every move assigns a literal over variables 1..vars. */
  predicate ValidMoves(list: seq<SolverMove>, vars: nat) {
    forall k :: 0 <= k < |list| ==> Assigns(list[k]) && InRange(list[k].variable, vars)
  }

  /** No variable is assigned by two moves of the list. */
  predicate DistinctVars(list: seq<SolverMove>)
    requires forall k :: 0 <= k < |list| ==> Assigns(list[k])
  {
    forall i, j :: 0 <= i < j < |list| ==> VarOf(list[i]) != VarOf(list[j])
  }
}
