/**
 * The driver: `move_from_state` chooses the next step from the current trail,
 * and `main`'s loop applies steps until the formula is satisfied, a conflict
 * cannot be resolved, or (in this model) the step budget runs out.
 */
module Driver {
  import opened Wrappers
  import opened Text
  import opened Literals
  import opened Moves
  import opened Assignments
  import opened Clauses
  import opened SolverStates
  import opened Heuristics
  import opened Dimacs

  /** The valuation `move_from_state` reads off the trail. */
  function TrailAssignment(s: SolverState): (a: Assignment)
    reads s
    requires ValidMoves(Flatten(s.movelist), s.vars)
  {
    FromMoves(Flatten(s.movelist), s.vars)
  }

  /** None of the first `k` clauses classifies as Propagate or Conflict. */
  predicate Quiet(cs: seq<Clause>, a: Assignment, k: nat)
    requires k <= |cs| && ClausesInRange(cs, a.Len())
  {
    forall i :: 0 <= i < k ==> Classify(cs[i], a) == Some(Clauses.Sat) || Classify(cs[i], a) == None
  }

  /**
   * Every clause among the first `k` that classifies as Sat has a flag in
   * `clause_status`, which holds `count` flags: its index is below `count`.
   */
  predicate FlagsFit(cs: seq<Clause>, a: Assignment, count: nat, k: nat)
    requires k <= |cs| && ClausesInRange(cs, a.Len())
  {
    forall i :: 0 <= i < k && Classify(cs[i], a) == Some(Clauses.Sat) ==> i < count
  }

  /** `sat_clauses` after a full scan: how many clauses classify as Sat. */
  function SatCount(cs: seq<Clause>, a: Assignment): nat
    requires ClausesInRange(cs, a.Len())
    decreases |cs|
  {
    if cs == [] then 0
    else SatCount(cs[..|cs| - 1], a) + (if Classify(cs[|cs| - 1], a) == Some(Clauses.Sat) then 1 else 0)
  }

  /** The count never exceeds the clauses, and reaches them exactly when every clause is Sat. */
  lemma {:induction false} SatCountBound(cs: seq<Clause>, a: Assignment)
    requires ClausesInRange(cs, a.Len())
    ensures SatCount(cs, a) <= |cs|
    ensures SatCount(cs, a) == |cs| <==> forall i :: 0 <= i < |cs| ==> Classify(cs[i], a) == Some(Clauses.Sat)
    decreases |cs|
  {
    if cs != [] {
      var init := cs[..|cs| - 1];
      assert ClausesInRange(init, a.Len());
      SatCountBound(init, a);
      assert forall i :: 0 <= i < |init| ==> init[i] == cs[i];
    }
  }

  /**
   * When every Sat clause has a flag and the Sat count equals the header count
   * `m`, there are at least `m` clauses and the first `m` all have a true
   * literal. Clauses past the first `m` are not constrained.
   */
  lemma SatMeansSatisfied(cs: seq<Clause>, a: Assignment, m: nat)
    requires ClausesInRange(cs, a.Len()) && FlagsFit(cs, a, m, |cs|) && SatCount(cs, a) == m
    ensures m <= |cs|
    ensures forall i :: 0 <= i < m ==> Satisfies(cs[i], a)
  {
    SatCountBound(cs, a);
    var front := cs[..m];
    assert ClausesInRange(front, a.Len());
    SatCountPrefix(cs, a, m);
    SatCountBound(front, a);
    forall i | 0 <= i < m ensures Satisfies(cs[i], a) {
      assert front[i] == cs[i];
      SatIsSatisfied(cs[i], a);
    }
  }

  /** When no clause from index `k` on is Sat, the count over the first `k` clauses is the whole count. */
  lemma {:induction false} SatCountPrefix(cs: seq<Clause>, a: Assignment, k: nat)
    requires ClausesInRange(cs, a.Len()) && k <= |cs|
    requires forall i :: k <= i < |cs| ==> Classify(cs[i], a) != Some(Clauses.Sat)
    ensures SatCount(cs[..k], a) == SatCount(cs, a)
    decreases |cs|
  {
    if k < |cs| {
      var init := cs[..|cs| - 1];
      assert ClausesInRange(init, a.Len());
      assert forall i :: k <= i < |init| ==> init[i] == cs[i];
      SatCountPrefix(init, a, k);
      assert init[..k] == cs[..k];
    } else {
      assert cs[..k] == cs;
    }
  }

  /** `clause_status`: `m` flags, flag `i` set when clause `i` classifies as Sat. */
  function Status(cs: seq<Clause>, a: Assignment, m: nat): (st: seq<bool>)
    requires ClausesInRange(cs, a.Len())
    ensures |st| == m
  {
    seq(m, i requires 0 <= i < m => i < |cs| && Classify(cs[i], a) == Some(Clauses.Sat))
  }

  /**
   * A decision taken after a quiet scan is an open literal, and it is nonzero
   * when there are at least as many clauses as the header announces.
   */
  lemma DecisionIsOpen(a: Assignment, act: seq<real>, vars: nat, cs: seq<Clause>, m: nat, v: int)
    requires a.Len() == vars && |act| >= 2 * vars && ClausesInRange(cs, vars)
    requires Quiet(cs, a, |cs|) && FlagsFit(cs, a, m, |cs|) && SatCount(cs, a) != m
    requires SomePositive(a, act, vars) ==> FirstBest(a, act, vars, v)
    requires !SomePositive(a, act, vars) ==> |cs| <= m && v == Bohm(cs, Status(cs, a, m), a)
    ensures v != 0 ==> InRange(v, vars) && a.Index(Abs(v)) == None
    ensures |cs| >= m ==> v != 0
  {
    if SomePositive(a, act, vars) {
      SlotRoundTrip(v, Slot(v, vars), vars);
    } else {
      var st := Status(cs, a, m);
      BohmIsOpen(cs, st, a);
      if |cs| == m {
        SatCountBound(cs, a);
        var i :| 0 <= i < |cs| && Classify(cs[i], a) != Some(Clauses.Sat);
        NoneHasOpenLiteral(cs[i], a);
        var j :| 0 <= j < |cs[i].vars| && IsOpen(cs[i].vars[j], a);
        assert !st[i];
        assert SomeLiveOpen(cs, st, a, |cs|);
        BohmNonzero(cs, st, a);
      }
    }
  }

  /**
   * `move_from_state`: the first clause, in index order, that classifies as
   * Propagate or Conflict gives the move; otherwise Sat when the Sat count
   * equals the header's clause count; otherwise a decision. `None` stands for
   * the panics on `clause_status`, which has one flag per header clause: a Sat
   * clause past them is flagged out of bounds, and `decide_bohm` reads a flag
   * for every clause.
   */
  method MoveFromState(state: SolverState) returns (m: Option<SolverMove>)
    requires ValidMoves(Flatten(state.movelist), state.vars)
    requires ClausesInRange(state.clauselist, state.vars)
    requires |state.activitylist| >= 2 * state.vars
    ensures m.Some? ==> m.value.Propagate? || m.value.Conflict? || m.value.Sat? || m.value.Decide?
    ensures m.Some? && m.value.Propagate? ==> (
      && m.value.clause < |state.clauselist|
      && Quiet(state.clauselist, TrailAssignment(state), m.value.clause)
      && FlagsFit(state.clauselist, TrailAssignment(state), state.clauses, m.value.clause)
      && Classify(state.clauselist[m.value.clause], TrailAssignment(state)) == Some(Clauses.Propagate(m.value.variable)))
    ensures m.Some? && m.value.Conflict? ==> (
      && m.value.index < |state.clauselist|
      && Quiet(state.clauselist, TrailAssignment(state), m.value.index)
      && FlagsFit(state.clauselist, TrailAssignment(state), state.clauses, m.value.index)
      && Classify(state.clauselist[m.value.index], TrailAssignment(state)) == Some(Clauses.Conflict))
    ensures m.Some? && (m.value.Sat? || m.value.Decide?) ==> (
      && Quiet(state.clauselist, TrailAssignment(state), |state.clauselist|)
      && FlagsFit(state.clauselist, TrailAssignment(state), state.clauses, |state.clauselist|))
    ensures m.Some? && m.value.Sat? ==> SatCount(state.clauselist, TrailAssignment(state)) == state.clauses
    ensures m.Some? && m.value.Decide? ==> SatCount(state.clauselist, TrailAssignment(state)) != state.clauses
    ensures m.Some? && m.value.Decide? && SomePositive(TrailAssignment(state), state.activitylist, state.vars) ==>
      FirstBest(TrailAssignment(state), state.activitylist, state.vars, m.value.variable)
    ensures m.Some? && m.value.Decide? && !SomePositive(TrailAssignment(state), state.activitylist, state.vars) ==> (
      && |state.clauselist| <= state.clauses
      && m.value.variable == Bohm(state.clauselist, Status(state.clauselist, TrailAssignment(state), state.clauses), TrailAssignment(state)))
    ensures m.Some? && m.value.Decide? && m.value.variable != 0 ==>
      InRange(m.value.variable, state.vars) && TrailAssignment(state).Index(Abs(m.value.variable)) == None
    ensures m.Some? && m.value.Decide? && |state.clauselist| >= state.clauses ==> m.value.variable != 0
    ensures m.None? ==> state.clauses < |state.clauselist|
    ensures m.None? ==>
      || (exists i :: && state.clauses <= i < |state.clauselist|
                      && Quiet(state.clauselist, TrailAssignment(state), i)
                      && FlagsFit(state.clauselist, TrailAssignment(state), state.clauses, i)
                      && Classify(state.clauselist[i], TrailAssignment(state)) == Some(Clauses.Sat))
      || (&& Quiet(state.clauselist, TrailAssignment(state), |state.clauselist|)
          && FlagsFit(state.clauselist, TrailAssignment(state), state.clauses, |state.clauselist|)
          && SatCount(state.clauselist, TrailAssignment(state)) != state.clauses
          && !SomePositive(TrailAssignment(state), state.activitylist, state.vars))
  {
    var moves := state.GetMovelist();
    var assignment := FromMovelist(moves, state.Vars());
    var scan := ScanClauses(state.ClauseList(), assignment, state.Clauses());
    match scan {
      case Stopped(move) =>
        return Some(move);
      case FlagOutOfBounds(_) =>
        return None;
      case Scanned(satClauses, clauseStatus) =>
        if satClauses == state.Clauses() {
          return Some(Moves.Sat);
        }
        var v := DecideActivity(assignment, state, clauseStatus, state.ClauseList());
        if v.None? {
          return None;
        }
        DecisionIsOpen(assignment, state.activitylist, state.vars, state.clauselist, state.clauses, v.value);
        return Some(Moves.Decide(v.value));
    }
  }

  /** The clause lines `1 0`, `2 3 0`, `2 -3 0`, `-2 3 0`, `-2 -3 0` under the header `p cnf 3 1`. */
  const ExampleClauses: seq<Clause> := [Clause([1]), Clause([2, 3]), Clause([2, -3]), Clause([-2, 3]), Clause([-2, -3])]

  /**
   * The Sat test as written, on `ExampleClauses` after propagating 1: the
   * first clause is Sat and the other four are undecided, so the scan is
   * quiet, the one flag fits and the Sat count equals the header's 1.
   * `move_from_state` answers Sat, yet `2 3` has no true literal, and the four
   * clauses over variables 2 and 3 have no model at all.
   */
  lemma SpuriousSat()
    ensures var a := FromMoves([Moves.Propagate(1, 0)], 3);
      && a.Len() == 3 && ClausesInRange(ExampleClauses, 3)
      && Quiet(ExampleClauses, a, 5) && FlagsFit(ExampleClauses, a, 1, 5) && SatCount(ExampleClauses, a) == 1
      && !Satisfies(ExampleClauses[1], a)
      && forall b: Assignment :: b.Len() == 3 ==> exists i :: 1 <= i < 5 && !Satisfies(ExampleClauses[i], b)
  {
    var a := FromMoves([Moves.Propagate(1, 0)], 3);
    ExampleTrail();
    ExampleClassified(a);
    assert SatCount(ExampleClauses[..1], a) == 1;
    SatCountPrefix(ExampleClauses, a, 1);
    forall b: Assignment | b.Len() == 3 ensures exists i :: 1 <= i < 5 && !Satisfies(ExampleClauses[i], b) {
      NoModelOverTwo(b);
    }
  }

  lemma ExampleTrail()
    ensures FromMoves([Moves.Propagate(1, 0)], 3).assignments == [Some(true), None, None]
  {
    assert AllUnassigned(3).assignments == [None, None, None];
  }

  /** Under 1 true and 2, 3 open, the first example clause is Sat and the others are undecided. */
  lemma ExampleClassified(a: Assignment)
    requires a.assignments == [Some(true), None, None]
    ensures ClausesInRange(ExampleClauses, 3)
    ensures Classify(ExampleClauses[0], a) == Some(Clauses.Sat)
    ensures forall i :: 1 <= i < 5 ==> Classify(ExampleClauses[i], a) == None
  {
    assert a.Index(1) == Some(true) && a.Index(2) == None && a.Index(3) == None;
    assert Value(-2, a) == None && Value(-3, a) == None;
    forall i | 1 <= i < 5 ensures Classify(ExampleClauses[i], a) == None {
      var lits := ExampleClauses[i].vars;
      assert |lits| == 2 && Value(lits[0], a) == None && Value(lits[1], a) == None && lits[1..][0] == lits[1];
      assert Scan(lits[1..], a, Some(lits[0])) == None;
      assert Scan(lits, a, None) == Scan(lits[1..], a, Some(lits[0]));
    }
  }

  /** Whatever values variables 2 and 3 take, one of the four clauses over them has no true literal. */
  lemma NoModelOverTwo(b: Assignment)
    requires b.Len() == 3
    ensures exists i :: 1 <= i < 5 && !Satisfies(ExampleClauses[i], b)
  {
    var i := if b.Index(2) == Some(true) then (if b.Index(3) == Some(true) then 4 else 3)
      else (if b.Index(3) == Some(true) then 2 else 1);
    assert !Satisfies(ExampleClauses[i], b);
  }

  /**
   * The intended Sat test counts against the clause list itself: the Sat count
   * equals the number of clauses exactly when every clause is Sat, and then
   * every clause has a true literal. With `clause_status` sized by the list,
   * every Sat clause has its flag.
   */
  lemma CorrectedSatTest(cs: seq<Clause>, a: Assignment)
    requires ClausesInRange(cs, a.Len())
    ensures FlagsFit(cs, a, |cs|, |cs|)
    ensures SatCount(cs, a) == |cs| <==> forall i :: 0 <= i < |cs| ==> Classify(cs[i], a) == Some(Clauses.Sat)
    ensures SatCount(cs, a) == |cs| ==> forall i :: 0 <= i < |cs| ==> Satisfies(cs[i], a)
  {
    SatCountBound(cs, a);
    if SatCount(cs, a) == |cs| {
      SatMeansSatisfied(cs, a, |cs|);
    }
  }

  /** How the clause loop of `move_from_state` ends. */
  datatype ClauseScan =
    | Stopped(move: SolverMove)
    | FlagOutOfBounds(index: nat)
    | Scanned(satClauses: nat, clauseStatus: seq<bool>)

  /**
   * The clause loop of `move_from_state`: the first Propagate or Conflict, or
   * the first Sat clause whose flag `clause_status[index] = true` is out of
   * bounds (a panic); otherwise `sat_clauses` and the `count` flags.
   */
  method ScanClauses(cs: seq<Clause>, assignment: Assignment, count: nat) returns (r: ClauseScan)
    requires ClausesInRange(cs, assignment.Len())
    ensures r.Stopped? ==> r.move.Propagate? || r.move.Conflict?
    ensures r.Stopped? && r.move.Propagate? ==> (
      && r.move.clause < |cs|
      && Quiet(cs, assignment, r.move.clause)
      && FlagsFit(cs, assignment, count, r.move.clause)
      && Classify(cs[r.move.clause], assignment) == Some(Clauses.Propagate(r.move.variable)))
    ensures r.Stopped? && r.move.Conflict? ==> (
      && r.move.index < |cs|
      && Quiet(cs, assignment, r.move.index)
      && FlagsFit(cs, assignment, count, r.move.index)
      && Classify(cs[r.move.index], assignment) == Some(Clauses.Conflict))
    ensures r.FlagOutOfBounds? ==> (
      && count <= r.index < |cs|
      && Quiet(cs, assignment, r.index)
      && FlagsFit(cs, assignment, count, r.index)
      && Classify(cs[r.index], assignment) == Some(Clauses.Sat))
    ensures r.Scanned? ==> (
      && Quiet(cs, assignment, |cs|)
      && FlagsFit(cs, assignment, count, |cs|)
      && r.satClauses == SatCount(cs, assignment)
      && r.clauseStatus == Status(cs, assignment, count))
  {
    var satClauses: nat := 0;
    var clauseStatus: seq<bool> := seq(count, _ => false);
    for clauseIndex := 0 to |cs|
      invariant Quiet(cs, assignment, clauseIndex)
      invariant FlagsFit(cs, assignment, count, clauseIndex)
      invariant satClauses == SatCount(cs[..clauseIndex], assignment)
      invariant |clauseStatus| == count
      invariant forall i :: 0 <= i < count ==>
        clauseStatus[i] == (i < clauseIndex && Classify(cs[i], assignment) == Some(Clauses.Sat))
    {
      var clause := cs[clauseIndex];
      var clauseResult := CheckAssignment(clause, assignment);
      assert cs[..clauseIndex + 1][..clauseIndex] == cs[..clauseIndex];
      match clauseResult {
        case Some(status) =>
          match status {
            case Propagate(v) =>
              return Stopped(Moves.Propagate(v, clauseIndex));
            case Conflict =>
              return Stopped(Moves.Conflict(clauseIndex));
            case Sat =>
              satClauses := satClauses + 1;
              if clauseIndex >= count {
                return FlagOutOfBounds(clauseIndex);
              }
              clauseStatus := clauseStatus[clauseIndex := true];
          }
        case None =>
      }
    }
    assert cs[..|cs|] == cs;
    assert clauseStatus == Status(cs, assignment, count);
    return Scanned(satClauses, clauseStatus);
  }

  /**
   * How a run ends. `Panicked` stands for the source's crashes: after a
   * decision on variable 0, and on an out-of-bounds `clause_status` flag.
   */
  datatype Outcome =
    | Satisfiable(assignment: Assignment, text: string, moves: nat)
    | Unsatisfiable(moves: nat)
    | OutOfFuel
    | Panicked

  /** What a state must hold for `move_from_state` and `resolve_conflict` to run without a panic. */
  predicate Runnable(s: SolverState)
    reads s
  {
    && TrailOk(s.movelist, s.vars)
    && ClausesInRange(s.clauselist, s.vars)
    && |s.activitylist| >= 2 * s.vars
    && NonNegative(s.activitylist)
  }

  /**
   * `main`'s loop, for at most `fuel` steps: Propagate extends the current
   * level, Decide opens a new level first, Sat ends with the assignment, and
   * Conflict either flips the last decision or ends as Unsatisfiable.
   */
  method Search(state: SolverState, fuel: nat) returns (outcome: Outcome)
    requires Runnable(state)
    modifies state`movelist, state`activitylist
    ensures Runnable(state)
    ensures outcome.Satisfiable? ==>
      && outcome.assignment == TrailAssignment(state)
      && outcome.text == RenderUpTo(outcome.assignment, outcome.assignment.Len())
      && state.clauses <= |state.clauselist|
      && forall i :: 0 <= i < state.clauses ==> Satisfies(state.clauselist[i], outcome.assignment)
    ensures |state.clauselist| == state.clauses ==> !outcome.Panicked?
  {
    var moves: nat := 0;
    for step := 0 to fuel
      invariant Runnable(state)
    {
      var next := MoveFromState(state);
      if next.None? {
        return Panicked;
      }
      var nextMove := next.value;
      match nextMove {
        case Propagate(variable, clause) =>
          PropagatedLiteralIsOpen(state.clauselist, TrailAssignment(state), variable, clause);
          Extend(state, nextMove);
        case Decide(v) =>
          if v == 0 {
            return Panicked;
          }
          Extend(state, nextMove);
        case Sat =>
          var list := state.GetMovelist();
          var assignment := FromMovelist(list, state.Vars());
          var text := ToString(assignment);
          SatMeansSatisfied(state.clauselist, assignment, state.clauses);
          return Satisfiable(assignment, text, moves);
        case Conflict(index) =>
          var resolved := Recover(state, index);
          if resolved {
            continue;
          } else {
            return Unsatisfiable(moves);
          }
        case DecideFromConflict(_) =>
          assert false;
      }
      moves := moves + 1;
    }
    return OutOfFuel;
  }

  /**
   * The Propagate and Decide arms of `main`'s loop: a decision first opens a
   * new level; either way the move goes on the last level.
   */
  method Extend(state: SolverState, m: SolverMove)
    requires Runnable(state) && (m.Propagate? || m.Decide?)
    requires InRange(m.variable, state.vars) && TrailAssignment(state).Index(Abs(m.variable)) == None
    modifies state`movelist
    ensures Runnable(state)
    ensures m.Propagate? ==> state.movelist == WithMove(old(state.movelist), m)
    ensures m.Decide? ==> state.movelist == WithMove(old(state.movelist) + [[]], m)
  {
    if m.Decide? {
      DecideKeepsTrail(state.movelist, state.vars, m.variable);
      state.AddDecisionLv();
    } else {
      AddMoveKeepsTrail(state.movelist, state.vars, m);
    }
    state.AddMove(m);
  }

  /** The Conflict arm of `main`'s loop: `resolve_conflict` on the conflicting clause. */
  method Recover(state: SolverState, index: nat) returns (resolved: bool)
    requires Runnable(state) && index < |state.clauselist|
    modifies state`movelist, state`activitylist
    ensures Runnable(state)
    ensures resolved <==> old(state.movelist) != [] && EndsInDecision(old(state.movelist))
    ensures resolved ==> state.movelist == AfterFlip(old(state.movelist))
    ensures !resolved ==> state.movelist == old(state.movelist)
    ensures old(state.movelist) == [] ==> state.activitylist == old(state.activitylist)
    ensures old(state.movelist) != [] ==>
      var bumped := Bumped(old(state.activitylist), state.clauselist[index].vars, state.vars);
      state.activitylist == if resolved then Decayed(bumped, 2 * state.vars) else bumped
  {
    if state.movelist != [] {
      RecoveryKeepsState(state.movelist, state.activitylist, state.clauselist[index].vars, state.vars);
    }
    resolved := state.ResolveConflict(index);
  }

  /** A propagated literal is the one open literal of its clause, so the trail may take it. */
  lemma PropagatedLiteralIsOpen(cs: seq<Clause>, a: Assignment, v: int, c: nat)
    requires ClausesInRange(cs, a.Len()) && c < |cs|
    requires Classify(cs[c], a) == Some(Clauses.Propagate(v))
    ensures InRange(v, a.Len()) && a.Index(Abs(v)) == None
  {
    ClassifyPropagate(cs[c], a, v);
    var k :| SoleOpenAt(cs[c].vars, a, v, k);
  }

  /** Either outcome of `resolve_conflict` keeps the trail valid and the scores nonnegative. */
  lemma RecoveryKeepsState(levels: seq<seq<SolverMove>>, act: seq<real>, lits: seq<int>, vars: nat)
    requires TrailOk(levels, vars) && levels != [] && AllInRange(lits, vars)
    requires |act| >= 2 * vars && NonNegative(act)
    ensures EndsInDecision(levels) ==> TrailOk(AfterFlip(levels), vars)
    ensures |Bumped(act, lits, vars)| == |act| && NonNegative(Bumped(act, lits, vars))
    ensures NonNegative(Decayed(Bumped(act, lits, vars), 2 * vars))
  {
    if EndsInDecision(levels) {
      FlipKeepsTrail(levels, vars);
    }
    ScoresStayNonNegative(act, lits, vars);
  }

  /**
   * The printed assignment reads back, as a DIMACS clause line, into exactly
   * the assigned literals: each true under the assignment, and every assigned
   * variable among them.
   */
  lemma AnswerReadsBack(a: Assignment)
    requires a.Len() <= I32_MAX
    ensures var lits := AssignedLits(a, a.Len());
      && ClauseOf(Split(RenderUpTo(a, a.Len()))) == Ok(lits)
      && (forall j :: 0 <= j < |lits| ==> a.Index(Abs(lits[j])) == Some(lits[j] > 0))
      && (forall i :: 1 <= i <= a.Len() && a.Index(i).Some? ==> exists j :: 0 <= j < |lits| && Abs(lits[j]) == i)
  {
    var lits := AssignedLits(a, a.Len());
    RenderTokens(a, a.Len());
    ClauseOfTexts(lits);
    forall i | 1 <= i <= a.Len() && a.Index(i).Some?
      ensures exists j :: 0 <= j < |lits| && Abs(lits[j]) == i
    {
      AssignedLitsComplete(a, a.Len(), i);
    }
  }

  /** Every literal of the parsed input is within the header's `N`. */
  predicate WellFormed(f: Formula) {
    ClausesInRange(f.clauselist, f.vars)
  }

  /**
   * The whole program on the lines of its input: parse, then search. A
   * Satisfiable answer satisfies the first `M` parsed clauses (all of them
   * when there are exactly `M`), and when the clause count matches the header
   * the run does not crash.
   */
  method Solve(lines: seq<string>, fuel: nat) returns (r: Result<Outcome, ParseError>)
    requires Readable(lines)
    requires Parse(lines).Ok? ==> WellFormed(Parse(lines).value)
    ensures Parse(lines).Err? <==> r.Err?
    ensures r.Err? ==> r.error == Parse(lines).error
    ensures r.Ok? && r.value.Satisfiable? ==>
      var f := Parse(lines).value;
      && r.value.assignment.Len() == f.vars
      && f.clauses <= |f.clauselist|
      && forall i :: 0 <= i < f.clauses ==> Satisfies(f.clauselist[i], r.value.assignment)
    ensures r.Ok? && |Parse(lines).value.clauselist| == Parse(lines).value.clauses ==> !r.value.Panicked?
  {
    var initialConfig := ParseInput(lines);
    if initialConfig.Err? {
      return Err(initialConfig.error);
    }
    var state := initialConfig.value;
    ParsedActivityIsZero(lines, EMPTY);
    assert Flatten([]) == [];
    var outcome := Search(state, fuel);
    return Ok(outcome);
  }
}
