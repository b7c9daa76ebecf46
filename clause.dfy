/**
 * `Clause` and `Clause::check_assignment`: classify a clause against a valuation with
 * one left-to-right scan that stops early. `None` (the Rust `Option::None`) means
 * "at least two literals still open".
 */
module Clauses {
  import opened Wrappers
  import opened Literals
  import Moves
  import opened Assignments

  datatype AssignmentResult = Propagate(lit: int) | Conflict | Sat

  /** `Clause::from_vec` is this constructor: the literals, in the given order. */
  datatype Clause = Clause(vars: seq<int>)

  /** Every literal can be looked up in a valuation over `n` variables. */
  predicate AllInRange(lits: seq<int>, n: nat) {
    forall k :: 0 <= k < |lits| ==> InRange(lits[k], n)
  }

  function Value(lit: int, a: Assignment): Option<bool>
    requires InRange(lit, a.Len())
  {
    a.Index(Abs(lit))
  }

  /** The literal's variable holds the literal's sign. */
  predicate IsTrue(lit: int, a: Assignment)
    requires InRange(lit, a.Len())
  {
    Value(lit, a) == Some(lit > 0)
  }

  /** The literal's variable holds the opposite of the literal's sign. */
  predicate IsFalse(lit: int, a: Assignment)
    requires InRange(lit, a.Len())
  {
    Value(lit, a) == Some(lit < 0)
  }

  predicate IsOpen(lit: int, a: Assignment)
    requires InRange(lit, a.Len())
  {
    Value(lit, a) == None
  }

  /** Some literal of the clause is true. */
  predicate Satisfies(c: Clause, a: Assignment)
    requires AllInRange(c.vars, a.Len())
  {
    exists k :: 0 <= k < |c.vars| && IsTrue(c.vars[k], a)
  }

  /**
   * The scan of `check_assignment` over the literals still to visit, with `last`
   * the open literal seen so far (`last_available`).
   */
  function Scan(lits: seq<int>, a: Assignment, last: Option<int>): Option<AssignmentResult>
    requires AllInRange(lits, a.Len())
  {
    if lits == [] then
      match last
      case Some(v) => Some(Propagate(v))
      case None => Some(Conflict)
    else
      match Value(lits[0], a)
      case Some(value) =>
        if value == (lits[0] > 0) then Some(Sat) else Scan(lits[1..], a, last)
      case None =>
        if last.Some? then None else Scan(lits[1..], a, Some(lits[0]))
  }

  function Classify(c: Clause, a: Assignment): Option<AssignmentResult>
    requires AllInRange(c.vars, a.Len())
  {
    Scan(c.vars, a, None)
  }

  /** `Clause::check_assignment`. */
  method CheckAssignment(c: Clause, a: Assignment) returns (r: Option<AssignmentResult>)
    requires AllInRange(c.vars, a.Len())
    ensures r == Classify(c, a)
  {
    var lastAvailable: Option<int> := None;
    for k := 0 to |c.vars|
      invariant Scan(c.vars[k..], a, lastAvailable) == Classify(c, a)
    {
      var v := c.vars[k];
      var index := Abs(v);
      var clauseVal := v > 0;
      var varAssignment := a.Index(index);
      assert c.vars[k..][1..] == c.vars[k + 1..];
      match varAssignment
      case Some(value) =>
        if value == clauseVal {
          return Some(Sat);
        }
      case None =>
        if lastAvailable.Some? {
          return None;
        } else {
          lastAvailable := Some(v);
        }
    }
    match lastAvailable
    case Some(v) => r := Some(Propagate(v));
    case None => r := Some(Conflict);
  }

  /** How many literals of `lits` are open. */
  function OpenCount(lits: seq<int>, a: Assignment): nat
    requires AllInRange(lits, a.Len())
  {
    if lits == [] then 0 else (if IsOpen(lits[0], a) then 1 else 0) + OpenCount(lits[1..], a)
  }

  function Held(last: Option<int>): nat {
    if last.Some? then 1 else 0
  }

  lemma PrefixTail(lits: seq<int>, k: nat)
    requires 1 <= k <= |lits|
    ensures lits[..k][1..] == lits[1..][..k - 1]
  {
  }

  lemma {:induction false} ScanConflict(lits: seq<int>, a: Assignment, last: Option<int>)
    requires AllInRange(lits, a.Len())
    ensures Scan(lits, a, last) == Some(Conflict)
        <==> last.None? && forall k :: 0 <= k < |lits| ==> IsFalse(lits[k], a)
  {
    if lits != [] {
      var rest := lits[1..];
      match Value(lits[0], a)
      case Some(value) =>
        if value != (lits[0] > 0) {
          ScanConflict(rest, a, last);
          assert (forall k :: 0 <= k < |lits| ==> IsFalse(lits[k], a))
              <==> (forall k :: 0 <= k < |rest| ==> IsFalse(rest[k], a));
        }
      case None =>
        if last.None? {
          ScanConflict(rest, a, Some(lits[0]));
        }
    }
  }

  /** `lits[k]` is the one open literal, equal to `l`, and every other literal is false. */
  predicate SoleOpenAt(lits: seq<int>, a: Assignment, l: int, k: int)
    requires AllInRange(lits, a.Len())
  {
    0 <= k < |lits| && lits[k] == l && IsOpen(l, a)
    && forall j :: 0 <= j < |lits| && j != k ==> IsFalse(lits[j], a)
  }

  lemma {:induction false} ScanPropagate(lits: seq<int>, a: Assignment, last: Option<int>, l: int)
    requires AllInRange(lits, a.Len())
    ensures Scan(lits, a, last) == Some(Propagate(l))
        <==> ((last == Some(l) && forall k :: 0 <= k < |lits| ==> IsFalse(lits[k], a))
              || (last.None? && exists k :: SoleOpenAt(lits, a, l, k)))
  {
    if lits != [] {
      var rest := lits[1..];
      assert forall k :: 0 <= k < |rest| ==> rest[k] == lits[k + 1];
      match Value(lits[0], a)
      case Some(value) =>
        if value != (lits[0] > 0) {
          ScanPropagate(rest, a, last, l);
          if last.None? {
            // the open literal can only sit after position 0
            if exists k :: SoleOpenAt(lits, a, l, k) {
              var k :| SoleOpenAt(lits, a, l, k);
              assert k > 0;
              assert SoleOpenAt(rest, a, l, k - 1);
            }
            if exists k :: SoleOpenAt(rest, a, l, k) {
              var k :| SoleOpenAt(rest, a, l, k);
              assert SoleOpenAt(lits, a, l, k + 1);
            }
          }
        } else {
          assert !IsFalse(lits[0], a);
        }
      case None =>
        assert !IsFalse(lits[0], a);
        if last.None? {
          ScanPropagate(rest, a, Some(lits[0]), l);
          if exists k :: SoleOpenAt(lits, a, l, k) {
            var k :| SoleOpenAt(lits, a, l, k);
            assert k == 0;
          }
          if lits[0] == l && forall k :: 0 <= k < |rest| ==> IsFalse(rest[k], a) {
            assert SoleOpenAt(lits, a, l, 0);
          }
        }
    }
  }

  /** `lits[k]` is true and at most one open literal (counting `held` already seen) precedes it. */
  predicate SatAt(lits: seq<int>, a: Assignment, held: nat, k: int)
    requires AllInRange(lits, a.Len())
  {
    0 <= k < |lits| && IsTrue(lits[k], a) && OpenCount(lits[..k], a) + held <= 1
  }

  /** `lits[k]` is open, another open literal (or `held`) precedes it, and no true one does. */
  predicate SecondOpenAt(lits: seq<int>, a: Assignment, held: nat, k: int)
    requires AllInRange(lits, a.Len())
  {
    0 <= k < |lits| && IsOpen(lits[k], a) && OpenCount(lits[..k], a) + held >= 1
    && forall j :: 0 <= j < k ==> !IsTrue(lits[j], a)
  }

  /** Moving past a literal that is not true shifts the witnesses by one position. */
  lemma WitnessShift(lits: seq<int>, a: Assignment, held: nat, k: nat)
    requires AllInRange(lits, a.Len())
    requires 1 <= k < |lits| && !IsTrue(lits[0], a)
    ensures var step := if IsOpen(lits[0], a) then 1 else 0;
      && (SatAt(lits, a, held, k) <==> SatAt(lits[1..], a, held + step, k - 1))
      && (SecondOpenAt(lits, a, held, k) <==> SecondOpenAt(lits[1..], a, held + step, k - 1))
  {
    PrefixTail(lits, k);
    var rest := lits[1..];
    assert (forall j :: 0 <= j < k ==> !IsTrue(lits[j], a))
        <==> (forall j :: 0 <= j < k - 1 ==> !IsTrue(rest[j], a)) by {
      assert forall j :: 0 <= j < k - 1 ==> rest[j] == lits[j + 1];
    }
  }

  lemma {:induction false} ScanSat(lits: seq<int>, a: Assignment, last: Option<int>)
    requires AllInRange(lits, a.Len())
    ensures Scan(lits, a, last) == Some(Sat) <==> exists k :: SatAt(lits, a, Held(last), k)
  {
    if lits != [] {
      var rest := lits[1..];
      var next := if IsOpen(lits[0], a) then Some(lits[0]) else last;
      if IsTrue(lits[0], a) {
        assert SatAt(lits, a, Held(last), 0);
      } else if IsOpen(lits[0], a) && last.Some? {
        // a second open literal ends the scan before any later true literal
        if exists k :: SatAt(lits, a, Held(last), k) {
          var k :| SatAt(lits, a, Held(last), k);
          WitnessShift(lits, a, Held(last), k);
        }
      } else {
        ScanSat(rest, a, next);
        assert !SatAt(lits, a, Held(last), 0);
        if exists k :: SatAt(lits, a, Held(last), k) {
          var k :| SatAt(lits, a, Held(last), k);
          WitnessShift(lits, a, Held(last), k);
        }
        if exists k :: SatAt(rest, a, Held(next), k) {
          var k :| SatAt(rest, a, Held(next), k);
          WitnessShift(lits, a, Held(last), k + 1);
        }
      }
    }
  }

  lemma {:induction false} ScanNone(lits: seq<int>, a: Assignment, last: Option<int>)
    requires AllInRange(lits, a.Len())
    ensures Scan(lits, a, last) == None <==> exists k :: SecondOpenAt(lits, a, Held(last), k)
  {
    if lits != [] {
      var rest := lits[1..];
      var next := if IsOpen(lits[0], a) then Some(lits[0]) else last;
      if IsTrue(lits[0], a) {
        // no literal after a true one can be the witness, and a true one is not open
      } else if IsOpen(lits[0], a) && last.Some? {
        assert SecondOpenAt(lits, a, Held(last), 0);
      } else {
        ScanNone(rest, a, next);
        assert !SecondOpenAt(lits, a, Held(last), 0);
        if exists k :: SecondOpenAt(lits, a, Held(last), k) {
          var k :| SecondOpenAt(lits, a, Held(last), k);
          WitnessShift(lits, a, Held(last), k);
        }
        if exists k :: SecondOpenAt(rest, a, Held(next), k) {
          var k :| SecondOpenAt(rest, a, Held(next), k);
          WitnessShift(lits, a, Held(last), k + 1);
        }
      }
    }
  }

  /** Conflict exactly when every literal is assigned against its sign (the empty clause included). */
  lemma ClassifyConflict(c: Clause, a: Assignment)
    requires AllInRange(c.vars, a.Len())
    ensures Classify(c, a) == Some(Conflict)
        <==> forall k :: 0 <= k < |c.vars| ==> IsFalse(c.vars[k], a)
  {
    ScanConflict(c.vars, a, None);
  }

  /** Propagate(l) exactly when `l` is the one open literal and every other literal is false. */
  lemma ClassifyPropagate(c: Clause, a: Assignment, l: int)
    requires AllInRange(c.vars, a.Len())
    ensures Classify(c, a) == Some(Propagate(l)) <==> exists k :: SoleOpenAt(c.vars, a, l, k)
  {
    ScanPropagate(c.vars, a, None, l);
  }

  /** Sat exactly when some true literal has at most one open literal before it. */
  lemma ClassifySat(c: Clause, a: Assignment)
    requires AllInRange(c.vars, a.Len())
    ensures Classify(c, a) == Some(Sat) <==> exists k :: SatAt(c.vars, a, 0, k)
  {
    ScanSat(c.vars, a, None);
    assert Held(None) == 0;
  }

  /** None exactly when a second open literal comes before any true literal. */
  lemma ClassifyNone(c: Clause, a: Assignment)
    requires AllInRange(c.vars, a.Len())
    ensures Classify(c, a) == None <==> exists k :: SecondOpenAt(c.vars, a, 0, k)
  {
    ScanNone(c.vars, a, None);
    assert Held(None) == 0;
  }

  /** A clause classified Sat has a true literal. */
  lemma SatIsSatisfied(c: Clause, a: Assignment)
    requires AllInRange(c.vars, a.Len())
    requires Classify(c, a) == Some(Sat)
    ensures Satisfies(c, a)
  {
    ClassifySat(c, a);
  }

  /** A clause classified None has an open literal. */
  lemma NoneHasOpenLiteral(c: Clause, a: Assignment)
    requires AllInRange(c.vars, a.Len())
    requires Classify(c, a) == None
    ensures exists k :: 0 <= k < |c.vars| && IsOpen(c.vars[k], a)
  {
    ClassifyNone(c, a);
  }

  /** [1,3,5] is None with 5 true and 1, 3 open: the second open literal ends the scan. */
  lemma LateTrueLiteralIsMissed()
    ensures Classify(Clause([1, 3, 5]), FromMoves([Moves.Decide(5)], 5)) == None
    ensures Satisfies(Clause([1, 3, 5]), FromMoves([Moves.Decide(5)], 5))
  {
    var a := FromMoves([Moves.Decide(5)], 5);
    assert IsTrue(Clause([1, 3, 5]).vars[2], a);
  }

  // The unit tests of clause.rs, as lemmas.

  lemma BasicConflict()
    ensures Classify(Clause([1, 3, 5]), FromMoves([Moves.Decide(-1), Moves.Decide(-3), Moves.Decide(-5)], 5)) == Some(Conflict)
  {
  }

  lemma BasicPropagate()
    ensures Classify(Clause([1, 3, 5]), FromMoves([Moves.Decide(-1), Moves.Decide(-3)], 5)) == Some(Propagate(5))
  {
  }

  lemma BasicSat()
    ensures Classify(Clause([1, 3, 5]), FromMoves([Moves.Decide(-1), Moves.Decide(5)], 5)) == Some(Sat)
  {
  }

  lemma BasicNone()
    ensures Classify(Clause([1, 3, 5]), FromMoves([Moves.Decide(-1)], 5)) == None
  {
  }

  lemma NegativeNone()
    ensures Classify(Clause([-1, -3, -5]), FromMoves([Moves.Decide(1)], 5)) == None
  {
  }
}
