/**
 * `SolverState`: the clauses, the trail as a list of decision levels, and one
 * activity score per literal. Level `i` of the trail holds the moves made since
 * the `i`-th decision; `get_movelist` reads the levels back to back.
 */
module SolverStates {
  import opened Wrappers
  import opened Literals
  import opened Moves
  import opened Assignments
  import opened Clauses

  // ----- The trail as a value -----

  /** `get_movelist`: the levels concatenated in order. */
  function Flatten(levels: seq<seq<SolverMove>>): seq<SolverMove>
    decreases |levels|
  {
    if levels == [] then [] else Flatten(levels[..|levels| - 1]) + levels[|levels| - 1]
  }

  /** The sum of the level lengths, counted from the front. */
  function SumLengths(levels: seq<seq<SolverMove>>): nat
    decreases |levels|
  {
    if levels == [] then 0 else |levels[0]| + SumLengths(levels[1..])
  }

  lemma {:induction false} SumLengthsAppend(levels: seq<seq<SolverMove>>, level: seq<SolverMove>)
    ensures SumLengths(levels + [level]) == SumLengths(levels) + |level|
    decreases |levels|
  {
    if levels == [] {
      assert levels + [level] == [level];
      assert [level][1..] == [];
    } else {
      assert (levels + [level])[1..] == levels[1..] + [level];
      SumLengthsAppend(levels[1..], level);
    }
  }

  /** The flattened trail is as long as all its levels together. */
  lemma {:induction false} FlattenLength(levels: seq<seq<SolverMove>>)
    ensures |Flatten(levels)| == SumLengths(levels)
    decreases |levels|
  {
    if levels != [] {
      var init := levels[..|levels| - 1];
      FlattenLength(init);
      SumLengthsAppend(init, levels[|levels| - 1]);
      assert init + [levels[|levels| - 1]] == levels;
    }
  }

  /** A move is on the flattened trail exactly when it is in one of the levels. */
  lemma {:induction false} FlattenMembers(levels: seq<seq<SolverMove>>, m: SolverMove)
    ensures m in Flatten(levels) <==> exists i :: 0 <= i < |levels| && m in levels[i]
    decreases |levels|
  {
    if levels != [] {
      var init := levels[..|levels| - 1];
      FlattenMembers(init, m);
      assert forall i :: 0 <= i < |init| ==> init[i] == levels[i];
      if m in levels[|levels| - 1] {
        assert m in Flatten(levels);
      }
    }
  }

  /** The trail after `add_move`: `item` ends the last level, or forms a new level 0. */
  function WithMove(levels: seq<seq<SolverMove>>, item: SolverMove): (r: seq<seq<SolverMove>>)
    ensures |r| == if levels == [] then 1 else |levels|
    ensures r[|r| - 1] == (if levels == [] then [] else levels[|levels| - 1]) + [item]
    ensures forall i :: 0 <= i < |r| - 1 ==> r[i] == levels[i]
  {
    if levels == [] then [[item]] else levels[|levels| - 1 := levels[|levels| - 1] + [item]]
  }

  /** Adding a move to the trail adds it to the end of the flattened trail. */
  lemma FlattenWithMove(levels: seq<seq<SolverMove>>, item: SolverMove)
    ensures Flatten(WithMove(levels, item)) == Flatten(levels) + [item]
  {
    var r := WithMove(levels, item);
    if levels == [] {
      assert r[..0] == [];
    } else {
      var init := levels[..|levels| - 1];
      assert r[..|r| - 1] == init;
      assert Flatten(r) == Flatten(init) + (levels[|levels| - 1] + [item]);
    }
  }

  /** The move `resolve_conflict` flips: the first move of the last level. */
  predicate EndsInDecision(levels: seq<seq<SolverMove>>) {
    levels != [] && levels[|levels| - 1] != [] && levels[|levels| - 1][0].Decide?
  }

  /**
   * The trail after a successful `resolve_conflict`: the last level is dropped and
   * the negated decision is appended to the level below it.
   */
  function AfterFlip(levels: seq<seq<SolverMove>>): (r: seq<seq<SolverMove>>)
    requires EndsInDecision(levels)
    ensures |r| == if |levels| == 1 then 1 else |levels| - 1
    ensures forall i :: 0 <= i < |r| - 1 ==> r[i] == levels[i]
    ensures r[|r| - 1] == (if |levels| == 1 then [] else levels[|levels| - 2])
        + [DecideFromConflict(-levels[|levels| - 1][0].variable)]
  {
    WithMove(levels[..|levels| - 1], DecideFromConflict(-levels[|levels| - 1][0].variable))
  }

  // ----- The trail invariant -----

  /** Every level is nonempty and the flattened trail assigns each variable at most once. */
  predicate TrailOk(levels: seq<seq<SolverMove>>, vars: nat) {
    (forall i :: 0 <= i < |levels| ==> levels[i] != [])
    && ValidMoves(Flatten(levels), vars)
    && DistinctVars(Flatten(levels))
  }

  /** Appending a move on a variable the trail leaves open keeps the trail invariant. */
  lemma AddMoveKeepsTrail(levels: seq<seq<SolverMove>>, vars: nat, m: SolverMove)
    requires TrailOk(levels, vars)
    requires Assigns(m) && InRange(m.variable, vars)
    requires FromMoves(Flatten(levels), vars).Index(VarOf(m)) == None
    ensures TrailOk(WithMove(levels, m), vars)
  {
    var list := Flatten(levels);
    OpenIffUnmentioned(list, vars, VarOf(m));
    FlattenWithMove(levels, m);
    var next := list + [m];
    assert forall k :: 0 <= k < |list| ==> next[k] == list[k];
  }

  /** `add_decision_lv` and then `add_move` put the decision alone on a new level. */
  lemma DecideOpensLevel(levels: seq<seq<SolverMove>>, m: SolverMove)
    ensures WithMove(levels + [[]], m) == levels + [[m]]
    ensures Flatten(levels + [[]]) == Flatten(levels)
  {
    assert (levels + [[]])[..|levels|] == levels;
    var r := WithMove(levels + [[]], m);
    assert [] + [m] == [m];
    assert forall i :: 0 <= i < |levels| ==> r[i] == levels[i];
  }

  /** A decision on an open variable, on a new level, keeps the trail invariant. */
  lemma DecideKeepsTrail(levels: seq<seq<SolverMove>>, vars: nat, lit: int)
    requires TrailOk(levels, vars) && InRange(lit, vars)
    requires FromMoves(Flatten(levels), vars).Index(Abs(lit)) == None
    ensures TrailOk(WithMove(levels + [[]], Decide(lit)), vars)
  {
    DecideOpensLevel(levels, Decide(lit));
    FlattenWithMove(levels + [[]], Decide(lit));
    var list := Flatten(levels);
    OpenIffUnmentioned(list, vars, Abs(lit));
    var next := list + [Decide(lit)];
    assert forall k :: 0 <= k < |list| ==> next[k] == list[k];
    var r := levels + [[Decide(lit)]];
    assert forall i :: 0 <= i < |levels| ==> r[i] == levels[i];
  }

  /** Dropping the last level keeps the trail invariant for the levels below. */
  lemma DropLastLevel(levels: seq<seq<SolverMove>>, vars: nat)
    requires TrailOk(levels, vars) && levels != []
    ensures Flatten(levels) == Flatten(levels[..|levels| - 1]) + levels[|levels| - 1]
    ensures TrailOk(levels[..|levels| - 1], vars)
  {
    var init := levels[..|levels| - 1];
    var below := Flatten(init);
    var list := Flatten(levels);
    assert forall k :: 0 <= k < |below| ==> list[k] == below[k];
    assert forall i :: 0 <= i < |init| ==> init[i] == levels[i];
  }

  /** The flipped variable is open on the trail below its level. */
  lemma FlippedVariableIsOpen(levels: seq<seq<SolverMove>>, vars: nat)
    requires TrailOk(levels, vars) && EndsInDecision(levels)
    ensures var d := levels[|levels| - 1][0];
      InRange(d.variable, vars) && TrailOk(levels[..|levels| - 1], vars)
      && FromMoves(Flatten(levels[..|levels| - 1]), vars).Index(VarOf(d)) == None
  {
    DropLastLevel(levels, vars);
    var last := levels[|levels| - 1];
    var below := Flatten(levels[..|levels| - 1]);
    var list := Flatten(levels);
    assert list[|below|] == last[0];
    assert forall k :: 0 <= k < |below| ==> VarOf(below[k]) != VarOf(list[|below|]) by {
      assert forall k :: 0 <= k < |below| ==> list[k] == below[k];
    }
    OpenIffUnmentioned(below, vars, VarOf(last[0]));
  }

  /** A successful flip keeps the trail invariant. */
  lemma FlipKeepsTrail(levels: seq<seq<SolverMove>>, vars: nat)
    requires TrailOk(levels, vars) && EndsInDecision(levels)
    ensures TrailOk(AfterFlip(levels), vars)
  {
    var d := levels[|levels| - 1][0];
    var m := DecideFromConflict(-d.variable);
    FlippedVariableIsOpen(levels, vars);
    assert VarOf(m) == VarOf(d);
    AddMoveKeepsTrail(levels[..|levels| - 1], vars, m);
  }

  /** After a successful flip the flipped variable holds the negation of the decision. */
  lemma FlipNegatesDecision(levels: seq<seq<SolverMove>>, vars: nat)
    requires TrailOk(levels, vars) && EndsInDecision(levels)
    ensures var v := levels[|levels| - 1][0].variable;
      InRange(v, vars) && TrailOk(AfterFlip(levels), vars)
      && FromMoves(Flatten(AfterFlip(levels)), vars).Index(Abs(v)) == Some(v < 0)
  {
    var init := levels[..|levels| - 1];
    var d := levels[|levels| - 1][0];
    var m := DecideFromConflict(-d.variable);
    FlipKeepsTrail(levels, vars);
    FlattenWithMove(init, m);
    var next := Flatten(init) + [m];
    assert next[|next| - 1] == m;
    LastMoveWins(next, vars, Abs(d.variable), |next| - 1);
  }

  // ----- Activity scores -----

  /** `resolve_conflict`'s slot for a literal: `v - 1` for `v > 0`, `|v| - 1 + vars` otherwise. */
  function Slot(lit: int, vars: nat): (s: nat)
    requires InRange(lit, vars)
    ensures s < 2 * vars
    ensures (lit > 0) == (s < vars)
  {
    if lit > 0 then lit - 1 else Abs(lit) - 1 + vars
  }

  /** The literal whose score sits in slot `s`. */
  function LitOfSlot(s: nat, vars: nat): (lit: int)
    requires s < 2 * vars
    ensures InRange(lit, vars)
  {
    if s < vars then s + 1 else -((s - vars + 1) as int)
  }

  /** Slots and literals are in one-to-one correspondence. */
  lemma SlotRoundTrip(lit: int, s: nat, vars: nat)
    requires InRange(lit, vars) && s < 2 * vars
    ensures LitOfSlot(Slot(lit, vars), vars) == lit
    ensures Slot(LitOfSlot(s, vars), vars) == s
  {
  }

  /** The scores after `+1.0` on the slot of each literal, literal by literal. */
  function Bumped(act: seq<real>, lits: seq<int>, vars: nat): (r: seq<real>)
    requires AllInRange(lits, vars) && |act| >= 2 * vars
    ensures |r| == |act|
    decreases |lits|
  {
    if lits == [] then act
    else
      var b := Bumped(act, lits[..|lits| - 1], vars);
      var s := Slot(lits[|lits| - 1], vars);
      b[s := b[s] + 1.0]
  }

  /** How many literals of `lits` use slot `s`. */
  function SlotCount(lits: seq<int>, vars: nat, s: nat): nat
    requires AllInRange(lits, vars)
    decreases |lits|
  {
    if lits == [] then 0
    else SlotCount(lits[..|lits| - 1], vars, s) + (if Slot(lits[|lits| - 1], vars) == s then 1 else 0)
  }

  /** Each slot gains one point per occurrence of its literal in the conflict clause. */
  lemma {:induction false} BumpedAt(act: seq<real>, lits: seq<int>, vars: nat, s: nat)
    requires AllInRange(lits, vars) && |act| >= 2 * vars && s < |act|
    ensures Bumped(act, lits, vars)[s] == act[s] + SlotCount(lits, vars, s) as real
    decreases |lits|
  {
    if lits != [] {
      BumpedAt(act, lits[..|lits| - 1], vars, s);
    }
  }

  /** The first `m` scores multiplied by 0.9, the rest kept. */
  function Decayed(act: seq<real>, m: nat): (r: seq<real>)
    requires m <= |act|
  {
    seq(|act|, i requires 0 <= i < |act| => if i < m then act[i] * 0.9 else act[i])
  }

  predicate NonNegative(act: seq<real>) {
    forall i :: 0 <= i < |act| ==> act[i] >= 0.0
  }

  /** Bumping and decaying keep every score nonnegative. */
  lemma ScoresStayNonNegative(act: seq<real>, lits: seq<int>, vars: nat)
    requires AllInRange(lits, vars) && |act| >= 2 * vars && NonNegative(act)
    ensures NonNegative(Bumped(act, lits, vars))
    ensures NonNegative(Decayed(Bumped(act, lits, vars), 2 * vars))
  {
    var b := Bumped(act, lits, vars);
    forall s | 0 <= s < |b| ensures b[s] >= 0.0 {
      BumpedAt(act, lits, vars, s);
    }
  }

  /** Decay scales every decayed slot alike, so it keeps their ranking. */
  lemma DecayKeepsRanking(act: seq<real>, m: nat, i: nat, j: nat)
    requires m <= |act| && i < m && j < m
    ensures Decayed(act, m)[i] > Decayed(act, m)[j] <==> act[i] > act[j]
  {
  }

  // ----- The state object -----

  class SolverState {
    var clauselist: seq<Clause>
    var movelist: seq<seq<SolverMove>>
    var activitylist: seq<real>
    var vars: nat
    var clauses: nat

    /** `SolverState::new`: no clauses, no moves, no scores, zero counts. */
    constructor ()
      ensures clauselist == [] && movelist == [] && activitylist == []
      ensures vars == 0 && clauses == 0
    {
      clauselist := [];
      movelist := [];
      vars := 0;
      clauses := 0;
      activitylist := [];
    }

    function Activity(): seq<real>
      reads this
    {
      activitylist
    }

    function ClauseList(): seq<Clause>
      reads this
    {
      clauselist
    }

    function Clauses(): nat
      reads this
    {
      clauses
    }

    function Vars(): nat
      reads this
    {
      vars
    }

    method AddClause(clause: Clause)
      modifies this`clauselist
      ensures clauselist == old(clauselist) + [clause]
    {
      clauselist := clauselist + [clause];
    }

    /** `add_move`: append to the last level, or open level 0 for the item. */
    method AddMove(item: SolverMove)
      modifies this`movelist
      ensures movelist == WithMove(old(movelist), item)
    {
      if movelist != [] {
        var n := |movelist|;
        movelist := movelist[n - 1 := movelist[n - 1] + [item]];
      } else {
        movelist := movelist + [[]];
        movelist := movelist[0 := movelist[0] + [item]];
      }
    }

    /** `add_decision_lv`: one empty level on top. */
    method AddDecisionLv()
      modifies this`movelist
      ensures movelist == old(movelist) + [[]]
    {
      movelist := movelist + [[]];
    }

    /** `get_movelist`: copy the moves out level by level. */
    method GetMovelist() returns (moves: seq<SolverMove>)
      ensures moves == Flatten(movelist)
    {
      moves := [];
      for i := 0 to |movelist|
        invariant moves == Flatten(movelist[..i])
      {
        var level := movelist[i];
        for j := 0 to |level|
          invariant moves == Flatten(movelist[..i]) + level[..j]
        {
          moves := moves + [level[j]];
          assert level[..j + 1] == level[..j] + [level[j]];
        }
        assert level[..|level|] == level;
        assert movelist[..i + 1][..i] == movelist[..i];
      }
      assert movelist[..|movelist|] == movelist;
    }

    /**
     * `resolve_conflict`: on a nonempty trail, bump the scores of the conflict
     * clause's literals; then, when the last level starts with a decision, drop
     * that level, append the negated decision below it and decay the scores.
     */
    method ResolveConflict(clauseIndex: nat) returns (resolved: bool)
      requires movelist != [] ==>
        clauseIndex < |clauselist| && AllInRange(clauselist[clauseIndex].vars, vars)
        && |activitylist| >= 2 * vars && movelist[|movelist| - 1] != []
      modifies this`movelist, this`activitylist
      ensures old(movelist) == [] ==>
        !resolved && movelist == old(movelist) && activitylist == old(activitylist)
      ensures old(movelist) != [] ==>
        var bumped := Bumped(old(activitylist), clauselist[clauseIndex].vars, vars);
        if EndsInDecision(old(movelist)) then
          resolved && movelist == AfterFlip(old(movelist)) && activitylist == Decayed(bumped, 2 * vars)
        else
          !resolved && movelist == old(movelist) && activitylist == bumped
    {
      if |movelist| == 0 {
        return false;
      }

      BumpActivity(clauselist[clauseIndex].vars);

      var lastDecision := movelist[|movelist| - 1][0];
      var v: int;
      match lastDecision {
        case Decide(val) =>
          v := val;
        case _ =>
          return false;
      }

      movelist := movelist[..|movelist| - 1];
      AddMove(DecideFromConflict(-1 * v));

      DecayActivity();
      return true;
    }

    /** The bump loop of `resolve_conflict`: +1.0 on the slot of each literal of the conflict clause. */
    method BumpActivity(lits: seq<int>)
      requires AllInRange(lits, vars) && |activitylist| >= 2 * vars
      modifies this`activitylist
      ensures activitylist == Bumped(old(activitylist), lits, vars)
    {
      for k := 0 to |lits|
        invariant activitylist == Bumped(old(activitylist), lits[..k], vars)
      {
        var v := lits[k];
        var varIndex := Abs(v) - 1;
        var index := if v > 0 then varIndex else varIndex + vars;
        var o := activitylist[index];
        activitylist := activitylist[index := o + 1.0];
        assert lits[..k + 1][..k] == lits[..k];
      }
      assert lits[..|lits|] == lits;
    }

    /** The decay loop of `resolve_conflict`: ×0.9 on each of the `2·vars` slots. */
    method DecayActivity()
      requires |activitylist| >= 2 * vars
      modifies this`activitylist
      ensures activitylist == Decayed(old(activitylist), 2 * vars)
    {
      for i := 0 to vars * 2
        invariant |activitylist| == |old(activitylist)|
        invariant forall j :: 0 <= j < i ==> activitylist[j] == old(activitylist)[j] * 0.9
        invariant forall j :: i <= j < |activitylist| ==> activitylist[j] == old(activitylist)[j]
      {
        activitylist := activitylist[i := activitylist[i] * 0.9];
      }
    }

    method SetActivity(activity: seq<real>)
      modifies this`activitylist
      ensures activitylist == activity
    {
      activitylist := activity;
    }

    method SetClauses(clauses: nat)
      modifies this`clauses
      ensures this.clauses == clauses
    {
      this.clauses := clauses;
    }

    method SetVars(vars: nat)
      modifies this`vars
      ensures this.vars == vars
    {
      this.vars := vars;
    }
  }
}
