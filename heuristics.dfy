/**
 * The two decision heuristics of the driver. `decide_activity` picks the open
 * literal with the highest positive activity score; when no score is positive it
 * falls back to `decide_bohm`, which ranks variables by how often their literals
 * occur in the residual (still open) part of the clauses not yet satisfied,
 * bucketed by residual length.
 */
module Heuristics {
  import opened Wrappers
  import opened Literals
  import opened Assignments
  import opened Clauses
  import opened SolverStates

  /** The Bohm weights of the larger and of the smaller of a literal's two counts. */
  const ALPHA: nat := 1
  const BETA: nat := 2

  function Max(x: nat, y: nat): nat {
    if x >= y then x else y
  }

  function Min(x: nat, y: nat): nat {
    if x <= y then x else y
  }

  predicate ClausesInRange(clauses: seq<Clause>, n: nat) {
    forall i :: 0 <= i < |clauses| ==> AllInRange(clauses[i].vars, n)
  }

  // ----- Residual clauses -----

  /** The open literals of `lits`, in order (`adjusted_list`). */
  function Residual(lits: seq<int>, a: Assignment): (r: seq<int>)
    requires AllInRange(lits, a.Len())
    ensures forall j :: 0 <= j < |r| ==> InRange(r[j], a.Len()) && IsOpen(r[j], a)
    decreases |lits|
  {
    if lits == [] then []
    else
      var init := Residual(lits[..|lits| - 1], a);
      var l := lits[|lits| - 1];
      if IsOpen(l, a) then init + [l] else init
  }

  /** A literal is in the residual exactly when it is an open literal of the clause. */
  lemma {:induction false} ResidualMembers(lits: seq<int>, a: Assignment, x: int)
    requires AllInRange(lits, a.Len())
    ensures x in Residual(lits, a) <==> x in lits && InRange(x, a.Len()) && IsOpen(x, a)
    decreases |lits|
  {
    if lits != [] {
      var init := lits[..|lits| - 1];
      ResidualMembers(init, a, x);
      assert lits == init + [lits[|lits| - 1]];
    }
  }

  /** Every literal of every residual is open and in range. */
  predicate OpenLits(rs: seq<seq<int>>, a: Assignment) {
    forall i, j :: 0 <= i < |rs| && 0 <= j < |rs[i]| ==> InRange(rs[i][j], a.Len()) && IsOpen(rs[i][j], a)
  }

  /** The residuals of the first `k` clauses whose status flag is false, in clause order. */
  function ResidualsUpTo(clauses: seq<Clause>, status: seq<bool>, a: Assignment, k: nat): (rs: seq<seq<int>>)
    requires k <= |clauses| <= |status| && ClausesInRange(clauses, a.Len())
    ensures OpenLits(rs, a)
  {
    if k == 0 then []
    else
      var prev := ResidualsUpTo(clauses, status, a, k - 1);
      if status[k - 1] then prev else prev + [Residual(clauses[k - 1].vars, a)]
  }

  function Residuals(clauses: seq<Clause>, status: seq<bool>, a: Assignment): seq<seq<int>>
    requires |clauses| <= |status| && ClausesInRange(clauses, a.Len())
  {
    ResidualsUpTo(clauses, status, a, |clauses|)
  }

  /** Some clause among the first `k` whose flag is false still has an open literal. */
  predicate SomeLiveOpen(clauses: seq<Clause>, status: seq<bool>, a: Assignment, k: nat)
    requires k <= |clauses| <= |status| && ClausesInRange(clauses, a.Len())
  {
    exists i, j :: 0 <= i < k && !status[i] && 0 <= j < |clauses[i].vars| && IsOpen(clauses[i].vars[j], a)
  }

  /** Some residual of `rs` still holds a literal. */
  predicate SomeNonempty(rs: seq<seq<int>>) {
    exists i :: 0 <= i < |rs| && rs[i] != []
  }

  /** The residuals hold a literal exactly when some live clause has an open literal. */
  lemma {:induction false} ResidualsNonempty(clauses: seq<Clause>, status: seq<bool>, a: Assignment, k: nat)
    requires k <= |clauses| <= |status| && ClausesInRange(clauses, a.Len())
    ensures SomeNonempty(ResidualsUpTo(clauses, status, a, k)) <==> SomeLiveOpen(clauses, status, a, k)
  {
    if k > 0 {
      ResidualsNonempty(clauses, status, a, k - 1);
      ResidualsNonemptyStep(clauses, status, a, k);
    }
  }

  /** The inductive step of `ResidualsNonempty`, from `k - 1` clauses to `k`. */
  lemma ResidualsNonemptyStep(clauses: seq<Clause>, status: seq<bool>, a: Assignment, k: nat)
    requires 0 < k <= |clauses| <= |status| && ClausesInRange(clauses, a.Len())
    requires SomeNonempty(ResidualsUpTo(clauses, status, a, k - 1)) <==> SomeLiveOpen(clauses, status, a, k - 1)
    ensures SomeNonempty(ResidualsUpTo(clauses, status, a, k)) <==> SomeLiveOpen(clauses, status, a, k)
  {
    var prev := ResidualsUpTo(clauses, status, a, k - 1);
    var lits := clauses[k - 1].vars;
    SomeLiveOpenStep(clauses, status, a, k);
    if !status[k - 1] {
      SomeNonemptyAppend(prev, Residual(lits, a));
      ResidualNonempty(lits, a);
    }
  }

  lemma SomeNonemptyAppend(prev: seq<seq<int>>, r: seq<int>)
    ensures SomeNonempty(prev + [r]) <==> SomeNonempty(prev) || r != []
  {
    var rs := prev + [r];
    assert forall i :: 0 <= i < |prev| ==> rs[i] == prev[i];
    assert rs[|prev|] == r;
  }

  /** One of the literals `lits` is open. */
  predicate HasOpen(lits: seq<int>, a: Assignment)
    requires AllInRange(lits, a.Len())
  {
    exists j :: 0 <= j < |lits| && IsOpen(lits[j], a)
  }

  /** A clause's residual is nonempty exactly when one of its literals is open. */
  lemma ResidualNonempty(lits: seq<int>, a: Assignment)
    requires AllInRange(lits, a.Len())
    ensures Residual(lits, a) != [] <==> HasOpen(lits, a)
  {
    var res := Residual(lits, a);
    if res != [] {
      ResidualMembers(lits, a, res[0]);
      var j :| 0 <= j < |lits| && lits[j] == res[0];
      assert IsOpen(lits[j], a);
    }
    if HasOpen(lits, a) {
      var j :| 0 <= j < |lits| && IsOpen(lits[j], a);
      ResidualMembers(lits, a, lits[j]);
    }
  }

  lemma SomeLiveOpenStep(clauses: seq<Clause>, status: seq<bool>, a: Assignment, k: nat)
    requires 0 < k <= |clauses| <= |status| && ClausesInRange(clauses, a.Len())
    ensures SomeLiveOpen(clauses, status, a, k) <==>
      SomeLiveOpen(clauses, status, a, k - 1) || (!status[k - 1] && HasOpen(clauses[k - 1].vars, a))
  {
    if SomeLiveOpen(clauses, status, a, k - 1) {
      var i, j :| 0 <= i < k - 1 && !status[i] && 0 <= j < |clauses[i].vars| && IsOpen(clauses[i].vars[j], a);
      assert SomeLiveOpen(clauses, status, a, k);
    }
    if !status[k - 1] && HasOpen(clauses[k - 1].vars, a) {
      var lits := clauses[k - 1].vars;
      var j :| 0 <= j < |lits| && IsOpen(lits[j], a);
      assert SomeLiveOpen(clauses, status, a, k);
    }
    if SomeLiveOpen(clauses, status, a, k) && !SomeLiveOpen(clauses, status, a, k - 1) {
      var i, j :| 0 <= i < k && !status[i] && 0 <= j < |clauses[i].vars| && IsOpen(clauses[i].vars[j], a);
      assert i == k - 1;
    }
  }

  // ----- Counts, keyed by literal and residual length -----

  /** How often `lit` occurs in residuals of length `len`. */
  function CountIn(rs: seq<seq<int>>, lit: int, len: nat): nat
    decreases |rs|
  {
    if rs == [] then 0
    else
      var last := rs[|rs| - 1];
      CountIn(rs[..|rs| - 1], lit, len) + (if |last| == len then multiset(last)[lit] else 0)
  }

  /** `max_clause_len`: the longest residual, 0 when there is none. */
  function MaxLenOf(rs: seq<seq<int>>): nat
    decreases |rs|
  {
    if rs == [] then 0 else Max(MaxLenOf(rs[..|rs| - 1]), |rs[|rs| - 1]|)
  }

  /** `last_var`: the last literal of the residuals read in order, 0 when they are all empty. */
  function LastLit(rs: seq<seq<int>>): int
    decreases |rs|
  {
    if rs == [] then 0
    else if rs[|rs| - 1] == [] then LastLit(rs[..|rs| - 1])
    else rs[|rs| - 1][|rs[|rs| - 1]| - 1]
  }

  /** `x` is a literal of one of the residuals. */
  predicate InSome(rs: seq<seq<int>>, x: int) {
    exists i, j :: 0 <= i < |rs| && 0 <= j < |rs[i]| && rs[i][j] == x
  }

  /** `last_var` is a residual literal whenever some residual is nonempty, and 0 otherwise. */
  lemma {:induction false} LastLitIsResidual(rs: seq<seq<int>>)
    ensures (exists i :: 0 <= i < |rs| && rs[i] != []) ==> InSome(rs, LastLit(rs))
    ensures (forall i :: 0 <= i < |rs| ==> rs[i] == []) ==> LastLit(rs) == 0
    decreases |rs|
  {
    if rs != [] {
      var init := rs[..|rs| - 1];
      LastLitIsResidual(init);
      assert forall i :: 0 <= i < |init| ==> rs[i] == init[i];
      var last := rs[|rs| - 1];
      if last != [] {
        assert rs[|rs| - 1][|last| - 1] == LastLit(rs);
      } else if exists i :: 0 <= i < |rs| && rs[i] != [] {
        var i :| 0 <= i < |rs| && rs[i] != [];
        assert init[i] != [];
        var i', j :| 0 <= i' < |init| && 0 <= j < |init[i']| && init[i'][j] == LastLit(init);
        assert rs[i'][j] == LastLit(rs);
      }
    }
  }

  /** The literal `best_var` starts from is open, and nonzero whenever some residual is nonempty. */
  lemma LastLitOpen(rs: seq<seq<int>>, a: Assignment)
    requires OpenLits(rs, a)
    ensures LastLit(rs) != 0 ==> InRange(LastLit(rs), a.Len()) && IsOpen(LastLit(rs), a)
    ensures (exists i :: 0 <= i < |rs| && rs[i] != []) <==> LastLit(rs) != 0
  {
    LastLitIsResidual(rs);
    if exists i :: 0 <= i < |rs| && rs[i] != [] {
      var i, j :| 0 <= i < |rs| && 0 <= j < |rs[i]| && rs[i][j] == LastLit(rs);
      assert InRange(rs[i][j], a.Len());
    }
  }

  /** The score of variable `x` in bucket `len`: `max(h, h') + 2 * min(h, h')` over `x` and `-x`. */
  function Score(rs: seq<seq<int>>, x: int, len: nat): nat {
    var h := CountIn(rs, x, len);
    var hInv := CountIn(rs, -x, len);
    ALPHA * Max(h, hInv) + BETA * Min(h, hInv)
  }

  /** A literal and its negation have the same score. */
  lemma ScoreSymmetric(rs: seq<seq<int>>, x: int, len: nat)
    ensures Score(rs, -x, len) == Score(rs, x, len)
  {
  }

  /** Comparing against a literal or against its negation is the same. */
  lemma {:induction false} BeatsSignFree(rs: seq<seq<int>>, x: int, y: int, len: nat, maxLen: nat)
    ensures BeatsFrom(rs, x, -y, len, maxLen) == BeatsFrom(rs, x, y, len, maxLen)
    ensures BeatsFrom(rs, -y, x, len, maxLen) == BeatsFrom(rs, y, x, len, maxLen)
    decreases maxLen + 1 - len
  {
    ScoreSymmetric(rs, y, len);
    if len <= maxLen {
      BeatsSignFree(rs, x, y, len + 1, maxLen);
    }
  }

  /** `cur` beats `best` at the first bucket from `len` on where their scores differ. */
  function BeatsFrom(rs: seq<seq<int>>, cur: int, best: int, len: nat, maxLen: nat): bool
    decreases maxLen + 1 - len
  {
    if len > maxLen then false
    else if Score(rs, best, len) == Score(rs, cur, len) then BeatsFrom(rs, cur, best, len + 1, maxLen)
    else Score(rs, cur, len) > Score(rs, best, len)
  }

  /** `cur` scores higher than `best` at some bucket `d` in `len..maxLen`, and equal below it. */
  ghost predicate LexWins(rs: seq<seq<int>>, cur: int, best: int, len: nat, maxLen: nat) {
    exists d :: len <= d <= maxLen && Score(rs, cur, d) > Score(rs, best, d)
      && forall e :: len <= e < d ==> Score(rs, cur, e) == Score(rs, best, e)
  }

  /** Beating is the lexicographic comparison of the score vectors over buckets `len..maxLen`. */
  lemma {:induction false} BeatsIff(rs: seq<seq<int>>, cur: int, best: int, len: nat, maxLen: nat)
    ensures BeatsFrom(rs, cur, best, len, maxLen) <==> LexWins(rs, cur, best, len, maxLen)
    decreases maxLen + 1 - len
  {
    if len <= maxLen {
      BeatsIff(rs, cur, best, len + 1, maxLen);
      LexWinsStep(rs, cur, best, len, maxLen);
    }
  }

  /** The lexicographic comparison decided at its first bucket. */
  lemma LexWinsStep(rs: seq<seq<int>>, cur: int, best: int, len: nat, maxLen: nat)
    requires len <= maxLen
    ensures LexWins(rs, cur, best, len, maxLen) <==>
      if Score(rs, best, len) == Score(rs, cur, len) then LexWins(rs, cur, best, len + 1, maxLen)
      else Score(rs, cur, len) > Score(rs, best, len)
  {
    if Score(rs, best, len) == Score(rs, cur, len) {
      if LexWins(rs, cur, best, len, maxLen) {
        var d :| len <= d <= maxLen && Score(rs, cur, d) > Score(rs, best, d)
          && forall e :: len <= e < d ==> Score(rs, cur, e) == Score(rs, best, e);
        assert d > len;
      }
    }
  }

  lemma {:induction false} BeatsIrreflexive(rs: seq<seq<int>>, x: int, len: nat, maxLen: nat)
    ensures !BeatsFrom(rs, x, x, len, maxLen)
    decreases maxLen + 1 - len
  {
    if len <= maxLen {
      BeatsIrreflexive(rs, x, len + 1, maxLen);
    }
  }

  lemma {:induction false} BeatsAsymmetric(rs: seq<seq<int>>, x: int, y: int, len: nat, maxLen: nat)
    requires BeatsFrom(rs, x, y, len, maxLen)
    ensures !BeatsFrom(rs, y, x, len, maxLen)
    decreases maxLen + 1 - len
  {
    if Score(rs, x, len) == Score(rs, y, len) {
      BeatsAsymmetric(rs, x, y, len + 1, maxLen);
    }
  }

  /** Not being beaten is transitive: the comparison is a total preorder. */
  lemma {:induction false} NotBeatenTransitive(rs: seq<seq<int>>, x: int, y: int, z: int, len: nat, maxLen: nat)
    requires !BeatsFrom(rs, x, y, len, maxLen) && !BeatsFrom(rs, y, z, len, maxLen)
    ensures !BeatsFrom(rs, x, z, len, maxLen)
    decreases maxLen + 1 - len
  {
    if len <= maxLen && Score(rs, x, len) == Score(rs, y, len) && Score(rs, y, len) == Score(rs, z, len) {
      NotBeatenTransitive(rs, x, y, z, len + 1, maxLen);
    }
  }

  /** `best_var` after the variables 1..k have been compared against it, starting from `start`. */
  function BestUpTo(rs: seq<seq<int>>, a: Assignment, start: int, k: nat): int
    requires k <= a.Len()
  {
    if k == 0 then start
    else
      var best := BestUpTo(rs, a, start, k - 1);
      if a.Index(k) == None && BeatsFrom(rs, k, best, 1, MaxLenOf(rs)) then k else best
  }

  /** The variable kept is `start` or an open one, and no open variable nor `start` beats it. */
  lemma {:induction false} BestUpToMaximal(rs: seq<seq<int>>, a: Assignment, start: int, k: nat)
    requires k <= a.Len()
    ensures var best := BestUpTo(rs, a, start, k);
      && (best == start || (1 <= best <= k && a.Index(best) == None))
      && !BeatsFrom(rs, start, best, 1, MaxLenOf(rs))
      && forall j :: 1 <= j <= k && a.Index(j) == None ==> !BeatsFrom(rs, j, best, 1, MaxLenOf(rs))
  {
    var m := MaxLenOf(rs);
    if k == 0 {
      BeatsIrreflexive(rs, start, 1, m);
    } else {
      BestUpToMaximal(rs, a, start, k - 1);
      var prev := BestUpTo(rs, a, start, k - 1);
      if a.Index(k) == None && BeatsFrom(rs, k, prev, 1, m) {
        BeatsAsymmetric(rs, k, prev, 1, m);
        BeatsIrreflexive(rs, k, 1, m);
        NotBeatenTransitive(rs, start, prev, k, 1, m);
        forall j | 1 <= j < k && a.Index(j) == None
          ensures !BeatsFrom(rs, j, k, 1, m)
        {
          NotBeatenTransitive(rs, j, prev, k, 1, m);
        }
      }
    }
  }

  /** `normal_sum`: the counts of `x` over buckets 1..n. */
  function SumCounts(rs: seq<seq<int>>, x: int, n: nat): nat {
    if n == 0 then 0 else SumCounts(rs, x, n - 1) + CountIn(rs, x, n)
  }

  /**
   * `decide_bohm` over the residuals: the best literal `best_var` when its count
   * sum is strictly larger than its negation's, and `-best_var` otherwise, so a
   * tie goes to the negation of the best literal.
   */
  function BohmOf(rs: seq<seq<int>>, a: Assignment): int {
    var best := BestUpTo(rs, a, LastLit(rs), a.Len());
    var m := MaxLenOf(rs);
    if SumCounts(rs, best, m) > SumCounts(rs, -best, m) then best else -best
  }

  function Bohm(clauses: seq<Clause>, status: seq<bool>, a: Assignment): int
    requires |clauses| <= |status| && ClausesInRange(clauses, a.Len())
  {
    BohmOf(Residuals(clauses, status, a), a)
  }

  /** A nonzero choice is an open literal over the assignment's variables. */
  lemma BohmIsOpen(clauses: seq<Clause>, status: seq<bool>, a: Assignment)
    requires |clauses| <= |status| && ClausesInRange(clauses, a.Len())
    ensures var r := Bohm(clauses, status, a);
      r != 0 ==> InRange(r, a.Len()) && IsOpen(r, a)
  {
    var rs := Residuals(clauses, status, a);
    LastLitOpen(rs, a);
    BestUpToMaximal(rs, a, LastLit(rs), a.Len());
  }

  /** The choice is nonzero whenever a clause not yet satisfied still has an open literal. */
  lemma BohmNonzero(clauses: seq<Clause>, status: seq<bool>, a: Assignment)
    requires |clauses| <= |status| && ClausesInRange(clauses, a.Len())
    requires SomeLiveOpen(clauses, status, a, |clauses|)
    ensures Bohm(clauses, status, a) != 0
  {
    var rs := Residuals(clauses, status, a);
    ResidualsNonempty(clauses, status, a, |clauses|);
    LastLitOpen(rs, a);
    BestUpToMaximal(rs, a, LastLit(rs), a.Len());
  }

  /**
   * The choice is a variable no open variable (and not the last residual literal)
   * beats, taken with the sign whose total count is not smaller.
   */
  lemma BohmIsBest(clauses: seq<Clause>, status: seq<bool>, a: Assignment)
    requires |clauses| <= |status| && ClausesInRange(clauses, a.Len())
    ensures var rs := Residuals(clauses, status, a);
      var r := Bohm(clauses, status, a);
      var m := MaxLenOf(rs);
      && SumCounts(rs, r, m) >= SumCounts(rs, -r, m)
      && !BeatsFrom(rs, LastLit(rs), r, 1, m)
      && forall j :: 1 <= j <= a.Len() && a.Index(j) == None ==> !BeatsFrom(rs, j, r, 1, m)
  {
    var rs := Residuals(clauses, status, a);
    var m := MaxLenOf(rs);
    var best := BestUpTo(rs, a, LastLit(rs), a.Len());
    BestUpToMaximal(rs, a, LastLit(rs), a.Len());
    BeatsSignFree(rs, LastLit(rs), best, 1, m);
    forall j | 1 <= j <= a.Len() && a.Index(j) == None
      ensures !BeatsFrom(rs, j, -best, 1, m)
    {
      BeatsSignFree(rs, j, best, 1, m);
    }
  }

  // ----- decide_bohm -----

  /** `var_to_count_map_map.get(&x).unwrap_or(&empty)`. */
  function Row(counts: map<int, map<nat, nat>>, x: int): map<nat, nat> {
    if x in counts then counts[x] else map[]
  }

  /** `match row.get(&len) { Some(count) => *count, None => 0 }`. */
  function Get(row: map<nat, nat>, len: nat): nat {
    if len in row then row[len] else 0
  }

  function Lookup(counts: map<int, map<nat, nat>>, x: int, len: nat): nat {
    Get(Row(counts, x), len)
  }

  /** The nested map holds, for every literal and length, the count of the residuals. */
  ghost predicate Tallies(counts: map<int, map<nat, nat>>, rs: seq<seq<int>>) {
    forall x, len :: Lookup(counts, x, len) == CountIn(rs, x, len)
  }

  /** The three results of `decide_bohm`'s counting loop agree with the residuals `rs`. */
  ghost predicate Counted(counts: map<int, map<nat, nat>>, maxLen: nat, lastVar: int, rs: seq<seq<int>>) {
    Tallies(counts, rs) && maxLen == MaxLenOf(rs) && lastVar == LastLit(rs)
  }

  /** A clause whose flag is set adds no residual; any other adds its own. */
  lemma ResidualsStep(clauses: seq<Clause>, status: seq<bool>, a: Assignment, k: nat)
    requires k < |clauses| <= |status| && ClausesInRange(clauses, a.Len())
    ensures ResidualsUpTo(clauses, status, a, k + 1) ==
      if status[k] then ResidualsUpTo(clauses, status, a, k)
      else ResidualsUpTo(clauses, status, a, k) + [Residual(clauses[k].vars, a)]
  {
  }

  /** Counting one more residual `r` keeps the three results in step. */
  lemma CountedAppend(counts: map<int, map<nat, nat>>, maxLen: nat, lastVar: int, prev: seq<seq<int>>,
                      r: seq<int>, counts': map<int, map<nat, nat>>, lastVar': int)
    requires Counted(counts, maxLen, lastVar, prev)
    requires forall x, len :: Lookup(counts', x, len) == Lookup(counts, x, len) + (if len == |r| then multiset(r)[x] else 0)
    requires lastVar' == if r == [] then lastVar else r[|r| - 1]
    ensures Counted(counts', Max(maxLen, |r|), lastVar', prev + [r])
  {
    assert (prev + [r])[..|prev|] == prev;
  }

  /** Counting one more `v` of length `length` changes that one entry only. */
  lemma LookupBump(counts: map<int, map<nat, nat>>, v: int, length: nat)
    ensures var row := Row(counts, v);
      var out := counts[v := row[length := Get(row, length) + 1]];
      forall x, len :: Lookup(out, x, len) == Lookup(counts, x, len) + (if x == v && len == length then 1 else 0)
  {
  }

  /** Count every literal of one residual under the residual's length. */
  method AddCounts(counts: map<int, map<nat, nat>>, adjusted: seq<int>) returns (out: map<int, map<nat, nat>>)
    ensures forall x, len ::
      Lookup(out, x, len) == Lookup(counts, x, len) + (if len == |adjusted| then multiset(adjusted)[x] else 0)
  {
    var length := |adjusted|;
    out := counts;
    for j := 0 to |adjusted|
      invariant forall x, len ::
        Lookup(out, x, len) == Lookup(counts, x, len) + (if len == length then multiset(adjusted[..j])[x] else 0)
    {
      var v := adjusted[j];
      ghost var before := out;
      LookupBump(before, v, length);
      if v !in out {
        out := out[v := map[]];
      }
      var row := out[v];
      if length !in row {
        row := row[length := 0];
      }
      ghost var want := Row(before, v)[length := Get(Row(before, v), length) + 1];
      assert row.Keys == Row(before, v).Keys + {length};
      assert row[length := row[length] + 1] == want;
      out := out[v := row[length := row[length] + 1]];
      assert out == before[v := Row(before, v)[length := Get(Row(before, v), length) + 1]];
      assert adjusted[..j + 1] == adjusted[..j] + [adjusted[j]];
    }
    assert adjusted[..|adjusted|] == adjusted;
  }

  /**
   * The first loop of `decide_bohm`: for each clause whose flag is false, collect
   * its open literals, track the longest residual and the last open literal, and
   * count each literal under the residual's length.
   */
  method CountResiduals(clauses: seq<Clause>, status: seq<bool>, a: Assignment)
      returns (counts: map<int, map<nat, nat>>, maxLen: nat, lastVar: int)
    requires |clauses| <= |status| && ClausesInRange(clauses, a.Len())
    ensures Tallies(counts, Residuals(clauses, status, a))
    ensures maxLen == MaxLenOf(Residuals(clauses, status, a))
    ensures lastVar == LastLit(Residuals(clauses, status, a))
  {
    counts := map[];
    maxLen := 0;
    lastVar := 0;
    for index := 0 to |clauses|
      invariant Counted(counts, maxLen, lastVar, ResidualsUpTo(clauses, status, a, index))
    {
      ResidualsStep(clauses, status, a, index);
      if status[index] {
        continue;
      }
      ghost var prev := ResidualsUpTo(clauses, status, a, index);
      ghost var before := counts;
      ghost var beforeLast := lastVar;
      var adjusted;
      adjusted, lastVar := Adjusted(clauses[index].vars, a, lastVar);
      var length := |adjusted|;
      counts := AddCounts(counts, adjusted);
      CountedAppend(before, maxLen, beforeLast, prev, adjusted, counts, lastVar);
      maxLen := Max(maxLen, length);
    }
  }

  /**
   * One clause of `decide_bohm`'s counting loop: its open literals, in order, and
   * the last of them, which becomes `last_var` (unchanged when there is none).
   */
  method Adjusted(lits: seq<int>, a: Assignment, before: int) returns (adjusted: seq<int>, lastVar: int)
    requires AllInRange(lits, a.Len())
    ensures adjusted == Residual(lits, a)
    ensures lastVar == if adjusted == [] then before else adjusted[|adjusted| - 1]
  {
    adjusted := [];
    lastVar := before;
    for j := 0 to |lits|
      invariant adjusted == Residual(lits[..j], a)
      invariant lastVar == if adjusted == [] then before else adjusted[|adjusted| - 1]
    {
      var val := lits[j];
      assert lits[..j + 1][..j] == lits[..j];
      if a.Index(Abs(val)).None? {
        adjusted := adjusted + [val];
        lastVar := val;
      }
    }
    assert lits[..|lits|] == lits;
  }

  /** The inner loop of `decide_bohm`: does `cur` beat `best` at the first length where they differ? */
  method Beats(counts: map<int, map<nat, nat>>, ghost rs: seq<seq<int>>, cur: int, best: int, maxLen: nat)
      returns (beats: bool)
    requires Tallies(counts, rs)
    ensures beats == BeatsFrom(rs, cur, best, 1, maxLen)
  {
    var bestMap := Row(counts, best);
    var bestMapInv := Row(counts, best * -1);
    var curMap := Row(counts, cur);
    var curMapInv := Row(counts, cur * -1);
    beats := false;
    for len := 1 to maxLen + 1
      invariant BeatsFrom(rs, cur, best, len, maxLen) == BeatsFrom(rs, cur, best, 1, maxLen)
    {
      var hCur := Get(curMap, len);
      var hCurInv := Get(curMapInv, len);
      var hBest := Get(bestMap, len);
      var hBestInv := Get(bestMapInv, len);
      var scoreCur := ALPHA * Max(hCur, hCurInv) + BETA * Min(hCur, hCurInv);
      var scoreBest := ALPHA * Max(hBest, hBestInv) + BETA * Min(hBest, hBestInv);
      assert scoreCur == Score(rs, cur, len) && scoreBest == Score(rs, best, len);
      if scoreBest == scoreCur {
        continue;
      } else if scoreCur > scoreBest {
        beats := true;
        break;
      } else {
        break;
      }
    }
  }

  /** `decide_bohm`. */
  method DecideBohm(a: Assignment, status: seq<bool>, clauses: seq<Clause>) returns (r: int)
    requires |clauses| <= |status| && ClausesInRange(clauses, a.Len())
    ensures r == Bohm(clauses, status, a)
  {
    ghost var rs := Residuals(clauses, status, a);
    var counts, maxLen, lastVar := CountResiduals(clauses, status, a);

    var bestVar := lastVar;
    for index := 1 to a.Len() + 1
      invariant bestVar == BestUpTo(rs, a, lastVar, index - 1)
    {
      if a.Index(index).Some? {
        continue;
      }
      var beats := Beats(counts, rs, index, bestVar, maxLen);
      if beats {
        bestVar := index;
      }
    }

    var normalSum: nat := 0;
    var invSum: nat := 0;
    var bestMap := Row(counts, bestVar);
    var bestMapInv := Row(counts, bestVar * -1);
    for i := 1 to maxLen + 1
      invariant normalSum == SumCounts(rs, bestVar, i - 1)
      invariant invSum == SumCounts(rs, -bestVar, i - 1)
    {
      normalSum := normalSum + Get(bestMap, i);
      invSum := invSum + Get(bestMapInv, i);
    }
    if normalSum > invSum {
      return bestVar;
    } else {
      return -1 * bestVar;
    }
  }

  // ----- decide_activity -----

  /** Slot `s` scores a literal whose variable is still open. */
  predicate OpenSlot(a: Assignment, vars: nat, s: nat)
    requires vars <= a.Len()
  {
    s < 2 * vars && a.Index(Abs(LitOfSlot(s, vars))) == None
  }

  /**
   * After the slots below `k` have been scanned in order with a strict `>`
   * starting from 0.0: `lit` is 0 when no open slot scored above 0, and otherwise
   * the first open slot with the highest score, which is `best`.
   */
  predicate BestSlotBelow(a: Assignment, act: seq<real>, vars: nat, k: nat, best: real, lit: int)
    requires vars <= a.Len() && |act| >= 2 * vars && k <= 2 * vars
  {
    if lit == 0 then
      best == 0.0 && forall s :: 0 <= s < k && OpenSlot(a, vars, s) ==> act[s] <= 0.0
    else
      && InRange(lit, vars) && Slot(lit, vars) < k && OpenSlot(a, vars, Slot(lit, vars))
      && best == act[Slot(lit, vars)] && best > 0.0
      && (forall s :: 0 <= s < k && OpenSlot(a, vars, s) ==> act[s] <= best)
      && (forall s :: 0 <= s < Slot(lit, vars) && OpenSlot(a, vars, s) ==> act[s] < best)
  }

  /** `lit` is the first open literal, in slot order, with the highest positive score. */
  predicate FirstBest(a: Assignment, act: seq<real>, vars: nat, lit: int)
    requires vars <= a.Len() && |act| >= 2 * vars
  {
    lit != 0 && InRange(lit, vars) && BestSlotBelow(a, act, vars, 2 * vars, act[Slot(lit, vars)], lit)
  }

  /** The activity choice is determined: at most one literal is the first best. */
  lemma FirstBestUnique(a: Assignment, act: seq<real>, vars: nat, l1: int, l2: int)
    requires vars <= a.Len() && |act| >= 2 * vars
    requires FirstBest(a, act, vars, l1) && FirstBest(a, act, vars, l2)
    ensures l1 == l2
  {
    var s1, s2 := Slot(l1, vars), Slot(l2, vars);
    assert act[s1] <= act[s2] && act[s2] <= act[s1];
    assert !(s1 < s2) && !(s2 < s1);
    SlotRoundTrip(l1, s1, vars);
    SlotRoundTrip(l2, s2, vars);
  }

  /** Some open literal has a positive score. */
  predicate SomePositive(a: Assignment, act: seq<real>, vars: nat)
    requires vars <= a.Len() && |act| >= 2 * vars
  {
    exists s :: 0 <= s < 2 * vars && OpenSlot(a, vars, s) && act[s] > 0.0
  }

  /**
   * Decay never changes the activity decision: after `decay_activity` the same
   * open slots score above zero, and the same literal is the first best.
   */
  lemma DecayKeepsChoice(a: Assignment, act: seq<real>, vars: nat, lit: int)
    requires vars <= a.Len() && |act| >= 2 * vars
    ensures SomePositive(a, Decayed(act, 2 * vars), vars) <==> SomePositive(a, act, vars)
    ensures FirstBest(a, Decayed(act, 2 * vars), vars, lit) <==> FirstBest(a, act, vars, lit)
  {
    var d := Decayed(act, 2 * vars);
    forall s, t | 0 <= s < 2 * vars && 0 <= t < 2 * vars
      ensures (d[s] > d[t] <==> act[s] > act[t]) && (d[s] > 0.0 <==> act[s] > 0.0)
    {
      DecayKeepsRanking(act, 2 * vars, s, t);
    }
  }

  /** One step of the scan: slot `k` replaces the best so far only when open and strictly better. */
  lemma ScanStep(a: Assignment, act: seq<real>, vars: nat, k: nat, best: real, lit: int)
    requires vars <= a.Len() && |act| >= 2 * vars && k < 2 * vars
    requires BestSlotBelow(a, act, vars, k, best, lit)
    ensures if OpenSlot(a, vars, k) && act[k] > best
      then BestSlotBelow(a, act, vars, k + 1, act[k], LitOfSlot(k, vars))
      else BestSlotBelow(a, act, vars, k + 1, best, lit)
  {
    if OpenSlot(a, vars, k) && act[k] > best {
      SlotRoundTrip(LitOfSlot(k, vars), k, vars);
    }
  }

  /** The finished scan yields the first best literal, or 0 exactly when no open score is positive. */
  lemma ScanResult(a: Assignment, act: seq<real>, vars: nat, best: real, lit: int)
    requires vars <= a.Len() && |act| >= 2 * vars
    requires BestSlotBelow(a, act, vars, 2 * vars, best, lit)
    ensures lit == 0 <==> !SomePositive(a, act, vars)
    ensures lit != 0 ==> FirstBest(a, act, vars, lit)
  {
  }

  /** The first loop of `decide_activity`: the slots of the positive literals. */
  method ScanPositive(a: Assignment, act: seq<real>, vars: nat) returns (bestActivity: real, bestVar: int)
    requires vars <= a.Len() && |act| >= 2 * vars
    ensures BestSlotBelow(a, act, vars, vars, bestActivity, bestVar)
  {
    bestActivity := 0.0;
    bestVar := 0;
    for i := 0 to vars
      invariant BestSlotBelow(a, act, vars, i, bestActivity, bestVar)
    {
      assert LitOfSlot(i, vars) == i + 1;
      ScanStep(a, act, vars, i, bestActivity, bestVar);
      if a.Index(i + 1).Some? {
        continue;
      }
      var varActivity := act[i];
      if varActivity > bestActivity {
        bestActivity := varActivity;
        bestVar := i + 1;
      }
    }
  }

  /** The second loop of `decide_activity`: the slots of the negative literals. */
  method ScanNegative(a: Assignment, act: seq<real>, vars: nat, best: real, lit: int)
      returns (bestActivity: real, bestVar: int)
    requires vars <= a.Len() && |act| >= 2 * vars
    requires BestSlotBelow(a, act, vars, vars, best, lit)
    ensures BestSlotBelow(a, act, vars, 2 * vars, bestActivity, bestVar)
  {
    bestActivity, bestVar := best, lit;
    for i := 0 to vars
      invariant BestSlotBelow(a, act, vars, vars + i, bestActivity, bestVar)
    {
      var index := i + vars;
      assert LitOfSlot(index, vars) == (i + 1) * -1;
      ScanStep(a, act, vars, index, bestActivity, bestVar);
      if a.Index(i + 1).Some? {
        continue;
      }
      var varActivity := act[index];
      if varActivity > bestActivity {
        bestActivity := varActivity;
        bestVar := (i + 1) * -1;
      }
    }
  }

  /**
   * `decide_activity`: the first best-scoring open literal, positive slots
   * before negative ones; `decide_bohm` when no open literal scores above 0.
   * `None` stands for the panic of `decide_bohm` when there are more clauses
   * than `clause_status` flags: its loop reads `clause_status[index]` for every
   * clause index.
   */
  method DecideActivity(a: Assignment, state: SolverState, status: seq<bool>, clauses: seq<Clause>)
      returns (r: Option<int>)
    requires state.vars <= a.Len() && |state.activitylist| >= 2 * state.vars
    requires ClausesInRange(clauses, a.Len())
    ensures SomePositive(a, state.activitylist, state.vars) ==>
      r.Some? && FirstBest(a, state.activitylist, state.vars, r.value)
    ensures !SomePositive(a, state.activitylist, state.vars) && |clauses| <= |status| ==>
      r == Some(Bohm(clauses, status, a))
    ensures !SomePositive(a, state.activitylist, state.vars) && |clauses| > |status| ==> r == None
  {
    var vars := state.Vars();
    var act := state.Activity();
    var bestActivity, bestVar := ScanPositive(a, act, vars);
    bestActivity, bestVar := ScanNegative(a, act, vars, bestActivity, bestVar);
    ScanResult(a, act, vars, bestActivity, bestVar);
    if bestVar == 0 {
      if |clauses| > |status| {
        return None;
      }
      var output := DecideBohm(a, status, clauses);
      return Some(output);
    }
    return Some(bestVar);
  }
}
