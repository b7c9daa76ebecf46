/**
 * `Assignment`: the valuation read off a trail. Slot `i - 1` of `assignments`
 * holds the value of variable `i`; `None` means unassigned.
 */
module Assignments {
  import opened Wrappers
  import opened Literals
  import opened Text
  import opened Moves

  datatype Assignment = Assignment(assignments: seq<Option<bool>>) {

    /** `len`: the number of variables. */
    function Len(): nat {
      |assignments|
    }

    /** `a[i]`: the value of variable `i`; indices are 1-based. */
    function Index(i: nat): Option<bool>
      requires 1 <= i <= Len()
    {
      assignments[i - 1]
    }
  }

  /** `vec![None; vars]`. */
  function AllUnassigned(vars: nat): (a: Assignment)
    ensures a.Len() == vars
    ensures forall i :: 1 <= i <= vars ==> a.Index(i) == None
  {
    Assignment(seq(vars, _ => None))
  }

  /** Slot `|lit| - 1` becomes `Some(lit > 0)`; every other slot is kept. */
  function Assign(a: Assignment, lit: int): (r: Assignment)
    requires InRange(lit, a.Len())
    ensures r.Len() == a.Len()
    ensures r.Index(Abs(lit)) == Some(lit > 0)
    ensures forall i :: 1 <= i <= a.Len() && i != Abs(lit) ==> r.Index(i) == a.Index(i)
  {
    Assignment(a.assignments[Abs(lit) - 1 := Some(lit > 0)])
  }

  /** The valuation `from_movelist` builds: the moves applied in order from all-unassigned. */
  function FromMoves(list: seq<SolverMove>, vars: nat): (a: Assignment)
    requires ValidMoves(list, vars)
    ensures a.Len() == vars
    decreases |list|
  {
    if list == [] then AllUnassigned(vars)
    else Assign(FromMoves(list[..|list| - 1], vars), list[|list| - 1].variable)
  }

  /** `Assignment::from_movelist`: overwrite one slot per move, in list order. */
  method FromMovelist(list: seq<SolverMove>, vars: nat) returns (a: Assignment)
    requires ValidMoves(list, vars)
    ensures a == FromMoves(list, vars)
  {
    var initialAssignments: seq<Option<bool>> := seq(vars, _ => None);
    for k := 0 to |list|
      invariant Assignment(initialAssignments) == FromMoves(list[..k], vars)
    {
      var variable := match list[k]
        case Propagate(v, _) => v
        case Decide(v) => v
        case DecideFromConflict(v) => v;
      var index := Abs(variable);
      initialAssignments := initialAssignments[index - 1 := Some(variable > 0)];
      assert list[..k + 1][..k] == list[..k];
    }
    assert list[..|list|] == list;
    a := Assignment(initialAssignments);
  }

  /** A variable is unassigned exactly when no move of the list mentions it. */
  lemma {:induction false} OpenIffUnmentioned(list: seq<SolverMove>, vars: nat, i: nat)
    requires ValidMoves(list, vars) && 1 <= i <= vars
    ensures FromMoves(list, vars).Index(i) == None
        <==> forall k :: 0 <= k < |list| ==> VarOf(list[k]) != i
    decreases |list|
  {
    if list != [] {
      var init := list[..|list| - 1];
      assert forall k :: 0 <= k < |init| ==> init[k] == list[k];
      OpenIffUnmentioned(init, vars, i);
    }
  }

  /** The last move on a variable decides its value; earlier ones are overwritten. */
  lemma {:induction false} LastMoveWins(list: seq<SolverMove>, vars: nat, i: nat, k: nat)
    requires ValidMoves(list, vars) && 1 <= i <= vars
    requires k < |list| && VarOf(list[k]) == i
    requires forall j :: k < j < |list| ==> VarOf(list[j]) != i
    ensures FromMoves(list, vars).Index(i) == Some(list[k].variable > 0)
    decreases |list|
  {
    if k < |list| - 1 {
      var init := list[..|list| - 1];
      assert forall j :: 0 <= j < |init| ==> init[j] == list[j];
      assert VarOf(list[|list| - 1]) != i;
      LastMoveWins(init, vars, i, k);
    }
  }

  /** When every move on a variable agrees on its sign, that sign is its value. */
  lemma {:induction false} AgreeingMoves(list: seq<SolverMove>, vars: nat, i: nat, b: bool)
    requires ValidMoves(list, vars) && 1 <= i <= vars
    requires exists k :: 0 <= k < |list| && VarOf(list[k]) == i
    requires forall k :: 0 <= k < |list| && VarOf(list[k]) == i ==> (list[k].variable > 0) == b
    ensures FromMoves(list, vars).Index(i) == Some(b)
    decreases |list|
  {
    var init := list[..|list| - 1];
    assert forall j :: 0 <= j < |init| ==> init[j] == list[j];
    if VarOf(list[|list| - 1]) != i {
      var k :| 0 <= k < |list| && VarOf(list[k]) == i;
      assert k < |init|;
      AgreeingMoves(init, vars, i, b);
    }
  }

  /** What `to_string` appends for variable `i`: `"i "`, `"-i "`, or nothing. */
  function Entry(i: nat, v: Option<bool>): string {
    match v
    case None => ""
    case Some(b) => (if b then "" else "-") + NatToString(i) + " "
  }

  /** The text for variables 1..k, in increasing order. */
  function RenderUpTo(a: Assignment, k: nat): string
    requires k <= a.Len()
  {
    if k == 0 then "" else RenderUpTo(a, k - 1) + Entry(k, a.Index(k))
  }

  /** The text is empty or ends in the space after its last entry. */
  lemma {:induction false} RenderEndsInSpace(a: Assignment, k: nat)
    requires k <= a.Len()
    ensures var s := RenderUpTo(a, k); s == [] || s[|s| - 1] == ' '
  {
    if k > 0 {
      RenderEndsInSpace(a, k - 1);
    }
  }

  /** `Assignment::to_string`: one entry per assigned variable, unassigned ones skipped. */
  method ToString(a: Assignment) returns (buf: string)
    ensures buf == RenderUpTo(a, a.Len())
  {
    buf := "";
    for i := 1 to a.Len() + 1
      invariant buf == RenderUpTo(a, i - 1)
    {
      RenderNext(a, i);
      match a.Index(i)
      case Some(val) =>
        EntryText(buf, i, val);
        if val {
          buf := buf + NatToString(i) + " ";
        } else {
          buf := buf + "-" + NatToString(i) + " ";
        }
      case None =>
        assert Entry(i, None) == "";
    }
  }

  /** The entry `to_string` appends for an assigned variable, in its two spellings. */
  lemma EntryText(buf: string, i: nat, b: bool)
    ensures b ==> buf + NatToString(i) + " " == buf + Entry(i, Some(b))
    ensures !b ==> buf + "-" + NatToString(i) + " " == buf + Entry(i, Some(b))
  {
    var digits := NatToString(i);
    if b {
      assert Entry(i, Some(b)) == digits + " ";
      assert buf + digits + " " == buf + (digits + " ");
    } else {
      assert Entry(i, Some(b)) == "-" + digits + " ";
      assert buf + "-" + digits + " " == buf + ("-" + digits + " ");
    }
  }

  /** `RenderUpTo` one variable further. */
  lemma RenderNext(a: Assignment, i: nat)
    requires 1 <= i <= a.Len()
    ensures RenderUpTo(a, i) == RenderUpTo(a, i - 1) + Entry(i, a.Index(i))
  {
  }

  /** The literal that is true under `a` for variable `i`, when `i` is assigned. */
  function TrueLit(i: nat, b: bool): (lit: int)
    ensures Abs(lit) == i && (i > 0 ==> (lit > 0) == b)
  {
    if b then i else -(i as int)
  }

  /** The literals true under `a` among variables 1..k, in increasing variable order. */
  function AssignedLits(a: Assignment, k: nat): (lits: seq<int>)
    requires k <= a.Len()
    ensures forall j :: 0 <= j < |lits| ==> InRange(lits[j], k) && a.Index(Abs(lits[j])) == Some(lits[j] > 0)
  {
    if k == 0 then []
    else
      match a.Index(k)
      case None => AssignedLits(a, k - 1)
      case Some(b) => AssignedLits(a, k - 1) + [TrueLit(k, b)]
  }

  /** Every assigned variable among 1..k has its literal in `AssignedLits(a, k)`. */
  lemma {:induction false} AssignedLitsComplete(a: Assignment, k: nat, i: nat)
    requires k <= a.Len() && 1 <= i <= k && a.Index(i).Some?
    ensures exists j :: 0 <= j < |AssignedLits(a, k)| && Abs(AssignedLits(a, k)[j]) == i
  {
    var lits := AssignedLits(a, k);
    if i == k {
      assert Abs(lits[|lits| - 1]) == i;
    } else {
      AssignedLitsComplete(a, k - 1, i);
      var prev := AssignedLits(a, k - 1);
      var j :| 0 <= j < |prev| && Abs(prev[j]) == i;
      assert lits[j] == prev[j];
    }
  }

  /** Each literal of `lits` as text. */
  function Texts(lits: seq<int>): (ts: seq<string>)
    ensures |ts| == |lits|
    ensures forall j :: 0 <= j < |lits| ==> ts[j] == IntToString(lits[j])
  {
    seq(|lits|, j requires 0 <= j < |lits| => IntToString(lits[j]))
  }

  /** One entry splits into the text of the literal it prints. */
  lemma EntryTokens(i: nat, b: bool)
    requires i >= 1
    ensures Split(Entry(i, Some(b))) == [IntToString(TrueLit(i, b))]
  {
    var digits := NatToString(i);
    if b {
      assert Entry(i, Some(b)) == IntToString(TrueLit(i, b)) + " ";
    } else {
      assert Entry(i, Some(b)) == ("-" + digits) + " ";
      assert IntToString(TrueLit(i, b)) == "-" + digits;
    }
    SplitToken(IntToString(TrueLit(i, b)));
  }

  /** The first `k` entries of the text split into the tokens of the assigned literals among them. */
  predicate RendersTokens(a: Assignment, k: nat)
    requires k <= a.Len()
  {
    Split(RenderUpTo(a, k)) == Texts(AssignedLits(a, k))
  }

  /** The rendered text splits into the assigned literals, one token each, in order. */
  lemma {:induction false} RenderTokens(a: Assignment, k: nat)
    requires k <= a.Len()
    ensures RendersTokens(a, k)
  {
    if k == 0 {
      RenderEmpty(a);
    } else {
      RenderTokens(a, k - 1);
      RenderStep(a, k - 1);
    }
  }

  lemma RenderEmpty(a: Assignment)
    ensures RendersTokens(a, 0)
  {
    assert Texts([]) == [];
  }

  /** One step of `RenderTokens`: the entry of variable `k` adds its literal's token, if any. */
  lemma RenderStep(a: Assignment, k: nat)
    requires k < a.Len() && RendersTokens(a, k)
    ensures RendersTokens(a, k + 1)
  {
    var prev := RenderUpTo(a, k);
    var v := a.Index(k + 1);
    var entry := Entry(k + 1, v);
    RenderEndsInSpace(a, k);
    SplitAppend(prev, entry);
    var tail := if v.None? then [] else [TrueLit(k + 1, v.value)];
    assert AssignedLits(a, k + 1) == AssignedLits(a, k) + tail;
    if v.Some? {
      EntryTokens(k + 1, v.value);
    }
    assert Split(entry) == Texts(tail);
    TextsAppend(AssignedLits(a, k), tail);
  }

  lemma TextsAppend(x: seq<int>, y: seq<int>)
    ensures Texts(x + y) == Texts(x) + Texts(y)
  {
  }
}
