# ironSat in Dafny

This project models ironSat, a small SAT solver written in Rust. It reads a
formula in DIMACS CNF form and searches for a satisfying assignment. The
search is DPLL with chronological backtracking:

- unit propagation;
- a decision heuristic driven by activity scores, with Böhm's heuristic as a fallback;
- on a conflict, the most recent decision is flipped.

The model has these parts:

- **Clause classification** (`Clauses`). `check_assignment` makes one
  left-to-right scan with early exits and returns Sat, Conflict,
  Propagate(l) or nothing. The recursive function `Scan` is its
  specification. The `for` loop `CheckAssignment` is proved equal to it. Each
  outcome is characterized by an if-and-only-if lemma that names the literal
  at which the scan stops.
- **Assignments** (`Assignments`). `from_movelist` is a loop that overwrites
  1-based slots. It is proved equal to `FromMoves`, a fold over the moves.
  Lemmas state that the last move on a variable wins and that unmentioned
  variables stay unassigned. `to_string` is a loop proved equal to
  `RenderUpTo`. A lemma shows that its text reads back into the assigned
  literals.
- **The solver state** (`SolverStates.SolverState`). This class holds the
  clause list, the trail and the activity scores. The trail is a list of
  levels, and the methods change it in place.
  - `add_move`, `add_decision_lv` and `get_movelist` are tied to the
    functions `WithMove` and `Flatten`.
  - `resolve_conflict` is tied to `AfterFlip` (pop the last level and append
    the negated decision below it), `Bumped` (+1 on each conflict literal's
    slot) and `Decayed` (×0.9 on every slot).
  - The invariant `TrailOk` holds that levels are nonempty, that the trail
    holds only valid assigning moves, and that each variable appears at most
    once. Lemmas prove that adding a move, opening a decision level and
    flipping a decision each preserve it.
- **Heuristics** (`Heuristics`).
  - `decide_bohm` builds nested hash maps of residual-literal counts by
    clause length, picks the best literal by a lexicographic comparison,
    then picks a polarity. Its loops are proved equal to the functions
    `Residuals`, `BestUpTo` and `BohmOf`.
  - `decide_activity` is two scans with a strict `>`. It is specified by the
    predicate `FirstBest`: the first open slot with the highest positive
    score, in scan order. When no open slot scores above zero, it falls back
    to Böhm.
- **The DIMACS reader** (`Dimacs`). `parse_input` works on a sequence of
  lines, not a file.
  - Lines starting with `c` are skipped.
  - A line starting with `%` ends the input.
  - A `p` line sets the variable count, the activity vector and the clause
    count.
  - Any other line becomes a clause of its `i32` tokens, with every zero
    dropped.
  - The parser is the function `Parse`. The imperative `ParseInput` fills a
    fresh `SolverState` and is proved to agree with `Parse`.
- **The driver** (`Driver`).
  - `move_from_state` returns the first clause in index order that
    propagates or conflicts. Otherwise it returns Sat if the count of Sat
    clauses equals the header's clause count `M`, and a decision if not.
  - The count is compared with `M`, not with the number of clause lines. A
    file with more clause lines than `M` can therefore be answered Sat while
    some clauses are still open (see "## Findings"). Such a file panics when
    a Sat clause at index `≥ M` sets its `clause_status` flag, or when Böhm
    reads a flag past the end. Both panics are modelled as outcomes.
  - `main`'s loop is `Search`, which runs for a bounded number of steps
    (fuel) and keeps `TrailOk` and nonnegative scores as loop invariants.
  - A Satisfiable answer satisfies the first `M` clauses. When the file has
    exactly `M` clause lines, that is every clause, and the run never panics.
  - `Solve` connects the parser and the search.
  - The driver keeps the Sat test as the code writes it. The corrected test
    is stated on its own, in `Driver.CorrectedSatTest`.

The Rust standard library pieces the program relies on are modelled in
`Text`: `split_whitespace`, `parse::<usize>`, `parse::<i32>` and
integer `to_string`.

The model follows these behaviours of the code:

- The code learns no clauses and does not backjump. A conflict flips the
  most recent decision, or ends the run as Unsat when the last level does
  not start with a decision.
- `check_assignment` stops at the second unassigned literal. So `[1,3,5]`
  with only 5 true is classified None even though it is satisfied
  (`Clauses.LateTrueLiteralIsMissed`).
- `header_initialized` is never set, so a second `p` line is not rejected.
  A later header overwrites the earlier one, even with comment and clause
  lines in between (`Dimacs.SecondHeaderOverwrites`). There is no
  missing-header check: without a header the counts stay 0.
- Every zero token is dropped from a clause line, not only a trailing one.

## Model

| member | source | states |
|---|---|---|
| Literals.Abs | src/clause.rs:24 | `abs` is nonnegative and agrees with the literal up to sign |
| Text.Split | src/main.rs:80 | `split_whitespace` yields nonempty tokens without whitespace |
| Text.NatToString | src/assignment.rs:48-50 | `usize::to_string` is a nonempty run of decimal digits |
| Text.IntToString | src/main.rs:115 | the printed form of an `i32` is one token, the inverse partner of `parse::<i32>` |
| Text.DigitsRoundTrip | src/assignment.rs:48-50 | reading back the printed digits of `n` gives `n` |
| Text.ParseUsize | src/main.rs:95-110 | `parse::<usize>` accepts only values that fit 64 bits |
| Text.ParseI32 | src/main.rs:115 | `parse::<i32>` accepts only values in the 32-bit signed range |
| Text.ParseIntToString | src/main.rs:115 | every `i32` printed and parsed comes back unchanged |
| Text.ParseNatToString | src/main.rs:95-110 | every `usize` printed and parsed comes back unchanged |
| Assignments.Assignment.Len | src/assignment.rs:36-38 | `len`: the number of variable slots (a definition) |
| Assignments.Assignment.Index | src/assignment.rs:61-66 | `a[i]` reads slot `i - 1`; it requires `1 <= i <= len`, where the source would panic (a definition) |
| Assignments.AllUnassigned | src/assignment.rs:11 | `vec![None; vars]` has `vars` slots, all unassigned |
| Assignments.Assign | src/assignment.rs:27-28 | one move on literal `v` sets the slot of its variable to `v > 0` and leaves every other slot and the length alone |
| Assignments.FromMoves | src/assignment.rs:10-34 | the rebuilt assignment has exactly `vars` slots |
| Assignments.FromMovelist | src/assignment.rs:10-34 | the loop equals the fold `FromMoves`; it requires no Sat or Conflict move and every literal nonzero with magnitude at most `vars`, as the panics demand |
| Assignments.OpenIffUnmentioned | src/assignment.rs:11-28 | a variable is unassigned exactly when no move on the list mentions it |
| Assignments.LastMoveWins | src/assignment.rs:12-28 | a variable holds the sign of the last move on it; later moves overwrite earlier ones |
| Assignments.AgreeingMoves | src/assignment.rs:12-28 | when every move on a variable has the same sign, the variable holds that sign |
| Assignments.RenderEndsInSpace | src/assignment.rs:43-57 | the rendered text is empty or ends in the space after its last entry |
| Assignments.ToString | src/assignment.rs:42-58 | the loop yields `"i "` or `"-i "` for each assigned variable in increasing order, skipping unassigned ones |
| Assignments.TrueLit | src/assignment.rs:47-50 | the printed literal of variable `i` has magnitude `i` and the sign of its value |
| Assignments.AssignedLits | src/assignment.rs:44-55 | every listed literal is in range and true under the assignment |
| Assignments.AssignedLitsComplete | src/assignment.rs:44-55 | every assigned variable appears among the listed literals |
| Assignments.EntryTokens | src/assignment.rs:46-51 | one entry of the text splits into exactly the printed literal |
| Assignments.RenderTokens | src/assignment.rs:43-57 | the text splits into the printed assigned literals, in order |
| Clauses.Scan | src/clause.rs:21-48 | the specification of `check_assignment`'s loop over the literals left, `last` holding `last_available` (a definition; characterized by the Scan lemmas below) |
| Clauses.Classify | src/clause.rs:21-48 | the scan from `last_available = None` (a definition) |
| Clauses.CheckAssignment | src/clause.rs:21-48 | the loop with early returns equals the scan `Classify` on every clause in range |
| Clauses.ScanConflict | src/clause.rs:28-46 | the scan yields Conflict exactly when nothing is held and every literal is false, the empty clause included |
| Clauses.ScanPropagate | src/clause.rs:33-45 | the scan yields Propagate(l) exactly when `l` is the only open literal and all others are false |
| Clauses.ScanSat | src/clause.rs:28-31 | the scan yields Sat exactly when a true literal has at most one open literal before it |
| Clauses.ScanNone | src/clause.rs:33-36 | the scan yields None exactly when a second open literal comes before any true one |
| Clauses.ClassifyConflict | src/clause.rs:21-48 | Conflict exactly when every literal is false |
| Clauses.ClassifyPropagate | src/clause.rs:21-48 | Propagate(l) exactly when `l` is the sole open literal and the rest are false |
| Clauses.ClassifySat | src/clause.rs:21-48 | Sat exactly when some true literal has at most one open literal before it |
| Clauses.ClassifyNone | src/clause.rs:21-48 | None exactly when a second open literal precedes every true literal |
| Clauses.SatIsSatisfied | src/clause.rs:28-31 | a clause classified Sat has a true literal |
| Clauses.NoneHasOpenLiteral | src/clause.rs:33-36 | a clause classified None has an open literal |
| Clauses.LateTrueLiteralIsMissed | src/clause.rs:33-36 | `[1,3,5]` with only 5 true is None although satisfied |
| Clauses.BasicConflict | src/clause.rs:62-71 | `[1,3,5]` under -1,-3,-5 is Conflict |
| Clauses.BasicPropagate | src/clause.rs:74-83 | `[1,3,5]` under -1,-3 is Propagate(5) |
| Clauses.BasicSat | src/clause.rs:86-95 | `[1,3,5]` under -1,5 is Sat |
| Clauses.BasicNone | src/clause.rs:98-107 | `[1,3,5]` under -1 is None |
| Clauses.NegativeNone | src/clause.rs:110-119 | `[-1,-3,-5]` under 1 is None |
| SolverStates.Flatten | src/solver_state.rs:60-68 | `get_movelist` as a value: the levels concatenated in order (a definition) |
| SolverStates.FlattenLength | src/solver_state.rs:60-68 | the flattened trail is as long as the sum of the level lengths |
| SolverStates.FlattenMembers | src/solver_state.rs:60-68 | a move is on the flattened trail exactly when it is on some level |
| SolverStates.WithMove | src/solver_state.rs:39-47 | `add_move` appends to the last level, makes a single level when there is none, and keeps the earlier levels |
| SolverStates.FlattenWithMove | src/solver_state.rs:39-47 | after `add_move` the flattened trail is the old one plus the move |
| SolverStates.AfterFlip | src/solver_state.rs:96-97 | a flip leaves `max(n-1, 1)` levels, keeps all lower levels but the new last one, and appends the negated decision to it |
| SolverStates.AddMoveKeepsTrail | src/solver_state.rs:39-47 | appending an assigning move on an open variable keeps the trail invariant |
| SolverStates.DecideOpensLevel | src/solver_state.rs:49-51 | a move after `add_decision_lv` forms a new level of its own, and the empty level flattens to nothing |
| SolverStates.DecideKeepsTrail | src/main.rs:40-43 | a decision on an open literal in a new level keeps the trail invariant |
| SolverStates.DropLastLevel | src/solver_state.rs:96 | removing the last level removes its moves from the end of the trail and keeps the invariant |
| SolverStates.FlippedVariableIsOpen | src/solver_state.rs:90-97 | the variable of the decision being undone is unassigned below its level |
| SolverStates.FlipKeepsTrail | src/solver_state.rs:90-97 | a successful flip keeps nonempty levels and each variable at most once |
| SolverStates.FlipNegatesDecision | src/solver_state.rs:90-97 | after a flip the variable holds the negation of the undone decision |
| SolverStates.Slot | src/solver_state.rs:78-83 | a literal's activity slot lies in `[0, 2·vars)` and is below `vars` exactly for positive literals |
| SolverStates.LitOfSlot | src/solver_state.rs:78-83 | each slot names a literal in range |
| SolverStates.SlotRoundTrip | src/solver_state.rs:78-83 | literal-to-slot and slot-to-literal are inverse |
| SolverStates.Bumped | src/solver_state.rs:77-87 | bumping keeps the number of scores |
| SolverStates.BumpedAt | src/solver_state.rs:77-87 | each slot gains 1.0 per occurrence of its literal in the conflict clause |
| SolverStates.Decayed | src/solver_state.rs:100-102 | the first `m` scores multiplied by 0.9, the rest kept (a definition) |
| SolverStates.ScoresStayNonNegative | src/solver_state.rs:77-102 | bump and decay keep every score nonnegative |
| SolverStates.DecayKeepsRanking | src/solver_state.rs:100-102 | decay does not change the order of any two decayed scores |
| SolverStates.SolverState.constructor | src/solver_state.rs:21-29 | a new state is empty with zero counts |
| SolverStates.SolverState.AddClause | src/solver_state.rs:35-37 | the clause is appended |
| SolverStates.SolverState.AddMove | src/solver_state.rs:39-47 | the trail becomes `WithMove` of the old trail |
| SolverStates.SolverState.AddDecisionLv | src/solver_state.rs:49-51 | one empty level is appended and nothing else changes |
| SolverStates.SolverState.GetMovelist | src/solver_state.rs:60-68 | the nested loops return the in-order concatenation of the levels |
| SolverStates.SolverState.BumpActivity | src/solver_state.rs:77-87 | the bump loop leaves the scores equal to `Bumped` of the old scores and the clause's literals |
| SolverStates.SolverState.DecayActivity | src/solver_state.rs:100-102 | the decay loop leaves the scores equal to `Decayed` of the old scores over all `2·vars` slots |
| SolverStates.SolverState.ResolveConflict | src/solver_state.rs:70-105 | on an empty trail: false and nothing changes; otherwise scores bumped, and then either flip plus decay and true, or false with the trail unchanged |
| SolverStates.SolverState.Activity | src/solver_state.rs:31-33 | the getter returns the scores (a definition) |
| SolverStates.SolverState.ClauseList | src/solver_state.rs:53-55 | the getter returns the clause list (a definition) |
| SolverStates.SolverState.Clauses | src/solver_state.rs:57-59 | the getter returns the header's clause count (a definition) |
| SolverStates.SolverState.Vars | src/solver_state.rs:117-119 | the getter returns the variable count (a definition) |
| SolverStates.SolverState.SetActivity | src/solver_state.rs:107-109 | the scores are replaced |
| SolverStates.SolverState.SetClauses | src/solver_state.rs:110-112 | the clause count is replaced |
| SolverStates.SolverState.SetVars | src/solver_state.rs:114-116 | the variable count is replaced |
| Heuristics.Residual | src/main.rs:236-244 | the residual of a clause holds only open, in-range literals |
| Heuristics.ResidualMembers | src/main.rs:236-244 | a literal is in the residual exactly when it is in the clause and open |
| Heuristics.ResidualsUpTo | src/main.rs:231-245 | the residuals of live clauses hold only open literals |
| Heuristics.ResidualsNonempty | src/main.rs:231-245 | some residual is nonempty exactly when some live clause has an open literal |
| Heuristics.ResidualNonempty | src/main.rs:236-244 | a clause's residual is nonempty exactly when one of its literals is open |
| Heuristics.LastLitIsResidual | src/main.rs:230-243 | `last_var` is a residual literal when one exists, else 0 |
| Heuristics.LastLitOpen | src/main.rs:239-243 | a nonzero `last_var` is open and in range, and it is nonzero exactly when some residual is nonempty |
| Heuristics.ScoreSymmetric | src/main.rs:292-293 | a literal and its negation have the same score |
| Heuristics.BeatsSignFree | src/main.rs:267-293 | whether one literal beats another does not depend on either sign |
| Heuristics.BeatsIff | src/main.rs:274-302 | `cur` beats `best` exactly when at the first length where their scores differ, `cur` scores higher |
| Heuristics.BeatsIrreflexive | src/main.rs:294-295 | no literal beats itself |
| Heuristics.BeatsAsymmetric | src/main.rs:274-302 | two literals never beat each other |
| Heuristics.NotBeatenTransitive | src/main.rs:274-302 | "not beaten by" is transitive |
| Heuristics.BestUpTo | src/main.rs:262-303 | `best_var` after comparing variables `1..k`, starting from `start` (a definition; see the next row) |
| Heuristics.BestUpToMaximal | src/main.rs:262-303 | the selected literal is the start or an open variable, and the start and every open variable fail to beat it |
| Heuristics.BohmOf | src/main.rs:262-325 | the best literal `best_var` over the residuals when its count sum is strictly larger than its negation's, and `-best_var` otherwise, so ties go to the negation of the best literal (a definition) |
| Heuristics.Bohm | src/main.rs:201-326 | `decide_bohm`'s choice: `BohmOf` of the residuals of the unflagged clauses (a definition) |
| Heuristics.BohmIsOpen | src/main.rs:262-325 | a nonzero Böhm choice is an open literal in range |
| Heuristics.BohmNonzero | src/main.rs:227-325 | the Böhm choice is nonzero when some live clause has an open literal |
| Heuristics.BohmIsBest | src/main.rs:305-325 | the chosen polarity counts at least as often as its negation, and no open variable beats the choice |
| Heuristics.AddCounts | src/main.rs:247-257 | the map update adds one count per literal occurrence under the residual's length |
| Heuristics.Adjusted | src/main.rs:235-244 | the inner loop builds exactly the residual of the clause, and `last_var` becomes its last literal, or stays as it was when the residual is empty |
| Heuristics.CountResiduals | src/main.rs:227-258 | the map tallies the residuals, with `max_clause_len` their maximal length and `last_var` their last literal |
| Heuristics.Beats | src/main.rs:274-302 | the `break`/`continue` loop agrees with the lexicographic comparison |
| Heuristics.DecideBohm | src/main.rs:201-326 | `decide_bohm` returns the Böhm choice `Bohm` |
| Heuristics.FirstBestUnique | src/main.rs:328-353 | at most one literal is the first best activity choice |
| Heuristics.DecayKeepsChoice | src/solver_state.rs:100-102 | after the decay the same open slots score above 0 and the same literal is the first best, so the decay never changes `decide_activity`'s choice by itself |
| Heuristics.ScanPositive | src/main.rs:331-341 | the first scan ends holding the first best open positive slot, or 0 with score 0.0 when none scores above 0 |
| Heuristics.ScanNegative | src/main.rs:343-353 | the second scan extends the first over the negative slots with the same rule |
| Heuristics.ScanResult | src/main.rs:328-355 | the scans end with 0 exactly when no open slot scores above 0, and otherwise with the first best literal |
| Heuristics.DecideActivity | src/main.rs:328-363 | the first best open literal when some open slot scores above 0; else the Böhm choice when there are no more clauses than flags, and None (the `clause_status[index]` panic at src/main.rs:232) when there are more |
| Dimacs.ClauseOf | src/main.rs:113-125 | a read clause has no more literals than tokens, each a nonzero `i32` |
| Dimacs.ClauseOfError | src/main.rs:114-124 | a clause line fails exactly when some token is not an `i32`, and the error names the first such token |
| Dimacs.ParseClauseLine | src/main.rs:113-126 | the token loop equals `ClauseOf` |
| Dimacs.ClauseOfErrorSticks | src/main.rs:123 | once a prefix of the tokens fails, the whole line fails with the same error |
| Dimacs.ClauseOfTexts | src/main.rs:113-125 | printed nonzero literals read back as the same clause |
| Dimacs.HeaderOf | src/main.rs:87-110 | a `p` line gives a header or one of the header errors, checked in the source's order |
| Dimacs.ClassifyLine | src/main.rs:70-126 | what one line is: a comment, the end, a header or header error, or a clause or clause error (a definition) |
| Dimacs.Readable | src/main.rs:70-80 | every line before the input ends has a first character, and one that is split has a first token (a definition) |
| Dimacs.ParseFrom | src/main.rs:68-131 | the line loop from a given formula on (a definition) |
| Dimacs.Parse | src/main.rs:63-131 | `parse_input` from the empty state (a definition) |
| Dimacs.ParseInput | src/main.rs:63-131 | the line loop over a fresh state agrees with `Parse`, error for error, and leaves the trail empty |
| Dimacs.ParsedActivityIsZero | src/main.rs:95-102 | after parsing there are `2·N` activity slots, all 0.0 |
| Dimacs.ParseAppendsClauses | src/main.rs:113-126 | parsing only appends clauses, each made of nonzero `i32` literals |
| Dimacs.SecondHeaderOverwrites | src/main.rs:82-111 | a header followed by any comment and clause lines and then a second header is not rejected, and parsing from it gives what parsing without it gives |
| Dimacs.CountsForgotten | src/main.rs:82-126 | over comment and clause lines up to a header, the counts read so far make no difference |
| Dimacs.HeaderLine | src/main.rs:82-111 | for any `usize` counts `N` and `M`, `p cnf N M` printed in decimal reads back as a header with exactly those counts |
| Driver.TrailAssignment | src/main.rs:134 | the assignment `move_from_state` reads off the trail (a definition) |
| Driver.Quiet | src/main.rs:139-158 | none of the first `k` clauses is Propagate or Conflict (a definition) |
| Driver.SatCount | src/main.rs:135-155 | `sat_clauses` after the full scan: the number of Sat clauses (a definition; see the next row) |
| Driver.SatCountBound | src/main.rs:152-163 | the Sat count is at most the number of clauses, and equal exactly when every clause is Sat |
| Driver.SatMeansSatisfied | src/main.rs:152-163 | when every Sat clause's flag fits and the Sat count equals `M`, there are at least `M` clauses and the first `M` have a true literal |
| Driver.SatCountPrefix | src/main.rs:152-155 | when no clause from index `k` on is Sat, the first `k` clauses give the whole Sat count |
| Driver.Status | src/main.rs:137-155 | `clause_status` has one flag per header clause |
| Driver.DecisionIsOpen | src/main.rs:165-175 | a nonzero decision is an open literal in range, and the decision is nonzero when there are at least `M` clauses |
| Driver.ScanClauses | src/main.rs:137-159 | the clause loop stops at the first Propagate or Conflict, with every earlier clause Sat or undecided; it stops with FlagOutOfBounds at the first Sat clause whose index is `≥ M` (the panic of `clause_status[clause_index] = true`); otherwise it returns the Sat count and `M` flags, set exactly for the Sat clauses |
| Driver.MoveFromState | src/main.rs:133-176 | the first Propagate or Conflict clause in index order wins; else Sat exactly when the Sat count equals `M`; else a decision by the activity rule or Böhm, open and in range; None (a panic) only when there are more than `M` clauses and either a Sat clause's flag is out of range or Böhm is reached |
| Driver.Extend | src/main.rs:36-43 | Propagate extends the last level, Decide first opens a level, and the trail invariant holds afterwards |
| Driver.Recover | src/main.rs:48-55 | the conflict is resolved exactly when the trail ends in a decision level; then the trail is flipped and the scores are the bumped scores decayed, otherwise the trail is unchanged and the scores are bumped (unchanged on an empty trail); the trail invariant holds afterwards |
| Driver.PropagatedLiteralIsOpen | src/main.rs:145-150 | a propagated literal is open and in range |
| Driver.RecoveryKeepsState | src/main.rs:48-50 | either outcome of `resolve_conflict` keeps the trail invariant and nonnegative scores |
| Driver.Search | src/main.rs:33-59 | the loop keeps the trail invariant; a Satisfiable answer is the trail's assignment and its text, and satisfies the first `M` clauses; with exactly `M` clauses it never panics |
| Driver.AnswerReadsBack | src/assignment.rs:43-57 | the printed assignment reads back as exactly the assigned literals, each true |
| Driver.Solve | src/main.rs:18-59 | parse errors are passed through; a Satisfiable answer has one slot per variable and satisfies the first `M` parsed clauses; with exactly `M` clauses it never panics |
| Driver.ExampleClassified | src/clause.rs:21-48 | after propagating 1, the first example clause is Sat and the other four are None |
| Driver.NoModelOverTwo | src/main.rs:161-163 | no assignment satisfies all four clauses over variables 2 and 3 of the example |
| Driver.SpuriousSat | src/main.rs:152-163 | on `p cnf 3 1` with five clause lines, after propagating 1 the scan is quiet, the flag fits and the Sat count equals 1, so the answer is Sat; yet clause `2 3` has no true literal, and the four clauses after the first have no model at all |
| Driver.CorrectedSatTest | src/main.rs:152-163 | counting against the number of clauses instead: every flag fits, the count is reached exactly when every clause is Sat, and then every clause is satisfied |

## Left out

- File handling, `BufReader`, `env::args` and all `println!` output are not modelled, because they are I/O. `parse_input` works on a sequence of lines, and an I/O error from `line?` is not modelled.
- Activity scores are exact `real`s rather than `f32`. The `+1.0` bump and `×0.9` decay are exact, so rounding is not modelled.
- Integer widths are not modelled. The model does not capture `usize` or `i32` overflow in `val * 2`, `-1 * var`, the Böhm scores and sums, or `try_into().unwrap()`, nor the size limit on allocating `vec![0.0; val * 2]`.
- Termination of `main`'s loop is not modelled. `Search` takes a fuel bound and ends with `OutOfFuel` when it runs out.
- Driver.Search: an Unsat answer is not proved correct. Flipping only chronologically has no completeness argument in the source.
- `decide_first_unsat` is not modelled, because it is dead code.
- `ToString for SolverState` is not modelled, because it is a formatting wrapper. `Satisfiable` carries the `Assignment::to_string` text it prints.
- Clause learning, backjumping and clause deletion are not modelled, because they do not exist in the code.
- Panics become preconditions or outcomes:
  - A blank line, or a line of whitespace only, makes the source panic. `Dimacs.Readable` excludes these.
  - A literal whose variable exceeds `N` makes the source panic only when that clause is read: when `check_assignment` scans up to it, when Böhm reads it, or when a conflict bumps it. A file such as `p cnf 1 3 / 1 0 / -1 0 / 5 0` ends Unsat without reaching the third clause.
  - A decision on variable 0 makes the next step panic, because slot 0 - 1 does not exist. `Search` returns `Panicked` instead.
- Driver.Solve requires every literal to name a variable at most `N` (`Driver.WellFormed`). This is stronger than the source, which panics only when an out-of-range literal is read, as described above.
- Driver.Search requires every literal in range (`ClausesInRange` in `Runnable`), for the same reason.
- Driver.MoveFromState requires every literal in range, for the same reason.
- Driver.Search promises only that a Satisfiable answer satisfies the first `M` clauses. The code's Sat test compares with `M`, so more is not true (see "## Findings").
- Driver.Solve promises the same, for the same reason.
- SolverStates.SolverState.ResolveConflict requires at least `2·vars` activity slots even when the last level does not start with a decision. The source needs only the conflict literals' slots on that path.
- Text.ParseUsize models a 64-bit `usize`.
- Text.ParseI32 accepts ASCII decimal digits with an optional `+` or `-`. Text.ParseUsize accepts ASCII decimal digits with an optional `+` only. Rust's other parse details are not modelled: their error kinds are collapsed into one.

## Findings

| source | as written | input that shows it | evidently intended | confidence | as-written member | corrected member |
|---|---|---|---|---|---|---|
| src/main.rs:152-163 | `sat_clauses == state.clauses()` compares the Sat count with the header's clause count `M` | `p cnf 3 1` then `1 0`, `2 3 0`, `2 -3 0`, `-2 3 0`, `-2 -3 0`: after propagating 1 only clause 0 is Sat, the count is 1 = `M`, and the answer is Sat, though the formula has no model | compare with the number of clauses read, `state.clauselist().len()` | not executed | Driver.SpuriousSat | Driver.CorrectedSatTest |
