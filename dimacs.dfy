/**
 * `parse_input` over the lines of a DIMACS CNF text: comment lines are skipped,
 * a `%` line ends the input, a `p cnf N M` line sets the counts, and every other
 * line is a clause of whitespace-separated integers with the zeros dropped.
 */
module Dimacs {
  import opened Wrappers
  import opened Text
  import opened Assignments
  import opened Clauses
  import opened SolverStates

  /** The error messages `parse_input` can return, one variant per message. */
  datatype ParseError =
    | BadHeaderFormat
    | NotCnf
    | VarCountNotNumber
    | ClauseCountNotNumber
    | NotANumber(token: string)

  /** What one line contributes. */
  datatype LineKind =
    | Comment
    | End
    | Header(vars: nat, clauses: nat)
    | Literals(lits: seq<int>)
    | Bad(error: ParseError)

  /** The parts of `SolverState` that parsing sets. */
  datatype Formula = Formula(clauselist: seq<Clause>, vars: nat, activity: seq<real>, clauses: nat)

  const EMPTY := Formula([], 0, [], 0)

  /** A 32-bit literal other than 0. */
  predicate Lit32(v: int) {
    v != 0 && -(I32_MAX as int) - 1 <= v <= I32_MAX
  }

  /** The clause of a line's tokens: every token parsed as `i32`, zeros dropped; the first bad token is the error. */
  function ClauseOf(tokens: seq<string>): (r: Result<seq<int>, ParseError>)
    ensures r.Ok? ==> |r.value| <= |tokens| && forall k :: 0 <= k < |r.value| ==> Lit32(r.value[k])
    decreases |tokens|
  {
    if tokens == [] then Ok([])
    else
      match ClauseOf(tokens[..|tokens| - 1])
      case Err(e) => Err(e)
      case Ok(clause) =>
        var num := tokens[|tokens| - 1];
        match ParseI32(num)
        case None => Err(NotANumber(num))
        case Some(val) => Ok(if val != 0 then clause + [val] else clause)
  }

  /** The error is the first token that is not a 32-bit integer, and there is one exactly when the clause fails. */
  lemma {:induction false} ClauseOfError(tokens: seq<string>)
    ensures ClauseOf(tokens).Err? <==> exists j :: 0 <= j < |tokens| && ParseI32(tokens[j]).None?
    ensures ClauseOf(tokens).Err? ==>
      exists j :: (0 <= j < |tokens| && ParseI32(tokens[j]).None?
        && ClauseOf(tokens).error == NotANumber(tokens[j])
        && forall i :: 0 <= i < j ==> ParseI32(tokens[i]).Some?)
    decreases |tokens|
  {
    if tokens != [] {
      var init := tokens[..|tokens| - 1];
      ClauseOfError(init);
      assert forall i :: 0 <= i < |init| ==> init[i] == tokens[i];
      if ClauseOf(init).Ok? && exists j :: 0 <= j < |init| && ParseI32(init[j]).None? {
        assert false;
      }
    }
  }

  /** A clause line's tokens, parsed one at a time. */
  method ParseClauseLine(splits: seq<string>) returns (r: Result<seq<int>, ParseError>)
    ensures r == ClauseOf(splits)
  {
    var clause: seq<int> := [];
    for k := 0 to |splits|
      invariant ClauseOf(splits[..k]) == Ok(clause)
    {
      var num := splits[k];
      assert splits[..k + 1][..k] == splits[..k];
      var parsedNum := ParseI32(num);
      match parsedNum {
        case Some(val) =>
          if val != 0 {
            clause := clause + [val];
          }
        case None =>
          ClauseOfErrorSticks(splits, k + 1);
          return Err(NotANumber(num));
      }
    }
    assert splits[..|splits|] == splits;
    return Ok(clause);
  }

  /** Once a prefix of the tokens fails, the whole line fails with the same error. */
  lemma {:induction false} ClauseOfErrorSticks(tokens: seq<string>, k: nat)
    requires k <= |tokens| && ClauseOf(tokens[..k]).Err?
    ensures ClauseOf(tokens) == ClauseOf(tokens[..k])
    decreases |tokens| - k
  {
    if k < |tokens| {
      assert tokens[..k + 1][..k] == tokens[..k];
      ClauseOfErrorSticks(tokens, k + 1);
    } else {
      assert tokens[..k] == tokens;
    }
  }

  /** Each token parses as the literal at the same position, and no literal is 0. */
  predicate ParsedAs(tokens: seq<string>, lits: seq<int>) {
    |tokens| == |lits| && forall k :: 0 <= k < |lits| ==> ParseI32(tokens[k]) == Some(lits[k]) && lits[k] != 0
  }

  /** Tokens that parse one by one to nonzero literals form the clause of those literals. */
  lemma {:induction false} ClauseOfParsed(tokens: seq<string>, lits: seq<int>)
    requires ParsedAs(tokens, lits)
    ensures ClauseOf(tokens) == Ok(lits)
    decreases |lits|
  {
    if lits != [] {
      ParsedAsInit(tokens, lits);
      ClauseOfParsed(tokens[..|tokens| - 1], lits[..|lits| - 1]);
      ClauseOfStep(tokens, lits[..|lits| - 1], lits[|lits| - 1]);
      assert lits[..|lits| - 1] + [lits[|lits| - 1]] == lits;
    }
  }

  lemma ParsedAsInit(tokens: seq<string>, lits: seq<int>)
    requires ParsedAs(tokens, lits) && lits != []
    ensures ParsedAs(tokens[..|tokens| - 1], lits[..|lits| - 1])
    ensures ParseI32(tokens[|tokens| - 1]) == Some(lits[|lits| - 1]) && lits[|lits| - 1] != 0
  {
    var front := tokens[..|tokens| - 1];
    var init := lits[..|lits| - 1];
    assert forall k :: 0 <= k < |init| ==> front[k] == tokens[k] && init[k] == lits[k];
  }

  /** One more token: its value is appended unless it is 0. */
  lemma ClauseOfStep(tokens: seq<string>, clause: seq<int>, v: int)
    requires tokens != [] && ClauseOf(tokens[..|tokens| - 1]) == Ok(clause)
    requires ParseI32(tokens[|tokens| - 1]) == Some(v)
    ensures ClauseOf(tokens) == Ok(if v != 0 then clause + [v] else clause)
  {
  }

  /** Printing 32-bit nonzero literals and parsing the tokens back gives the literals. */
  lemma ClauseOfTexts(lits: seq<int>)
    requires forall k :: 0 <= k < |lits| ==> Lit32(lits[k])
    ensures ClauseOf(Texts(lits)) == Ok(lits)
  {
    var tokens := Texts(lits);
    forall k | 0 <= k < |lits| ensures ParseI32(tokens[k]) == Some(lits[k]) {
      ParseIntToString(lits[k]);
    }
    ClauseOfParsed(tokens, lits);
  }

  /** The `p` line: four fields, the tag `cnf`, then the two counts as `usize`. */
  function HeaderOf(splits: seq<string>): (k: LineKind)
    ensures k.Header? || k.Bad?
  {
    if |splits| != 4 then Bad(BadHeaderFormat)
    else if splits[1] != "cnf" then Bad(NotCnf)
    else
      match ParseUsize(splits[2])
      case None => Bad(VarCountNotNumber)
      case Some(n) =>
        match ParseUsize(splits[3])
        case None => Bad(ClauseCountNotNumber)
        case Some(m) => Header(n, m)
  }

  /** A line the source reads without a panic: it is not empty, and one it splits has a token. */
  predicate LineReadable(line: string) {
    line != [] && (line[0] != 'c' && line[0] != '%' ==> Split(line) != [])
  }

  /** What `parse_input` makes of one line. */
  function ClassifyLine(line: string): LineKind
    requires LineReadable(line)
  {
    if line[0] == 'c' then Comment
    else if line[0] == '%' then End
    else
      var splits := Split(line);
      if splits[0] == "p" then HeaderOf(splits)
      else
        match ClauseOf(splits)
        case Ok(clause) => Literals(clause)
        case Err(e) => Bad(e)
  }

  /** Every line read before the input ends (at a `%` line or an error) is readable. */
  predicate Readable(lines: seq<string>)
    decreases |lines|
  {
    lines == []
    || (LineReadable(lines[0])
        && (ClassifyLine(lines[0]).End? || ClassifyLine(lines[0]).Bad? || Readable(lines[1..])))
  }

  /** `parse_input` from formula `f` on. */
  function ParseFrom(lines: seq<string>, f: Formula): Result<Formula, ParseError>
    requires Readable(lines)
    decreases |lines|
  {
    if lines == [] then Ok(f)
    else
      match ClassifyLine(lines[0])
      case Comment => ParseFrom(lines[1..], f)
      case End => Ok(f)
      case Header(n, m) => ParseFrom(lines[1..], f.(vars := n, activity := seq(n * 2, _ => 0.0), clauses := m))
      case Literals(clause) => ParseFrom(lines[1..], f.(clauselist := f.clauselist + [Clause(clause)]))
      case Bad(e) => Err(e)
  }

  function Parse(lines: seq<string>): Result<Formula, ParseError>
    requires Readable(lines)
  {
    ParseFrom(lines, EMPTY)
  }

  /** The formula a state holds. */
  function Snapshot(s: SolverState): Formula
    reads s
  {
    Formula(s.clauselist, s.vars, s.activitylist, s.clauses)
  }

  /** `parse_input`: fill a fresh state line by line through its setters. */
  method ParseInput(lines: seq<string>) returns (r: Result<SolverState, ParseError>)
    requires Readable(lines)
    ensures r.Err? ==> Parse(lines) == Err(r.error)
    ensures r.Ok? ==> fresh(r.value) && r.value.movelist == [] && Parse(lines) == Ok(Snapshot(r.value))
  {
    var initialState := new SolverState();
    for k := 0 to |lines|
      invariant fresh(initialState) && initialState.movelist == []
      invariant Readable(lines[k..])
      invariant ParseFrom(lines[k..], Snapshot(initialState)) == Parse(lines)
    {
      var line := lines[k];
      ghost var rest := lines[k..];
      assert rest[0] == line && rest[1..] == lines[k + 1..];
      if line[0] == 'c' {
        continue;
      }

      if line[0] == '%' {
        return Ok(initialState);
      }

      var splits := Split(line);

      if splits[0] == "p" {
        if |splits| != 4 {
          return Err(BadHeaderFormat);
        }

        if splits[1] != "cnf" {
          return Err(NotCnf);
        }

        var parsedVariables := ParseUsize(splits[2]);
        match parsedVariables {
          case Some(val) =>
            initialState.SetVars(val);
            var activityVec := seq(val * 2, _ => 0.0);
            initialState.SetActivity(activityVec);
          case None =>
            return Err(VarCountNotNumber);
        }

        var parsedClauses := ParseUsize(splits[3]);
        match parsedClauses {
          case Some(val) =>
            initialState.SetClauses(val);
          case None =>
            return Err(ClauseCountNotNumber);
        }
        continue;
      }
      var clause := ParseClauseLine(splits);
      if clause.Err? {
        return Err(clause.error);
      }
      initialState.AddClause(Clause(clause.value));
    }

    return Ok(initialState);
  }

  // ----- Properties of the line format -----

  /** Parsing keeps `2 * vars` zero activity slots whenever it starts with them. */
  lemma {:induction false} ParsedActivityIsZero(lines: seq<string>, f: Formula)
    requires Readable(lines) && ParseFrom(lines, f).Ok?
    requires |f.activity| == 2 * f.vars && forall i :: 0 <= i < |f.activity| ==> f.activity[i] == 0.0
    ensures var g := ParseFrom(lines, f).value;
      |g.activity| == 2 * g.vars && forall i :: 0 <= i < |g.activity| ==> g.activity[i] == 0.0
    decreases |lines|
  {
    if lines != [] {
      match ClassifyLine(lines[0])
      case Comment => ParsedActivityIsZero(lines[1..], f);
      case End =>
      case Header(n, m) =>
        ParsedActivityIsZero(lines[1..], f.(vars := n, activity := seq(n * 2, _ => 0.0), clauses := m));
      case Literals(clause) =>
        ParsedActivityIsZero(lines[1..], f.(clauselist := f.clauselist + [Clause(clause)]));
    }
  }

  /** Parsing only appends clauses: the ones already there stay, in order, and every new literal is a nonzero `i32`. */
  lemma {:induction false} ParseAppendsClauses(lines: seq<string>, f: Formula)
    requires Readable(lines) && ParseFrom(lines, f).Ok?
    ensures var g := ParseFrom(lines, f).value;
      && |f.clauselist| <= |g.clauselist| && g.clauselist[..|f.clauselist|] == f.clauselist
      && forall i, k :: |f.clauselist| <= i < |g.clauselist| && 0 <= k < |g.clauselist[i].vars|
           ==> Lit32(g.clauselist[i].vars[k])
    decreases |lines|
  {
    if lines != [] {
      match ClassifyLine(lines[0])
      case Comment => ParseAppendsClauses(lines[1..], f);
      case End =>
      case Header(n, m) =>
        ParseAppendsClauses(lines[1..], f.(vars := n, activity := seq(n * 2, _ => 0.0), clauses := m));
      case Literals(clause) =>
        var f' := f.(clauselist := f.clauselist + [Clause(clause)]);
        ParseAppendsClauses(lines[1..], f');
        var g := ParseFrom(lines[1..], f').value;
        assert g.clauselist[..|f'.clauselist|][..|f.clauselist|] == g.clauselist[..|f.clauselist|];
        assert g.clauselist[|f.clauselist|] == Clause(clause);
    }
  }

  /**
   * A `p` line carries no memory of an earlier one: a header followed, after
   * any comment and clause lines, by another header has no effect, since the
   * second overwrites all it set (`header_initialized` is never set).
   */
  lemma SecondHeaderOverwrites(l1: string, rest: seq<string>, f: Formula)
    requires LineReadable(l1) && ClassifyLine(l1).Header?
    requires PassThenHeader(rest)
    ensures Readable([l1] + rest) && Readable(rest)
    ensures ParseFrom([l1] + rest, f) == ParseFrom(rest, f)
  {
    var lines := [l1] + rest;
    assert lines[0] == l1 && lines[1..] == rest;
    CountsForgotten(rest, Headed(l1, f), f);
    HeaderStep(lines, f);
  }

  /** What a header line does to the formula read so far: it resets both counts and the activity. */
  function Headed(line: string, f: Formula): (r: Formula)
    requires LineReadable(line) && ClassifyLine(line).Header?
    ensures r.clauselist == f.clauselist
  {
    var h := ClassifyLine(line);
    f.(vars := h.vars, activity := seq(h.vars * 2, _ => 0.0), clauses := h.clauses)
  }

  lemma HeaderStep(lines: seq<string>, f: Formula)
    requires lines != [] && LineReadable(lines[0]) && ClassifyLine(lines[0]).Header?
    requires Readable(lines[1..])
    ensures Readable(lines) && ParseFrom(lines, f) == ParseFrom(lines[1..], Headed(lines[0], f))
  {
  }

  /** What a comment or clause line does to the formula read so far. */
  function Pass(line: string, f: Formula): Formula
    requires LineReadable(line)
  {
    match ClassifyLine(line)
    case Literals(clause) => f.(clauselist := f.clauselist + [Clause(clause)])
    case _ => f
  }

  lemma PassStep(lines: seq<string>, f: Formula)
    requires lines != [] && LineReadable(lines[0])
    requires ClassifyLine(lines[0]).Comment? || ClassifyLine(lines[0]).Literals?
    requires Readable(lines[1..])
    ensures Readable(lines) && ParseFrom(lines, f) == ParseFrom(lines[1..], Pass(lines[0], f))
  {
  }

  /** Comment and clause lines, then a header, then readable lines. */
  predicate PassThenHeader(lines: seq<string>)
    decreases |lines|
  {
    lines != [] && LineReadable(lines[0])
    && ((ClassifyLine(lines[0]).Header? && Readable(lines[1..]))
        || ((ClassifyLine(lines[0]).Comment? || ClassifyLine(lines[0]).Literals?) && PassThenHeader(lines[1..])))
  }

  /** Over comment and clause lines up to a header, two formulas with the same clauses end up the same. */
  lemma {:induction false} CountsForgotten(lines: seq<string>, f: Formula, g: Formula)
    requires PassThenHeader(lines)
    requires f.clauselist == g.clauselist
    ensures Readable(lines)
    ensures ParseFrom(lines, f) == ParseFrom(lines, g)
    decreases |lines|
  {
    if ClassifyLine(lines[0]).Header? {
      HeaderStep(lines, f);
      HeaderStep(lines, g);
      assert Headed(lines[0], f) == Headed(lines[0], g);
    } else {
      CountsForgotten(lines[1..], Pass(lines[0], f), Pass(lines[0], g));
      PassStep(lines, f);
      PassStep(lines, g);
    }
  }

  /** `p cnf N M`, the counts printed in decimal, reads back as a header with exactly those counts. */
  lemma HeaderLine(n: nat, m: nat)
    requires n <= USIZE_MAX && m <= USIZE_MAX
    ensures var line := "p" + " " + ("cnf" + " " + (NatToString(n) + " " + NatToString(m)));
      LineReadable(line) && ClassifyLine(line) == Header(n, m)
  {
    var line := "p" + " " + ("cnf" + " " + (NatToString(n) + " " + NatToString(m)));
    HeaderSplit(NatToString(n), NatToString(m));
    ParseNatToString(n);
    ParseNatToString(m);
    assert line[0] == 'p';
  }

  lemma HeaderSplit(n: string, m: string)
    requires IsToken(n) && IsToken(m)
    ensures Split("p" + " " + ("cnf" + " " + (n + " " + m))) == ["p", "cnf", n, m]
  {
    var s2 := n + " " + m;
    var s1 := "cnf" + " " + s2;
    SplitLast(m);
    SplitWordThen(n, m);
    SplitWordThen("cnf", s2);
    SplitWordThen("p", s1);
  }

  /** A token, one blank, then the rest: the token is the first word. */
  lemma SplitWordThen(t: string, rest: string)
    requires IsToken(t)
    ensures Split(t + " " + rest) == [t] + Split(rest)
  {
    var tail := " " + rest;
    assert t + " " + rest == t + tail;
    WordOfToken(t, tail);
    assert (t + tail)[|t|..] == tail;
    assert tail[1..] == rest;
  }

  lemma SplitLast(t: string)
    requires IsToken(t)
    ensures Split(t) == [t]
  {
    WordOfToken(t, []);
    assert t + [] == t;
  }
}
