/**
 * A step of a scenario outline: a template whose name holds `<header>`
 * tokens, turned into concrete step invocations one example row at a time.
 * The step's multiline argument (a doc string or table) and the runtime's
 * step matcher live elsewhere; they are passed in as functions.
 */
module Steps {
  import opened Wrappers
  import opened RubyString
  import opened OrderedHash
  import opened Placeholders
  import opened Selection

  /** Indentation, in characters, put before the keyword when a step is printed. */
  const INDENT: nat := 2

  /** Where the step was written: `file:line`, and the line on its own. */
  datatype Location = Location(fileColonLine: string, line: nat)

  /** The step template; `A` is the type of its multiline argument. */
  datatype Step<A> = Step(
    language: string,
    location: Location,
    keyword: string,
    name: string,
    multilineArg: Option<A>)

  /** The result statuses a step can report. */
  datatype StepStatus = Passed | Failed | Undefined | Pending | Skipped

  /** An s-expression, the structure `to_sexp` builds from symbols, numbers, strings and lists. */
  datatype Sexp = Sym(symbol: string) | Num(n: int) | Str(s: string) | List(items: seq<Sexp>)

  /**
   * What the step needs from its multiline argument: a copy with the
   * placeholder tokens replaced (`arguments_replaced`), whether it holds a
   * text (`has_text?`), and its s-expression (`to_sexp`).
   */
  datatype MultilineOps<!A> = MultilineOps(
    argumentsReplaced: (A, Arguments) -> A,
    hasText: (A, string) -> bool,
    toSexp: A -> Sexp)

  /** A cell of an example row: its column in the row, which tells it apart from equal-valued cells, and its value. */
  datatype Cell = Cell(column: nat, value: Option<string>)

  /** An example row: its cells, alongside the header row of its table. */
  datatype RawRow = RawRow(headers: seq<string>, cells: seq<Cell>)

  /** An example row whose table gives a header cell for every column, each cell knowing its own column. */
  type Row = r: RawRow | |r.headers| == |r.cells| && forall i :: 0 <= i < |r.cells| ==> r.cells[i].column == i
    witness RawRow([], [])

  /** What the runtime's matcher does with one name: a match, none, or an exception. */
  datatype MatchResult<M> = Found(m: M) | NotFound | Errored(reason: string)

  /** The outcome of `first_match`: a step match, or the no-match marker for the step. */
  datatype FirstMatchResult<A, M> = StepMatch(m: M) | NoStepMatch(step: Step<A>, name: string)

  /** A step invocation: the step, its concrete name and argument, and the cells it used. */
  datatype StepInvocation<A> = StepInvocation(
    step: Step<A>,
    name: string,
    multilineArg: Option<A>,
    matchedCells: seq<Cell>)

  /** `Step.new`: a step without a language cannot be built. */
  function NewStep<A>(language: Option<string>, location: Location, keyword: string, name: string,
                      multilineArg: Option<A>): (r: Result<Step<A>>)
    ensures r.Failure? <==> language.None?
    ensures r.Failure? ==> r.error == "Language is required!"
    ensures r.Success? ==>
      r.value.language == language.value && r.value.location == location
      && r.value.keyword == keyword && r.value.name == name && r.value.multilineArg == multilineArg
  {
    if language.None? then Failure("Language is required!")
    else Success(Step(language.value, location, keyword, name, multilineArg))
  }

  /** A step on its own only appears inside a scenario outline, where it is never run. */
  function Status<A>(step: Step<A>): (r: StepStatus)
    ensures r == Skipped
  {
    Skipped
  }

  /** `step_invocation`: the template as it stands, using no cell. */
  function StepInvocationOf<A>(step: Step<A>): (r: StepInvocation<A>)
    ensures r.step == step && r.name == step.name && r.multilineArg == step.multilineArg
    ensures r.matchedCells == []
  {
    StepInvocation(step, step.name, step.multilineArg, [])
  }

  /** `cells.to_hash`: each column's header mapped to the row's value in that column. */
  function ToHash(row: Row): (r: Arguments)
    ensures KeysDistinct(r)
  {
    FromPairs(seq(|row.cells|, i requires 0 <= i < |row.cells| => (row.headers[i], row.cells[i].value)))
  }

  /** The header's token occurs in the step's name, or in its multiline argument when it has one. */
  predicate Uses<A>(ops: MultilineOps<A>, step: Step<A>, header: string)
  {
    Contains(step.name, Delimited(header))
    || (step.multilineArg.Some? && ops.hasText(step.multilineArg.value, Delimited(header)))
  }

  /** For each column, whether the step uses its header. */
  function UsedFlags<A>(ops: MultilineOps<A>, step: Step<A>, headers: seq<string>): (r: seq<bool>)
    ensures |r| == |headers|
    ensures forall i :: 0 <= i < |headers| ==> r[i] == Uses(ops, step, headers[i])
  {
    seq(|headers|, i requires 0 <= i < |headers| => Uses(ops, step, headers[i]))
  }

  /**
   * The cells `matched_cells` keeps: the cells at the columns whose header
   * the step uses, in row order.
   */
  function MatchedCellsOf<A>(ops: MultilineOps<A>, step: Step<A>, row: Row): (r: seq<Cell>)
    ensures var p := Positions(UsedFlags(ops, step, row.headers));
      |r| == |p| && forall k :: 0 <= k < |r| ==> r[k] == row.cells[p[k]]
    ensures forall k :: 0 <= k < |r| ==>
      r[k].column < |row.cells| && r[k] == row.cells[r[k].column] && Uses(ops, step, row.headers[r[k].column])
    ensures forall k, l :: 0 <= k < l < |r| ==> r[k].column < r[l].column
  {
    var flags := UsedFlags(ops, step, row.headers);
    SelectAtPositions(flags, row.cells);
    Select(flags, row.cells)
  }

  /** `matched_cells`: walks the row with a column counter, keeping the cells whose header is used. */
  method MatchedCells<A>(ops: MultilineOps<A>, step: Step<A>, row: Row) returns (kept: seq<Cell>)
    ensures kept == MatchedCellsOf(ops, step, row)
  {
    ghost var flags := UsedFlags(ops, step, row.headers);
    kept := [];
    var colIndex := 0;
    while colIndex < |row.cells|
      invariant 0 <= colIndex <= |row.cells|
      invariant kept == Select(flags[..colIndex], row.cells[..colIndex])
    {
      var headerCell := row.headers[colIndex];
      var delimited := Delimited(headerCell);
      SelectPrefix(flags, row.cells, colIndex);
      if Contains(step.name, delimited)
         || (step.multilineArg.Some? && ops.hasText(step.multilineArg.value, delimited)) {
        kept := kept + [row.cells[colIndex]];
      }
      colIndex := colIndex + 1;
    }
    assert flags[..colIndex] == flags;
    assert row.cells[..colIndex] == row.cells;
  }

  /** When no header's token occurs in the name and there is no multiline argument, no cell is used. */
  lemma NoTokenNothingKept<A>(ops: MultilineOps<A>, step: Step<A>, row: Row)
    requires forall i :: 0 <= i < |row.headers| ==> !Contains(step.name, Delimited(row.headers[i]))
    requires step.multilineArg.None?
    ensures MatchedCellsOf(ops, step, row) == []
  {
    SelectNone(UsedFlags(ops, step, row.headers), row.cells);
  }

  /** With no `<` in the name and no multiline argument, no cell is used. */
  lemma NoPlaceholdersNothingKept<A>(ops: MultilineOps<A>, step: Step<A>, row: Row)
    requires forall i :: 0 <= i < |step.name| ==> step.name[i] != '<'
    requires step.multilineArg.None?
    ensures MatchedCellsOf(ops, step, row) == []
  {
    forall i | 0 <= i < |row.headers| ensures !Contains(step.name, Delimited(row.headers[i])) {
      TokenAbsent(step.name, Delimited(row.headers[i]));
    }
    NoTokenNothingKept(ops, step, row);
  }

  /** The row's values, as a token-to-value mapping. */
  function RowArguments(row: Row): (r: Arguments)
    ensures KeysDistinct(r)
    ensures forall i :: 0 <= i < |r| ==> |r[i].0| >= 2 && r[i].0[0] == '<'
  {
    var h := ToHash(row);
    var r := DelimitArgumentNames(h);
    assert forall i :: 0 <= i < |r| ==> |r[i].0| >= 2 && r[i].0[0] == '<' by {
      forall i | 0 <= i < |r| ensures |r[i].0| >= 2 && r[i].0[0] == '<' {
        assert r[i].0 == Delimited(h[i].0);
      }
    }
    r
  }

  /** The step's name with one row's values put in place of the tokens. */
  function RowName<A>(step: Step<A>, row: Row): string
  {
    SubstituteAll(step.name, RowArguments(row))
  }

  /** The step invocation for one example row, as `step_invocation_from_cells` builds it. */
  function InvocationFromCells<A>(ops: MultilineOps<A>, step: Step<A>, row: Row): (r: StepInvocation<A>)
    ensures r.step == step
    ensures var args := RowArguments(row);
      r.name == SubstituteAll(step.name, args)
      && (r.multilineArg.None? <==> step.multilineArg.None?)
      && (r.multilineArg.Some? ==> r.multilineArg.value == ops.argumentsReplaced(step.multilineArg.value, args))
    ensures r.matchedCells == MatchedCellsOf(ops, step, row)
  {
    var args := RowArguments(row);
    var arg := if step.multilineArg.None? then None else Some(ops.argumentsReplaced(step.multilineArg.value, args));
    StepInvocation(step, SubstituteAll(step.name, args), arg, MatchedCellsOf(ops, step, row))
  }

  /**
   * `step_invocation_from_cells`: the used cells, then one token mapping
   * applied to both the name and the multiline argument.
   */
  method StepInvocationFromCells<A>(ops: MultilineOps<A>, step: Step<A>, row: Row) returns (inv: StepInvocation<A>)
    ensures inv == InvocationFromCells(ops, step, row)
  {
    var matchedCells := MatchedCells(ops, step, row);
    var delimitedArguments := DelimitArgumentNames(ToHash(row));
    var name := ReplaceNameArguments(step.name, delimitedArguments);
    var multilineArg := if step.multilineArg.None? then None
      else Some(ops.argumentsReplaced(step.multilineArg.value, delimitedArguments));
    inv := StepInvocation(step, name, multilineArg, matchedCells);
  }

  /** A row with no cells uses nothing and leaves the name as it is, like `step_invocation`. */
  lemma EmptyRowInvocation<A>(ops: MultilineOps<A>, step: Step<A>)
    ensures var r := InvocationFromCells(ops, step, RawRow([], []));
      r.name == StepInvocationOf(step).name
      && r.matchedCells == StepInvocationOf(step).matchedCells
      && (r.multilineArg.None? <==> StepInvocationOf(step).multilineArg.None?)
  {
    var row: Row := RawRow([], []);
    assert ToHash(row) == [];
    assert RowArguments(row) == [];
  }

  /** When no header's token occurs in the name, substitution leaves the name as it is. */
  lemma NoTokenNameUnchanged<A>(step: Step<A>, row: Row)
    requires forall i :: 0 <= i < |row.headers| ==> !Contains(step.name, Delimited(row.headers[i]))
    ensures RowName(step, row) == step.name
  {
    var ps := seq(|row.cells|, i requires 0 <= i < |row.cells| => (row.headers[i], row.cells[i].value));
    var h := ToHash(row);
    KeysFromPairs(ps);
    var args := RowArguments(row);
    forall i | 0 <= i < |args| ensures |args[i].0| > 0 && !Contains(step.name, args[i].0) {
      assert args[i].0 == Delimited(h[i].0);
      assert h[i].0 in Keys(ps);
    }
    SubstituteUnchanged(step.name, args);
  }

  /** With no `<` in the name, substitution leaves the name as it is. */
  lemma NameWithoutTokensUnchanged<A>(step: Step<A>, row: Row)
    requires forall i :: 0 <= i < |step.name| ==> step.name[i] != '<'
    ensures RowName(step, row) == step.name
  {
    forall i | 0 <= i < |row.headers| ensures !Contains(step.name, Delimited(row.headers[i])) {
      TokenAbsent(step.name, Delimited(row.headers[i]));
    }
    NoTokenNameUnchanged(step, row);
  }

  /** The row "count = 5" as a hash. */
  lemma CucumberHash()
    ensures ToHash(RawRow(["count"], [Cell(0, Some("5"))])) == [("count", Some("5"))]
  {
    var row: Row := RawRow(["count"], [Cell(0, Some("5"))]);
    var ps := seq(|row.cells|, i requires 0 <= i < |row.cells| => (row.headers[i], row.cells[i].value));
    assert ps == [("count", Some("5"))];
    FromDistinctPairs(ps);
  }

  /** A one-column row whose header the step uses is kept whole. */
  lemma SingleColumnUsed<A>(ops: MultilineOps<A>, step: Step<A>, row: Row)
    requires |row.cells| == 1 && Uses(ops, step, row.headers[0])
    ensures MatchedCellsOf(ops, step, row) == row.cells
  {
    var p := Positions(UsedFlags(ops, step, row.headers));
    assert 0 in p;
    assert forall k :: 0 <= k < |p| ==> p[k] == 0;
  }

  /** A name that is exactly one header's token uses that header and no other header of the same length. */
  lemma OwnTokenUsed<A>(ops: MultilineOps<A>, step: Step<A>, h: string, h': string)
    requires step.name == Delimited(h) && step.multilineArg.None?
    ensures Uses(ops, step, h)
    ensures h' != h && |h'| == |h| ==> !Uses(ops, step, h')
  {
    assert OccursAt(step.name, step.name, 0) by {
      assert step.name[0..|step.name|] == step.name;
    }
    if h' != h && |h'| == |h| {
      OtherTokenAbsent(h, h');
    }
  }

  /** In a two-column row where one column's header is used and the other's is not, that column's own cell is the only one kept. */
  lemma SoleUsedColumn<A>(ops: MultilineOps<A>, step: Step<A>, row: Row, i: nat)
    requires |row.cells| == 2 && i < 2
    requires Uses(ops, step, row.headers[i]) && !Uses(ops, step, row.headers[1 - i])
    ensures MatchedCellsOf(ops, step, row) == [row.cells[i]]
  {
    var flags := UsedFlags(ops, step, row.headers);
    forall j | 0 <= j < |flags| && j != i ensures !flags[j] {
      assert j == 1 - i;
    }
    SolePosition(flags, i);
  }

  /**
   * In a two-column row with distinct headers of one length, a name that is
   * exactly one header's token keeps that column's own cell and nothing else,
   * whatever the values of the cells.
   */
  lemma OwnTokenKeepsOwnCell<A>(ops: MultilineOps<A>, step: Step<A>, row: Row, i: nat)
    requires |row.cells| == 2 && i < 2
    requires row.headers[0] != row.headers[1] && |row.headers[0]| == |row.headers[1]|
    requires step.name == Delimited(row.headers[i]) && step.multilineArg.None?
    ensures MatchedCellsOf(ops, step, row) == [row.cells[i]]
    ensures MatchedCellsOf(ops, step, row)[0].column == i
  {
    OwnTokenUsed(ops, step, row.headers[i], row.headers[1 - i]);
    SoleUsedColumn(ops, step, row, i);
  }

  /**
   * Two columns holding the same value stay apart: with the row "a = 5, b = 5",
   * the name "<a>" keeps column a's own cell and the name "<b>" column b's.
   */
  lemma EqualValuesKeptApart<A>(ops: MultilineOps<A>, a: Step<A>, b: Step<A>)
    requires a.name == "<a>" && b.name == "<b>" && a.multilineArg.None? && b.multilineArg.None?
    ensures var row: Row := RawRow(["a", "b"], [Cell(0, Some("5")), Cell(1, Some("5"))]);
      MatchedCellsOf(ops, a, row) == [Cell(0, Some("5"))] && MatchedCellsOf(ops, b, row) == [Cell(1, Some("5"))]
  {
    var row: Row := RawRow(["a", "b"], [Cell(0, Some("5")), Cell(1, Some("5"))]);
    assert Delimited("a") == "<a>" && Delimited("b") == "<b>";
    OwnTokenKeepsOwnCell(ops, a, row, 0);
    OwnTokenKeepsOwnCell(ops, b, row, 1);
  }

  /** "I have <count> cucumbers" holds the token of the header "count". */
  lemma CucumberUsesCount<A>(ops: MultilineOps<A>, step: Step<A>)
    requires step.name == "I have <count> cucumbers"
    ensures Uses(ops, step, "count")
  {
    assert step.name == "I have " + Delimited("count") + " cucumbers";
    TokenPresent("I have ", Delimited("count"), " cucumbers");
  }

  /** "I have <count> cucumbers" uses the "count" column of the row "count = 5". */
  lemma CucumberCellUsed<A>(ops: MultilineOps<A>, step: Step<A>)
    requires step.name == "I have <count> cucumbers"
    ensures MatchedCellsOf(ops, step, RawRow(["count"], [Cell(0, Some("5"))])) == [Cell(0, Some("5"))]
  {
    var row: Row := RawRow(["count"], [Cell(0, Some("5"))]);
    CucumberUsesCount(ops, step);
    SingleColumnUsed(ops, step, row);
  }

  /** The row "count = 5" turns "I have <count> cucumbers" into "I have 5 cucumbers" and uses its cell. */
  lemma CucumberInvocation<A>(ops: MultilineOps<A>, step: Step<A>)
    requires step.name == "I have <count> cucumbers"
    ensures var r := InvocationFromCells(ops, step, RawRow(["count"], [Cell(0, Some("5"))]));
      r.name == "I have 5 cucumbers" && r.matchedCells == [Cell(0, Some("5"))]
  {
    CucumberHash();
    CucumberExample();
    CucumberCellUsed(ops, step);
  }

  /** The outcome of trying one row: its substituted name, given to the matcher with the template's name. */
  function Tried<A, M>(matcher: (string, string) -> MatchResult<M>, step: Step<A>, row: Row): MatchResult<M>
  {
    matcher(RowName(step, row), step.name)
  }

  /** The outcome of trying each row, in row order. */
  function Outcomes<A, M>(matcher: (string, string) -> MatchResult<M>, step: Step<A>, rows: seq<Row>)
    : (r: seq<MatchResult<M>>)
    ensures |r| == |rows| && forall i :: 0 <= i < |rows| ==> r[i] == Tried(matcher, step, rows[i])
  {
    seq(|rows|, i requires 0 <= i < |rows| => Tried(matcher, step, rows[i]))
  }

  /** The position of the first outcome that found a definition, or nil. */
  function FirstFound<M>(results: seq<MatchResult<M>>): (r: Option<nat>)
    ensures r.Some? ==>
      r.value < |results| && results[r.value].Found? && forall j :: 0 <= j < r.value ==> !results[j].Found?
    ensures r.None? ==> forall i :: 0 <= i < |results| ==> !results[i].Found?
  {
    if results == [] then None
    else if results[0].Found? then Some(0)
    else
      var rest := FirstFound(results[1..]);
      assert forall i :: 1 <= i < |results| ==> results[1..][i - 1] == results[i];
      if rest.Some? then Some(rest.value + 1) else None
  }

  /** The first found outcome is the one no earlier outcome precedes. */
  lemma FirstFoundAt<M>(results: seq<MatchResult<M>>, i: nat)
    requires i < |results| && results[i].Found?
    requires forall j :: 0 <= j < i ==> !results[j].Found?
    ensures FirstFound(results) == Some(i)
  {
  }

  /**
   * `first_match`: the result of the first row whose substituted name finds a
   * step definition (a matcher that raises counts as finding none), or the
   * no-match marker for the step's own name when no row does.
   */
  function FirstMatchOf<A, M>(matcher: (string, string) -> MatchResult<M>, step: Step<A>, rows: seq<Row>)
    : (r: FirstMatchResult<A, M>)
    ensures r.NoStepMatch? <==> forall i :: 0 <= i < |rows| ==> !Tried(matcher, step, rows[i]).Found?
    ensures r.NoStepMatch? ==> r.step == step && r.name == step.name
    ensures r.StepMatch? ==>
      exists i :: (0 <= i < |rows| && Tried(matcher, step, rows[i]) == Found(r.m)
        && forall j :: 0 <= j < i ==> !Tried(matcher, step, rows[j]).Found?)
  {
    var results := Outcomes(matcher, step, rows);
    var first := FirstFound(results);
    if first.Some? then StepMatch(results[first.value].m) else NoStepMatch(step, step.name)
  }

  /**
   * `first_match`: tries the rows in order and returns at the first match;
   * an exception from the matcher only moves on to the next row.
   */
  method FirstMatch<A, M>(matcher: (string, string) -> MatchResult<M>, step: Step<A>, rows: seq<Row>)
    returns (r: FirstMatchResult<A, M>)
    ensures r == FirstMatchOf(matcher, step, rows)
  {
    ghost var results := Outcomes(matcher, step, rows);
    var i := 0;
    while i < |rows|
      invariant 0 <= i <= |rows|
      invariant forall j :: 0 <= j < i ==> !results[j].Found?
    {
      var argumentHash := ToHash(rows[i]);
      var delimitedArguments := DelimitArgumentNames(argumentHash);
      var nameToMatch := ReplaceNameArguments(step.name, delimitedArguments);
      var stepMatch := matcher(nameToMatch, step.name);
      assert stepMatch == results[i];
      if stepMatch.Found? {
        FirstFoundAt(results, i);
        return StepMatch(stepMatch.m);
      }
      i := i + 1;
    }
    return NoStepMatch(step, step.name);
  }

  /** Once a row matches, the rows after it are never consulted. */
  lemma FirstMatchIgnoresLaterRows<A, M>(matcher: (string, string) -> MatchResult<M>,
                                        step: Step<A>, rows: seq<Row>, later: seq<Row>)
    requires FirstMatchOf(matcher, step, rows).StepMatch?
    ensures FirstMatchOf(matcher, step, rows + later) == FirstMatchOf(matcher, step, rows)
  {
    var results, all := Outcomes(matcher, step, rows), Outcomes(matcher, step, rows + later);
    var i := FirstFound(results).value;
    assert forall j :: 0 <= j < |rows| ==> all[j] == results[j] by {
      assert forall j :: 0 <= j < |rows| ==> (rows + later)[j] == rows[j];
    }
    FirstFoundAt(all, i);
  }

  /** Rows that find nothing, or raise, are passed over as if they were not there. */
  lemma FirstMatchSkipsFailures<A, M>(matcher: (string, string) -> MatchResult<M>,
                                     step: Step<A>, failing: seq<Row>, rows: seq<Row>)
    requires forall i :: 0 <= i < |failing| ==> !Tried(matcher, step, failing[i]).Found?
    ensures FirstMatchOf(matcher, step, failing + rows) == FirstMatchOf(matcher, step, rows)
  {
    var results, all := Outcomes(matcher, step, rows), Outcomes(matcher, step, failing + rows);
    var n := |failing|;
    assert forall j :: 0 <= j < n ==> !all[j].Found? by {
      assert forall j :: 0 <= j < n ==> (failing + rows)[j] == failing[j];
    }
    assert forall j :: 0 <= j < |rows| ==> all[n + j] == results[j] by {
      assert forall j :: 0 <= j < |rows| ==> (failing + rows)[n + j] == rows[j];
    }
    var first := FirstFound(results);
    if first.Some? {
      FirstFoundAt(all, n + first.value);
    } else {
      forall j | 0 <= j < |all| ensures !all[j].Found? {
        if j >= n { assert all[n + (j - n)] == results[j - n]; }
      }
    }
  }

  /** Whether a matcher found a definition, and which one. */
  function FoundMatch<M>(r: MatchResult<M>): (o: Option<M>)
    ensures o.Some? <==> r.Found?
    ensures r.Found? ==> o.value == r.m
  {
    if r.Found? then Some(r.m) else None
  }

  /**
   * Only what the matcher finds matters: two matchers that find the same
   * definitions give the same result, whether the other rows raise or not.
   */
  lemma FirstMatchOnlyFound<A, M>(m1: (string, string) -> MatchResult<M>, m2: (string, string) -> MatchResult<M>,
                                 step: Step<A>, rows: seq<Row>)
    requires forall i :: 0 <= i < |rows| ==>
      FoundMatch(Tried(m1, step, rows[i])) == FoundMatch(Tried(m2, step, rows[i]))
    ensures FirstMatchOf(m1, step, rows) == FirstMatchOf(m2, step, rows)
  {
    var r1, r2 := Outcomes(m1, step, rows), Outcomes(m2, step, rows);
    assert forall i :: 0 <= i < |rows| ==>
      (r1[i].Found? <==> r2[i].Found?) && (r1[i].Found? ==> r1[i].m == r2[i].m) by {
      forall i | 0 <= i < |rows| ensures (r1[i].Found? <==> r2[i].Found?) && (r1[i].Found? ==> r1[i].m == r2[i].m) {
        assert FoundMatch(r1[i]) == FoundMatch(r2[i]);
      }
    }
    var first := FirstFound(r1);
    if first.Some? {
      FirstFoundAt(r2, first.value);
    }
  }

  /** For each element, whether it is present (not nil). */
  function Present<T>(xs: seq<Option<T>>): (r: seq<bool>)
    ensures |r| == |xs| && forall i :: 0 <= i < |xs| ==> r[i] == xs[i].Some?
  {
    seq(|xs|, i requires 0 <= i < |xs| => xs[i].Some?)
  }

  /** `compact`: the values of the present (non-nil) elements, in order. */
  function Compact<T>(xs: seq<Option<T>>): (r: seq<T>)
    ensures |r| <= |xs|
    ensures (forall i :: 0 <= i < |xs| ==> xs[i].Some?) ==>
      |r| == |xs| && forall i :: 0 <= i < |xs| ==> r[i] == xs[i].value
  {
    if xs == [] then []
    else
      var n := |xs| - 1;
      Compact(xs[..n]) + (if xs[n].Some? then [xs[n].value] else [])
  }

  /** `compact` of a non-empty list, and its non-nil positions, extend those of the list without its last element. */
  lemma CompactSnoc<T>(xs: seq<Option<T>>)
    requires xs != []
    ensures var n := |xs| - 1;
      && Compact(xs) == Compact(xs[..n]) + (if xs[n].Some? then [xs[n].value] else [])
      && Positions(Present(xs)) == Positions(Present(xs[..n])) + (if xs[n].Some? then [n] else [])
  {
    var n := |xs| - 1;
    assert Present(xs[..n]) == Present(xs)[..n];
  }

  /** `compact` keeps exactly the values at the non-nil positions, in their order. */
  lemma {:induction false} CompactAtPositions<T>(xs: seq<Option<T>>)
    ensures |Compact(xs)| == |Positions(Present(xs))|
    ensures forall k :: 0 <= k < |Compact(xs)| ==> Compact(xs)[k] == xs[Positions(Present(xs))[k]].value
  {
    if xs != [] {
      var n := |xs| - 1;
      CompactAtPositions(xs[..n]);
      CompactSnoc(xs);
      var c, p := Compact(xs[..n]), Positions(Present(xs[..n]));
      var C, P := Compact(xs), Positions(Present(xs));
      forall k | 0 <= k < |C| ensures C[k] == xs[P[k]].value {
        if k < |c| {
          assert C[k] == c[k] && P[k] == p[k];
          assert xs[..n][p[k]] == xs[p[k]];
        }
      }
    }
  }

  /** `to_sexp`: the tag, line, keyword and name, then the argument's form only when there is one. */
  function ToSexp<A>(ops: MultilineOps<A>, step: Step<A>): (r: Sexp)
    ensures r.List?
    ensures |r.items| == if step.multilineArg.Some? then 5 else 4
    ensures r.items[..4] == [Sym("step"), Num(step.location.line), Str(step.keyword), Str(step.name)]
    ensures step.multilineArg.Some? ==> r.items[4] == ops.toSexp(step.multilineArg.value)
  {
    var head := [Some(Sym("step")), Some(Num(step.location.line)), Some(Str(step.keyword)), Some(Str(step.name))];
    var arg := if step.multilineArg.None? then None else Some(ops.toSexp(step.multilineArg.value));
    assert (head + [arg])[..4] == head;
    List(Compact(head + [arg]))
  }

  /** `text_length`: code points of the keyword and of `name`, plus two indents. */
  function TextLength<A>(step: Step<A>, name: string): (r: nat)
    ensures r >= 2 * INDENT
  {
    INDENT + INDENT + |step.keyword| + |name|
  }

  /** Every character added to the name adds one to the text length. */
  lemma TextLengthAppend<A>(step: Step<A>, name: string, more: string)
    ensures TextLength(step, name + more) == TextLength(step, name) + |more|
  {
  }

  /** "Given " with the name "café" is 14 long: four indent, six keyword and four name code points. */
  lemma TextLengthExample<A>(step: Step<A>)
    requires step.keyword == "Given "
    ensures TextLength(step, "café") == 14
  {
  }

  /** `dom_id`: the step's `file:line` with every `/`, `.` and `:` turned into `_`. */
  function DomId<A>(step: Step<A>): (r: string)
    ensures var f := step.location.fileColonLine;
      |r| == |f| && forall i :: 0 <= i < |f| ==> r[i] == (if f[i] in "/.:" then '_' else f[i])
  {
    var f := step.location.fileColonLine;
    var a := ReplaceAll(f, "/", "_");
    var b := ReplaceAll(a, ".", "_");
    var c := ReplaceAll(b, ":", "_");
    ReplaceChar(f, '/', '_');
    ReplaceChar(a, '.', '_');
    ReplaceChar(b, ':', '_');
    c
  }

  /** A DOM id holds no `/`, `.` or `:`, and differs from `file:line` only where it holds `_`. */
  lemma DomIdClean<A>(step: Step<A>)
    ensures var r := DomId(step);
      forall i :: 0 <= i < |r| ==> r[i] != '/' && r[i] != '.' && r[i] != ':'
    ensures forall i :: 0 <= i < |DomId(step)| && DomId(step)[i] != step.location.fileColonLine[i] ==>
      DomId(step)[i] == '_'
  {
  }
}
