/**
 * The Sudoku front end of Source/CSP/Sudoku.cs: a puzzle of one of three kinds owns its CSP
 * and an assignment; the clue constructor of RegularSudoku writes the given cells into that
 * assignment, `GenerateSolution` hands it to a first-variable backtracking solver, `ToString`
 * draws it and `Equals` compares two drawings.
 *
 * A constructor that throws is modelled by `NewRegularSudoku`, which returns either the
 * puzzle or the exception it would have raised.
 */
module Sudokus {
  import opened Wrappers
  import opened Strings
  import opened Constraints
  import opened CspBase
  import opened Assignments
  import opened Solvers
  import opened Utilities
  import opened SudokuGrid
  import opened SudokuText

  /**
   * What the Sudoku code throws: an `ArgumentException` from the dimension check, the
   * `FormatException` of `int.Parse` on a character that is not a digit, or a plain `Exception`.
   */
  datatype SudokuException = ArgumentError(e: ArgumentException) | FormatError | Error(message: string)

  const TooFewCluesMessage: string := "Insufficient number of clues given."

  /** More than this many clues are needed (at least 17 clues are necessary for a unique solution). */
  const MaxInsufficientClues: nat := 16

  const TimeoutMessage: string := "Timed out after " + IntToString(TimeoutNumberOfSteps) + " steps."

  function NoSolutionMessage(steps: nat): string {
    "Couldn't find solution, even with " + IntToString(steps) + " steps."
  }

  /**
   * What `GenerateSolution` reports for the uncounted search `o`: the timeout message when
   * its calls pass the ceiling, otherwise the step count on success or the no-solution message.
   */
  function Reported(o: Run): Result<nat, SudokuException> {
    if o.calls > TimeoutNumberOfSteps then Failure(Error(TimeoutMessage))
    else if o.result == Solved then Success(o.calls)
    else Failure(Error(NoSolutionMessage(o.calls)))
  }

  /** A 9 by 9 array of values. */
  predicate IsNineByNine(rows: seq<seq<int>>) {
    |rows| == 9 && forall i :: 0 <= i < 9 ==> |rows[i]| == 9
  }

  /** The rows of an array whose rows are all present. */
  function PresentRows(arr: seq<Option<seq<int>>>): (rows: seq<seq<int>>)
    requires forall i :: 0 <= i < |arr| ==> arr[i].Some?
    ensures |rows| == |arr| && forall i :: 0 <= i < |arr| ==> arr[i] == Some(rows[i])
  {
    seq(|arr|, i requires 0 <= i < |arr| => arr[i].value)
  }

  /**
   * The map the clue constructor writes from the first `n` cells in row-major order:
   * cell `(i, j)` becomes `CellName(i, j)` unless it holds `NoValue`.
   */
  function Clues(rows: seq<seq<int>>, n: nat): map<Variable, int>
    requires IsNineByNine(rows) && n <= 81
  {
    if n == 0 then map[]
    else
      var i, j := (n - 1) / 9, (n - 1) % 9;
      var m := Clues(rows, n - 1);
      if rows[i][j] == NoValue then m else m[CellName(i, j) := rows[i][j]]
  }

  /** How many of the first `n` cells hold a clue. */
  function ClueCount(rows: seq<seq<int>>, n: nat): nat
    requires IsNineByNine(rows) && n <= 81
  {
    if n == 0 then 0
    else ClueCount(rows, n - 1) + if rows[(n - 1) / 9][(n - 1) % 9] == NoValue then 0 else 1
  }

  /** The clue map and count after cell `(i, j)`, the `n`-th in row-major order, from those before it. */
  lemma CluesNext(rows: seq<seq<int>>, n: nat, i: nat, j: nat)
    requires IsNineByNine(rows) && i < 9 && j < 9 && n == 9 * i + j
    ensures Clues(rows, n + 1) ==
              if rows[i][j] == NoValue then Clues(rows, n)
              else Clues(rows, n)[CellName(i, j) := rows[i][j]]
    ensures ClueCount(rows, n + 1) == ClueCount(rows, n) + if rows[i][j] == NoValue then 0 else 1
  {
    assert n / 9 == i && n % 9 == j;
  }

  /** Row-major positions of a 9-column array are distinct. */
  lemma PositionInjective(i: nat, j: nat, i': nat, j': nat)
    requires j < 9 && j' < 9 && 9 * i + j == 9 * i' + j'
    ensures i == i' && j == j'
  {
  }

  /** Cell `(i, j)` is in the clue map of the first `n` cells exactly when it is one of them and holds a clue. */
  lemma {:induction false} CluesAt(rows: seq<seq<int>>, n: nat, i: nat, j: nat)
    requires IsNineByNine(rows) && n <= 81 && i < 9 && j < 9
    ensures CellName(i, j) in Clues(rows, n) <==> 9 * i + j < n && rows[i][j] != NoValue
    ensures CellName(i, j) in Clues(rows, n) ==> Clues(rows, n)[CellName(i, j)] == rows[i][j]
  {
    if n > 0 {
      CluesAt(rows, n - 1, i, j);
      var i0, j0 := (n - 1) / 9, (n - 1) % 9;
      CellNameInjective(i, j, i0, j0);
      if 9 * i + j == n - 1 {
        PositionInjective(i, j, i0, j0);
      }
    }
  }

  /** Every key of the clue map names a cell of the grid. */
  lemma {:induction false} CluesKeys(rows: seq<seq<int>>, n: nat, v: Variable)
    requires IsNineByNine(rows) && n <= 81 && v in Clues(rows, n)
    ensures exists i, j :: 0 <= i < 9 && 0 <= j < 9 && v == CellName(i, j)
  {
    var i0, j0 := (n - 1) / 9, (n - 1) % 9;
    if v != CellName(i0, j0) {
      CluesKeys(rows, n - 1, v);
    }
  }

  /** The clue count is the number of cells in the clue map. */
  lemma {:induction false} ClueCountSize(rows: seq<seq<int>>, n: nat)
    requires IsNineByNine(rows) && n <= 81
    ensures ClueCount(rows, n) == |Clues(rows, n)|
  {
    if n > 0 {
      ClueCountSize(rows, n - 1);
      var i0, j0 := (n - 1) / 9, (n - 1) % 9;
      CluesAt(rows, n - 1, i0, j0);
    }
  }

  /**
   * What the clue constructor writes: exactly the cells holding something other than
   * `NoValue`, each under its cell name with its value; and it counts them.
   */
  lemma CluesSpec(rows: seq<seq<int>>)
    requires IsNineByNine(rows)
    ensures forall i, j :: 0 <= i < 9 && 0 <= j < 9 ==>
              (CellName(i, j) in Clues(rows, 81) <==> rows[i][j] != NoValue)
    ensures forall i, j :: 0 <= i < 9 && 0 <= j < 9 && CellName(i, j) in Clues(rows, 81) ==>
              Clues(rows, 81)[CellName(i, j)] == rows[i][j]
    ensures forall v :: v in Clues(rows, 81) ==> exists i, j :: 0 <= i < 9 && 0 <= j < 9 && v == CellName(i, j)
    ensures ClueCount(rows, 81) == |Clues(rows, 81)|
  {
    forall i, j | 0 <= i < 9 && 0 <= j < 9
      ensures CellName(i, j) in Clues(rows, 81) <==> rows[i][j] != NoValue
      ensures CellName(i, j) in Clues(rows, 81) ==> Clues(rows, 81)[CellName(i, j)] == rows[i][j]
    {
      CluesAt(rows, 81, i, j);
    }
    forall v | v in Clues(rows, 81)
      ensures exists i, j :: 0 <= i < 9 && 0 <= j < 9 && v == CellName(i, j)
    {
      CluesKeys(rows, 81, v);
    }
    ClueCountSize(rows, 81);
  }

  /** The loops of the base constructor: every variable of every row gets the domain. */
  method DomainsOf(grid: Grid, domain: seq<int>) returns (variableDomains: map<Variable, seq<int>>)
    ensures forall v :: v in variableDomains <==> v in Cells(grid)
    ensures forall v :: v in variableDomains ==> variableDomains[v] == domain
  {
    variableDomains := map[];
    var i := 0;
    while i < |grid|
      invariant 0 <= i <= |grid|
      invariant forall v :: v in variableDomains <==> v in Cells(grid[..i])
      invariant forall v :: v in variableDomains ==> variableDomains[v] == domain
    {
      var row := grid[i];
      var j := 0;
      while j < |row|
        invariant 0 <= j <= |row|
        invariant forall v :: v in variableDomains <==> v in Cells(grid[..i]) || v in row[..j]
        invariant forall v :: v in variableDomains ==> variableDomains[v] == domain
      {
        assert row[..j + 1] == row[..j] + [row[j]];
        variableDomains := variableDomains[row[j] := domain];
        j := j + 1;
      }
      assert row[..j] == row;
      CellsPrefix(grid, i);
      i := i + 1;
    }
    assert grid[..i] == grid;
  }

  /** The constraints of a kind as its getter builds them; the regular one by its loops. */
  method ConstraintsFor(kind: Kind) returns (constraints: seq<Constraint>)
    ensures constraints == ConstraintsOf(kind)
  {
    if kind == Regular {
      constraints := BuildRegularConstraints(RegularGrid());
    } else {
      constraints := ConstraintsOf(kind);
    }
  }

  /**
   * The state the base constructor leaves and nothing afterwards changes: the kind's grid and
   * domain, the domain for every cell and no other variable, and the CSP built from them.
   */
  ghost predicate Wellformed(kind: Kind, grid: Grid, domain: seq<int>, doms: map<Variable, seq<int>>, csp: Csp) {
    && grid == GridOf(kind) && domain == Domain(kind)
    && (forall v :: v in doms <==> v in Cells(grid))
    && (forall v :: v in doms ==> doms[v] == domain)
    && csp == Csp(Cells(grid), doms, ConstraintsOf(kind))
    && csp.Valid()
  }

  /** A kind's CSP, over a map giving each of its cells the kind's domain, is well formed. */
  lemma KindWellformed(kind: Kind, grid: Grid, domain: seq<int>, doms: map<Variable, seq<int>>, csp: Csp)
    requires grid == GridOf(kind) && domain == Domain(kind)
    requires forall v :: v in doms <==> v in Cells(grid)
    requires forall v :: v in doms ==> doms[v] == domain
    requires csp == Csp(Cells(grid), doms, ConstraintsOf(kind))
    ensures Wellformed(kind, grid, domain, doms, csp)
  {
    GridCellsDistinct(kind);
    CellsCspValid(grid, doms, ConstraintsOf(kind));
  }

  /** The search `GenerateSolution` runs: a fresh first-variable solver on `a`, its outcome and its step count. */
  method Search(csp: Csp, a: Assignment) returns (result: SolveResult, steps: nat)
    requires a.Valid() && a.csp == csp
    modifies a`values
    ensures 1 <= steps <= StepsFrom(csp, old(a.values))
    ensures result == Timeout <==> steps > TimeoutNumberOfSteps
    ensures SoundExtension(csp, old(a.values), a.values)
    ensures result == Solved ==> IsSolution(csp, old(a.values), a.values)
    ensures result == NoSolution ==> a.values == old(a.values) && forall e :: !IsSolution(csp, old(a.values), e)
    ensures Follows(0, Backtrack(csp, old(a.values)), result, a.values, steps)
  {
    var solver := new RecursiveBacktrackingSolver(ChooseFirst);
    result := solver.Solve(csp, a);
    steps := solver.numberOfSteps;
  }

  class Sudoku {
    const kind: Kind
    /** `Grid` and `Domain`: get-only properties of each sealed subclass. */
    const grid: Grid
    const domain: seq<int>
    /** `VariableDomains` and `Csp`: set by the base constructor and never reassigned. */
    const variableDomains: map<Variable, seq<int>>
    const csp: Csp
    /** `Assignment`: set to null when `GenerateSolution` finds no solution. */
    var assignment: Assignment?

    ghost predicate Valid()
      reads this, (if assignment != null then {assignment} else {})`variableDomains
    {
      && Wellformed(kind, grid, domain, variableDomains, csp)
      && (assignment != null ==> assignment.Valid() && assignment.csp == csp)
    }

    /**
     * The base constructor: give every grid variable the kind's domain, row by row, build the
     * CSP from that map and the kind's constraints, and start from an empty assignment.
     */
    constructor (kind: Kind)
      ensures Valid() && this.kind == kind
      ensures assignment != null && fresh(assignment) && assignment.values == map[]
    {
      var g := GridOf(kind);
      var d := Domain(kind);
      var doms := DomainsOf(g, d);
      var constraints := ConstraintsFor(kind);
      this.kind := kind;
      grid := g;
      domain := d;
      variableDomains := doms;
      csp := Csp(Cells(g), doms, constraints);
      new;
      KindWellformed(kind, grid, domain, variableDomains, csp);
      assignment := new Assignment(csp);
    }

    /**
     * `GenerateSolution`: run a fresh first-variable backtracking solver on the puzzle's own
     * assignment. On success the assignment is kept and the step count returned; when the
     * search is exhausted the assignment becomes null; a timeout leaves it as the search left it.
     */
    method GenerateSolution() returns (r: Result<nat, SudokuException>)
      requires Valid() && assignment != null
      modifies this`assignment, assignment`values
      ensures Valid()
      ensures r.Success? ==> assignment == old(assignment)
      ensures r.Success? ==> IsSolution(csp, old(assignment.values), assignment.values)
      ensures r.Success? ==> 1 <= r.value <= TimeoutNumberOfSteps
      ensures r.Success? ==> r.value <= StepsFrom(csp, old(assignment.values))
      ensures r.Failure? && assignment == null ==>
                && old(assignment).values == old(assignment.values)
                && (forall e :: !IsSolution(csp, old(assignment.values), e))
                && exists n :: 1 <= n <= TimeoutNumberOfSteps && n <= StepsFrom(csp, old(assignment.values)) &&
                               r.error == Error(NoSolutionMessage(n))
      ensures r.Failure? && assignment != null ==>
                && assignment == old(assignment)
                && StepsFrom(csp, old(assignment.values)) > TimeoutNumberOfSteps
                && SoundExtension(csp, old(assignment.values), assignment.values)
                && r.error == Error(TimeoutMessage)
      ensures r == Reported(Backtrack(csp, old(assignment.values)))
      ensures r.Success? ==> assignment.values == Backtrack(csp, old(assignment.values)).values
    {
      var result, steps := Search(csp, assignment);
      match result {
        case Solved =>
          r := Success(steps);
        case NoSolution =>
          assignment := null;
          r := Failure(Error(NoSolutionMessage(steps)));
          assert 1 <= steps <= TimeoutNumberOfSteps && r.error == Error(NoSolutionMessage(steps));
        case Timeout =>
          r := Failure(Error(TimeoutMessage));
      }
    }

    /**
     * `ToString`: for every row a space, then each cell as its value or `.` followed by a
     * space, `| ` after the third and sixth cell, a line break, and the separator line after
     * the third and sixth row.
     */
    method ToString() returns (s: string)
      requires assignment != null
      ensures s == Render(grid, assignment.values)
    {
      var m := assignment.values;
      var sb := "";
      var gridRowNumber := 0;
      while gridRowNumber < |grid|
        invariant 0 <= gridRowNumber <= |grid|
        invariant sb == JoinLines(RenderLines(grid, m, gridRowNumber))
      {
        var row := grid[gridRowNumber];
        var lines := RenderLines(grid, m, gridRowNumber);
        gridRowNumber := gridRowNumber + 1;
        sb := sb + " ";
        ghost var head := sb;
        var gridColumnNumber := 0;
        while gridColumnNumber < |row|
          invariant 0 <= gridColumnNumber <= |row|
          invariant sb == head + RowCells(row, m, gridColumnNumber)
        {
          var variable := row[gridColumnNumber];
          gridColumnNumber := gridColumnNumber + 1;
          var cell: string;
          if variable in m {
            cell := IntToString(m[variable]) + " ";
          } else {
            cell := ". ";
          }
          assert cell == CellText(m, variable);
          if gridColumnNumber % 3 == 0 && gridColumnNumber < 9 {
            cell := cell + "| ";
          }
          ghost var cells := RowCells(row, m, gridColumnNumber - 1);
          assert RowCells(row, m, gridColumnNumber) == cells + cell;
          ConcatAssociative(head, cells, cell);
          sb := sb + cell;
        }
        sb := sb + "\n";
        if gridRowNumber % 3 == 0 && gridRowNumber < 9 {
          sb := sb + "-------|-------|-------\n";
        }
        RenderLinesStep(grid, m, gridRowNumber);
      }
      return sb;
    }

    /** `Equals`: another puzzle of the same kind whose drawing is the same text. */
    predicate Equals(other: Sudoku?): (r: bool)
      reads this, assignment, other, if other != null then {other.assignment} else {}
      requires assignment != null
      requires other != null && other.kind == kind ==> other.assignment != null
      ensures r ==> other != null && other.kind == kind
      ensures other == this ==> r
    {
      if other == null || other.kind != kind then false
      else Render(other.grid, other.assignment.values) == Render(grid, assignment.values)
    }
  }

  lemma ConcatAssociative(a: string, b: string, c: string)
    ensures (a + b) + c == a + (b + c)
  {
  }

  /**
   * With one-digit values, `Equals` holds exactly when the other puzzle is of the same kind
   * and has the same cells assigned, with the same values.
   */
  lemma EqualsIffSameCells(s: Sudoku, t: Sudoku?)
    requires s.Valid() && s.assignment != null && DigitValued(s.grid, s.assignment.values)
    requires t != null ==> t.Valid()
    requires t != null && t.kind == s.kind ==> t.assignment != null && DigitValued(t.grid, t.assignment.values)
    ensures s.Equals(t) <==>
      t != null && t.kind == s.kind && SameCells(s.grid, s.assignment.values, t.assignment.values)
  {
    if t != null && t.kind == s.kind {
      RenderInjective(s.grid, s.assignment.values, t.assignment.values);
    }
  }

  /**
   * A puzzle with a blank cell is not equal to a puzzle of the same kind whose every cell is
   * filled: an unsolved problem never equals its solution.
   */
  lemma IncompleteNotEqualComplete(problem: Sudoku, solution: Sudoku, i: nat, j: nat)
    requires problem.Valid() && problem.assignment != null && DigitValued(problem.grid, problem.assignment.values)
    requires solution.Valid() && solution.kind == problem.kind && solution.assignment != null
    requires DigitValued(solution.grid, solution.assignment.values)
    requires AllAssigned(solution.csp.variables, solution.assignment.values)
    requires i < |problem.grid| && j < |problem.grid[i]| && problem.grid[i][j] !in problem.assignment.values
    ensures !problem.Equals(solution) && !solution.Equals(problem)
  {
    CellsMembership(problem.grid, problem.grid[i][j]);
    EqualsIffSameCells(problem, solution);
    EqualsIffSameCells(solution, problem);
  }

  /** The cells of one more row. */
  lemma CellsPrefix(g: Grid, i: nat)
    requires i < |g|
    ensures Cells(g[..i + 1]) == Cells(g[..i]) + g[i]
  {
    assert g[..i + 1] == g[..i] + [g[i]];
    CellsAppend(g[..i], [g[i]]);
    assert Cells([g[i]]) == g[i] + Cells([]);
  }

  /** A CSP over the cells of a grid without repeated names, with one domain per cell, is well formed. */
  lemma CellsCspValid(g: Grid, doms: map<Variable, seq<int>>, cs: seq<Constraint>)
    requires DistinctCells(g)
    requires forall v :: v in doms <==> v in Cells(g)
    ensures Csp(Cells(g), doms, cs).Valid()
  {
    CellsDistinct(g);
  }

  /**
   * The double loop of the clue constructor: every cell of `rows` that is not `NoValue` is
   * assigned under its cell name, in row-major order, and the clues are counted.
   */
  method WriteClues(a: Assignment, rows: seq<seq<int>>) returns (numberOfCluesProvided: nat)
    requires IsNineByNine(rows) && a.values == map[]
    modifies a`values
    ensures a.values == Clues(rows, 81) && numberOfCluesProvided == ClueCount(rows, 81)
  {
    numberOfCluesProvided := 0;
    ghost var n := 0;
    var i := 0;
    while i < 9
      invariant 0 <= i <= 9 && n == 9 * i
      invariant a.values == Clues(rows, n)
      invariant numberOfCluesProvided == ClueCount(rows, n)
    {
      var j := 0;
      while j < 9
        invariant 0 <= j <= 9 && n == 9 * i + j
        invariant a.values == Clues(rows, n)
        invariant numberOfCluesProvided == ClueCount(rows, n)
      {
        CluesNext(rows, n, i, j);
        if rows[i][j] != NoValue {
          numberOfCluesProvided := numberOfCluesProvided + 1;
          var letter := ('a' as int + i) as char;
          var variable := [letter] + IntToString(j + 1);
          assert variable == CellName(i, j);
          a.Assign(variable, rows[i][j]);
        }
        j := j + 1;
        n := n + 1;
      }
      i := i + 1;
    }
  }

  /**
   * The clue constructor `RegularSudoku(int[][] initialValues)`: after the base constructor,
   * check that the array is 9 by 9, write every cell that is not `NoValue` into the assignment
   * under its cell name, and refuse the puzzle when at most 16 clues were given.
   */
  method NewRegularSudoku(initialValues: Option<seq<Option<seq<int>>>>) returns (r: Result<Sudoku, SudokuException>)
    ensures EnsureDimensions2D(initialValues, 9, 9).Fail? ==>
              r == Failure(ArgumentError(EnsureDimensions2D(initialValues, 9, 9).error))
    ensures EnsureDimensions2D(initialValues, 9, 9).Pass? ==>
              var rows := PresentRows(initialValues.value);
              && IsNineByNine(rows)
              && (r.Success? <==> ClueCount(rows, 81) > MaxInsufficientClues)
              && (r.Failure? ==> r.error == Error(TooFewCluesMessage))
              && (r.Success? ==> r.value.assignment != null && r.value.assignment.values == Clues(rows, 81))
    ensures r.Success? ==> fresh(r.value) && r.value.Valid() && r.value.kind == Regular
  {
    var sudoku := new Sudoku(Regular);
    var check := EnsureDimensions2D(initialValues, 9, 9);
    if check.Fail? {
      return Failure(ArgumentError(check.error));
    }
    var rows := PresentRows(initialValues.value);
    var numberOfCluesProvided := WriteClues(sudoku.assignment, rows);
    if numberOfCluesProvided <= MaxInsufficientClues {
      return Failure(Error(TooFewCluesMessage));
    }
    return Success(sudoku);
  }

  /**
   * `RegularSudoku(string filename)`: read the grid with `FromFile`, given the file's lines,
   * then run the clue constructor on it. A line that does not parse is a `FormatException`.
   */
  method NewRegularSudokuFromLines(lines: seq<string>) returns (r: Result<Sudoku, SudokuException>)
    ensures ParseGrid(lines).None? ==> r == Failure(FormatError)
    ensures ParseGrid(lines).Some? && IsNineByNine(ParseGrid(lines).value) ==>
              var rows := ParseGrid(lines).value;
              && (r.Success? <==> ClueCount(rows, 81) > MaxInsufficientClues)
              && (r.Success? ==> r.value.assignment != null && r.value.assignment.values == Clues(rows, 81))
    ensures ParseGrid(lines).Some? && !IsNineByNine(ParseGrid(lines).value) ==> r.Failure? && r.error.ArgumentError?
    ensures r.Success? ==> fresh(r.value) && r.value.Valid() && r.value.kind == Regular
  {
    var grid := FromFile(lines);
    if grid.None? {
      return Failure(FormatError);
    }
    var rows := grid.value;
    var arr := seq(|rows|, i requires 0 <= i < |rows| => Some(rows[i]));
    assert PresentRows(arr) == rows;
    r := NewRegularSudoku(Some(arr));
  }

  /**
   * Loading what `ToString` draws: for a regular puzzle whose values are all digits 1 to 9,
   * `FromFile` on the drawn lines gives a 9 by 9 grid whose clue map is the assignment itself,
   * and the clue count is the number of assigned cells.
   */
  lemma ReloadRendered(s: Sudoku)
    requires s.Valid() && s.kind == Regular && s.assignment != null
    requires forall v :: v in s.assignment.values ==> 1 <= s.assignment.values[v] <= 9
    requires forall v :: v in s.assignment.values ==> v in Cells(s.grid)
    ensures ParseGrid(RenderLines(s.grid, s.assignment.values, 9)).Some?
    ensures var rows := ParseGrid(RenderLines(s.grid, s.assignment.values, 9)).value;
            IsNineByNine(rows) && Clues(rows, 81) == s.assignment.values &&
            ClueCount(rows, 81) == |s.assignment.values|
  {
    ReloadGrid(s.grid, s.assignment.values);
  }

  /** The values drawn from a grid named like the regular one form a 9 by 9 array, cell by cell. */
  lemma ValueGridAt(g: Grid, m: map<Variable, int>, i: nat, j: nat)
    requires NamedGrid(g) && i < 9 && j < 9
    ensures IsNineByNine(ValueGrid(g, m, 9))
    ensures ValueGrid(g, m, 9)[i][j] == CellValue(m, CellName(i, j))
  {
  }

  /** Every assigned cell reappears in the clue map of the reloaded grid, with its value. */
  lemma ReloadKeyKept(g: Grid, m: map<Variable, int>, v: Variable)
    requires NamedGrid(g) && v in m && 1 <= m[v] <= 9 && v in Cells(g)
    ensures IsNineByNine(ValueGrid(g, m, 9))
    ensures v in Clues(ValueGrid(g, m, 9), 81) && Clues(ValueGrid(g, m, 9), 81)[v] == m[v]
  {
    CellsMembership(g, v);
    var i, j :| 0 <= i < |g| && 0 <= j < |g[i]| && g[i][j] == v;
    ValueGridAt(g, m, i, j);
    CluesAt(ValueGrid(g, m, 9), 81, i, j);
  }

  /** Every key of the reloaded clue map was assigned. */
  lemma ReloadKeyBack(g: Grid, m: map<Variable, int>, v: Variable)
    requires NamedGrid(g) && IsNineByNine(ValueGrid(g, m, 9)) && v in Clues(ValueGrid(g, m, 9), 81)
    ensures v in m
  {
    var rows := ValueGrid(g, m, 9);
    CluesKeys(rows, 81, v);
    var i, j :| 0 <= i < 9 && 0 <= j < 9 && v == CellName(i, j);
    CluesAt(rows, 81, i, j);
    ValueGridAt(g, m, i, j);
  }

  /** The clue map of the values drawn from a named grid is the assignment they were drawn from. */
  lemma ReloadClues(g: Grid, m: map<Variable, int>)
    requires NamedGrid(g)
    requires forall v :: v in m ==> 1 <= m[v] <= 9
    requires forall v :: v in m ==> v in Cells(g)
    ensures IsNineByNine(ValueGrid(g, m, 9))
    ensures Clues(ValueGrid(g, m, 9), 81) == m && ClueCount(ValueGrid(g, m, 9), 81) == |m|
  {
    ValueGridAt(g, m, 0, 0);
    var rows := ValueGrid(g, m, 9);
    var c := Clues(rows, 81);
    forall v | v in m ensures v in c && c[v] == m[v] {
      ReloadKeyKept(g, m, v);
    }
    forall v | v in c ensures v in m {
      ReloadKeyBack(g, m, v);
    }
    assert c == m;
    ClueCountSize(rows, 81);
  }

  /** `ReloadRendered`, over any grid named like the regular one. */
  lemma ReloadGrid(g: Grid, m: map<Variable, int>)
    requires NamedGrid(g)
    requires forall v :: v in m ==> 1 <= m[v] <= 9
    requires forall v :: v in m ==> v in Cells(g)
    ensures ParseGrid(RenderLines(g, m, 9)) == Some(ValueGrid(g, m, 9))
    ensures IsNineByNine(ValueGrid(g, m, 9))
    ensures Clues(ValueGrid(g, m, 9), 81) == m && ClueCount(ValueGrid(g, m, 9), 81) == |m|
  {
    RenderParses(g, m, 9);
    ReloadClues(g, m);
  }
}
