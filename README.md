# CSP: a constraint engine with a Sudoku front end, in Dafny

This project models a small constraint-satisfaction engine and the Sudoku puzzles built on it.

**The engine.** A CSP is a dictionary from variable names to value domains plus a list of constraints. There are two constraint kinds:

- an *AllDifferent* constraint over a set of variables;
- a *DifferingPair* constraint over two variables.

An assignment is a mutable dictionary from variables to values. A recursive backtracking solver fills it in place:

- it picks the first unassigned variable;
- it tries the variable's domain values in order;
- it writes a value only after the CSP's consistency check accepts it;
- it removes the value again when the branch below fails;
- it counts every call and gives up after 10,000,000 steps.

**The Sudoku front end.** It instantiates the engine for a 9 by 9 puzzle whose cells are named `a1` to `i9`:

- 27 AllDifferent scopes: nine rows, nine columns and nine 3 by 3 boxes;
- a clue constructor that writes the given cells into the assignment and refuses 16 clues or fewer;
- a reader that turns the lines of a puzzle file into a grid of digits;
- a renderer that draws the assignment as text;
- an `Equals` that compares two drawings.

The repository holds two snapshots of the engine, `Source/*.cs` (older) and `Source/CSP/*.cs` (later), and one model covers both:

| Module | File | What it models |
|---|---|---|
| `Wrappers` | `wrappers.dfy` | `Option`, `Result` and `Outcome`, which stand in for `null` and for thrown exceptions |
| `Strings` | `strings.dfy` | decimal text of integers, as C# string interpolation writes it, and one-digit `int.Parse` |
| `Constraints` | `constraints.dfy` | the datatype `Constraint = AllDifferent(set) \| DifferingPair(first, second)` and both snapshots' checks |
| `CspBase` | `csp.dfy` | the CSP record and `IsVariableValueConsistent` |
| `Assignments` | `assignment.dfy` | the `Assignment` class: a `map` field the solver updates in place, plus the domain snapshot taken at construction |
| `Heuristics` | `heuristics.dfy` | `TrivialOrderValues`, `ChooseFirstVariable` and `ChooseRandomVariable` |
| `Solvers` | `solvers.dfy` | the solver class, holding the step counter and the recursive search |
| `Utilities` | `utilities.dfy` | `EnsureNotNull` and both `EnsureDimensions` overloads |
| `SudokuGrid` | `sudoku_grid.dfy` | the three puzzle kinds, their grids, domains and constraint lists |
| `SudokuText` | `sudoku_text.dfy` | `ToString`'s drawing, and the line cleaning and parsing of `FromFile` |
| `Sudokus` | `sudoku.dfy` | the `Sudoku` class: constructor, `GenerateSolution`, `ToString`, `Equals`, and the clue and file constructors |

**How the C# constructs are modelled.**

- C# dictionaries and hash sets enumerate in an order the runtime does not promise. The model makes that order explicit:
  - `Csp.variables` lists each key of the domain map once.
  - A `HashSet` copy keeps first occurrences in order.
- A `null` reference is `None`.
- A thrown exception is a `Failure`/`Fail` value that carries what the exception would carry.
- The solver's three outcomes are a `SolveResult`: `Solved`, `NoSolution` (the source's `null`) or `Timeout` (the source's exception).

**Behaviour as the code has it:**

- `RecursiveBacktracking` counts the step and checks the timeout before it checks completeness. So a complete assignment reached at step 10,000,001 still times out.
- The CSP constructor stores its two arguments and builds no index from variables to constraints.
- The later snapshot calls `Assign`, `Unassign`, `IsAssigned`, `GetValue`, `GetDomain` and `CSP.IsVariableValueConsistent`, but its `Assignment` and `CSP` classes do not define them. The model fills the gap as follows:
  - `Assign` is a map update and `Unassign` a key removal, as in the older solver.
  - `IsAssigned` is key membership.
  - `GetValue` is not a separate member: the lookup is written inline as `a[v]` in `IsSatisfiedByValue` and `Approves`.
  - `GetDomain` returns the constructor's snapshot.
  - The consistency check is the older snapshot's.

## Model

| member | source | states |
|---|---|---|
| Constraints.Constraint.OtherVariable | Source/Constraints.cs:44-55 | null exactly for a variable outside the pair; otherwise a member of the pair, equal to the argument only when the pair names one variable twice |
| Constraints.OtherVariableInvolution | Source/Constraints.cs:44-55 | applied twice to a member of the pair, `OtherVariable` gives that member back |
| Constraints.Constraint.SatisfiedByVariableValueInAssignment | Source/Constraints.cs:33-42 | a DifferingPair raises `ArgumentException` exactly for a variable it does not affect. Otherwise it accepts iff the other variable is unassigned or holds a different value. AllDifferent never raises and accepts iff no assigned in-scope entry holds the value |
| Constraints.NewAllDifferent | Source/CSP/Constraints.cs:17-25 | the constraint's scope is exactly the set of constructor arguments; `Affects` is membership in it |
| Constraints.Constraint.Affects | Source/Constraints.cs:27-30 | a variable is affected iff it is in the constraint's scope: one of the pair (lines 27-30), or in the AllDifferent's set (Source/Constraints.cs:66-69, Source/CSP/Constraints.cs:22-25) |
| Constraints.DuplicateArgumentsCollapse | Source/Constraints.cs:61-64 | argument lists naming the same variables, repeats included, build the same constraint |
| Constraints.AllDifferentScan | Source/Constraints.cs:71-82 | the `foreach` that collects in-scope values accepts iff no assigned in-scope entry holds the proposed value |
| Constraints.AllDifferentIgnoresVariable | Source/Constraints.cs:71-82 | the older AllDifferent answer is the same whichever variable it is asked about |
| Constraints.Constraint.IsSatisfiedByValue | Source/CSP/Constraints.cs:27-31 | the LINQ `All` over the scope accepts iff the value is not among the values the older check collects from in-scope assigned entries |
| Constraints.SnapshotsAgree | Source/CSP/Constraints.cs:27-31 | the later `IsSatisfiedByValue` and the older AllDifferent check agree on every assignment and value |
| Constraints.EmptyScopeSatisfied | Source/CSP/Constraints.cs:29-30 | an AllDifferent with an empty scope accepts every value |
| Constraints.OutOfScopeWriteIrrelevant | Source/CSP/Constraints.cs:27-31 | writing or removing a variable outside the scope does not change the answer |
| Constraints.ApprovesIffNoClash | Source/Constraints.cs:71-82 | for an unassigned variable in scope, both kinds accept iff no other assigned in-scope variable holds the value |
| CspBase.IsVariableValueConsistent | Source/Base.cs:17-28 | true iff every constraint that affects the variable approves the value; no other constraint is asked |
| CspBase.FirstRejection | Source/Base.cs:19-27 | the loop stops at the first affecting constraint in list order that rejects the value; with none, it finishes |
| CspBase.ConsistentIffNoClash | Source/Base.cs:17-28 | for an unassigned variable, consistent iff no assigned variable sharing a constraint with it holds the value |
| CspBase.NoConstraintsAlwaysConsistent | Source/Base.cs:27 | with an empty constraint list every value is consistent |
| Assignments.SetCopy | Source/Assignment.cs:43 | `new HashSet<int>(domain)`: the same elements as the domain, each once |
| Assignments.Assignment.constructor | Source/Assignment.cs:37-45 | no variable assigned; the CSP is stored; the domain snapshot maps every CSP variable to a set copy of its domain |
| Assignments.Assignment.IsComplete | Source/CSP/Assignment.cs:19-22 | over a well-formed CSP, every domain-map key is assigned iff every variable of the CSP's variable list is a key |
| Assignments.Assignment.ScanIsComplete | Source/Assignment.cs:18-28 | the scan answers true iff every CSP variable is a key, which is the later snapshot's LINQ `All` |
| Assignments.Assignment.GetDomain | Source/CSP/Heuristics.cs:11 | the snapshot of a CSP variable holds exactly its CSP domain's elements, each once |
| Assignments.Assignment.Assign | Source/CSP/Solvers.cs:58 | the map gets the entry and nothing else changes; the variable is then assigned |
| Assignments.Assignment.Unassign | Source/CSP/Solvers.cs:67 | the map loses the key and nothing else changes; the variable is then unassigned |
| Assignments.CompleteIgnoresExtraKeys | Source/Assignment.cs:18-28 | writing or removing a key outside the CSP's variables does not change completeness |
| Assignments.NoVariablesComplete | Source/CSP/Assignment.cs:19-22 | a CSP with no variables is complete under every assignment |
| Assignments.UnassignBreaksComplete | Source/Assignment.cs:18-28 | removing a CSP variable makes the assignment incomplete |
| Heuristics.TrivialOrderValues | Source/Heuristics.cs:9-12 | exactly the variable's domain snapshot, each value once, not filtered by the current assignment |
| Heuristics.FirstUnassigned | Source/CSP/Heuristics.cs:19-20 | `FirstOrDefault` over the key order: null iff every key is assigned; otherwise an unassigned key with every earlier key assigned |
| Heuristics.ChooseFirstVariable | Source/Heuristics.cs:17-22 | null iff the assignment is complete; otherwise the first unassigned CSP variable in key order |
| Heuristics.ChooseRandomVariable | Source/Heuristics.cs:24-30 | null iff the assignment is complete; otherwise some unassigned CSP variable |
| Solvers.CountUnassigned | Source/CSP/Solvers.cs:53-60 | the recursion measure: at most the number of variables |
| Solvers.CountZeroIffAllAssigned | Source/CSP/Solvers.cs:48-51 | the measure is zero iff every CSP variable is assigned, so every incomplete call has a variable left to try |
| Solvers.DomainWidth | Source/CSP/Solvers.cs:54 | no domain the value loop walks has more values than the branching factor `d` |
| Solvers.StepsUnfold | Source/CSP/Solvers.cs:41-69 | an incomplete call's bound `1 + d + … + d^n` is one step for itself plus `d` bounds one level down |
| Solvers.StepsAfterAssign | Source/CSP/Solvers.cs:58-60 | after the write, the recursive call's bound is the bound one level down |
| Solvers.RuleOutNext | Source/CSP/Solvers.cs:54-68 | a value every solution avoids, tried after values every solution avoids, extends the avoided prefix of the loop |
| Solvers.CountIgnoresOthers | Source/CSP/Solvers.cs:58 | writing a non-CSP variable does not change the measure |
| Solvers.AssignDecreasesCount | Source/CSP/Solvers.cs:53-60 | each recursive call has one more CSP variable assigned than its caller |
| Solvers.SoundExtensionReflexive | Source/Solvers.cs:46-49 | returning the assignment unchanged is a sound extension of it |
| Solvers.UndoWrite | Source/Solvers.cs:64 | removing the variable after a failed branch restores the map from before the branch |
| Solvers.SoundStep | Source/Solvers.cs:54-58 | a write the consistency check accepted, followed by a sound extension, is a sound extension of the map before the write |
| Solvers.SolutionApproves | Source/Solvers.cs:52-56 | every solution gives the selected variable a domain value the consistency check accepts, so the loop meets it |
| Solvers.SolutionDescends | Source/Solvers.cs:56-58 | a solution giving the variable the tried value is a solution of the recursive call |
| Solvers.Backtrack | Source/CSP/Solvers.cs:39-71 | the first-variable search as a function, with the number of calls it makes: one for itself, then the value loop over the first unassigned variable's domain. It never times out, makes at least one call, and a NoSolution run leaves the map as given |
| Solvers.BacktrackValues | Source/CSP/Solvers.cs:54-70 | the value loop as a function: values in domain order, stopping at the first Solved pass, adding up the calls of all passes it made; NoSolution leaves the map as given |
| Solvers.BacktrackValue | Source/CSP/Solvers.cs:56-68 | one pass: no call when the consistency check rejects the value, otherwise the recursive search on the map with the value written; NoSolution restores the map |
| Solvers.BacktrackBound | Source/CSP/Solvers.cs:39-71 | the first-variable search makes at most `StepsFrom` = `1 + d + … + d^n` calls |
| Solvers.BacktrackValueBound | Source/CSP/Solvers.cs:56-68 | one pass makes at most the bound one level down |
| Solvers.BacktrackValuesBound | Source/CSP/Solvers.cs:54-70 | the value loop makes at most `k` times the per-pass bound, for `k` values |
| Solvers.BacktrackValuesUnfold | Source/CSP/Solvers.cs:54-70 | the loop from value `i` on is the pass for value `i`, then, unless that solved, the loop from value `i + 1` on with its calls added |
| Solvers.FollowsStep | Source/CSP/Solvers.cs:54-68 | a counted pass that matches its run advances the counted loop in step with the run, and a pass that does not fail ends the loop with the run's outcome |
| Solvers.FollowsDone | Source/CSP/Solvers.cs:69-70 | a counted loop that went through every value in step with the run and stayed within the ceiling returns NoSolution with the map and count of the run |
| Solvers.SoundExtensionSatisfiesAll | Source/Solvers.cs:37-68 | when the entry map satisfies every constraint, whatever the solver leaves satisfies every constraint |
| Solvers.RecursiveBacktrackingSolver.constructor | Source/CSP/Solvers.cs:25-32 | the solver keeps its variable heuristic; the step count starts at zero |
| Solvers.RecursiveBacktrackingSolver.Solve | Source/CSP/Solvers.cs:34-37 | one recursive search on the caller's assignment without resetting the step count. With the first-variable heuristic, the count rises by exactly the calls of `Backtrack` and the outcome and map are the run's, unless the total passes 10,000,000, which is a timeout. With either heuristic the count rises by at least one and by at most `StepsFrom` = `1 + d + … + d^n`, for `n` unassigned variables and at most `d` values per domain. Every value written passed the check. Solved gives a complete solution. NoSolution leaves the map as on entry, and no solution exists. Timeout iff the count passed 10,000,000 |
| Solvers.RecursiveBacktrackingSolver.RecursiveBacktracking | Source/CSP/Solvers.cs:39-71 | with the first-variable heuristic, the step count rises by exactly the calls of the run `Backtrack` and the result and map are the run's, unless the count passes 10,000,000, which is a timeout. With either heuristic, each call adds one step for itself plus those of its recursive calls: in all at least one and at most `StepsFrom` = `1 + d + … + d^n`. Past the ceiling it times out, so a timeout needs a bound above 10,000,000 steps. A complete map on entry is returned unchanged after one step. Solved is complete; NoSolution restores the entry map and no solution extends it |
| Solvers.RecursiveBacktrackingSolver.TryValues | Source/CSP/Solvers.cs:54-70 | the value loop, in the given order: unless it fails, the variable holds some value `values[k]` and every solution avoids all earlier values, so it stopped at the first pass that did not fail. When every value fails, the map is as on entry and no solution takes any of the values. With the first-variable heuristic, the count and outcome are those of the run `BacktrackValues`; with the random one, each pass costs at most one bound one level down |
| Solvers.RecursiveBacktrackingSolver.TryValue | Source/CSP/Solvers.cs:56-68 | one loop pass: write only if consistent, recurse, pass success on without removal, undo on failure, which rules out the value for every solution. It costs at most the bound one level down, and with the first-variable heuristic exactly the calls of the run `BacktrackValue`. Unless it fails, the variable holds the tried value |
| Utilities.EnsureNotNull | Source/CSP/Utilities.cs:36-42 | raises with the given message iff the object is null |
| Utilities.EnsureDimensions | Source/CSP/Utilities.cs:10-19 | passes iff the array is non-null with the required length; otherwise raises the null or the length message |
| Utilities.EnsureRows | Source/CSP/Utilities.cs:30-33 | passes iff every row passes; otherwise the first failing row's exception |
| Utilities.EnsureDimensions2D | Source/CSP/Utilities.cs:21-34 | passes iff non-null with `rowCount` rows, each non-null with `columnCount` entries; the row count is checked before any row |
| Utilities.RectangularPasses | Source/CSP/Utilities.cs:21-34 | a rectangular array with the required sizes passes |
| Utilities.NullRowFails | Source/CSP/Utilities.cs:30-33 | with the right row count, a null row after good rows raises the null-array message |
| Strings.NatToStringRoundTrip | Source/CSP/Utilities.cs:16 | reading the decimal text of a natural number gives the number back |
| Strings.IntToStringRoundTrip | Source/CSP/Utilities.cs:16 | the text of an integer is a sign and digits, and reads back as the integer |
| Strings.IntToStringInjective | Source/CSP/Sudoku.cs:43 | different integers have different decimal texts, so the message names the step count unambiguously |
| Strings.SingleDigitText | Source/CSP/Sudoku.cs:66 | a one-digit value is drawn as its one digit character |
| SudokuGrid.Domain | Source/CSP/Sudoku.cs:105 | every kind has a non-empty domain (1 to 9 for the regular puzzle) |
| SudokuGrid.RegularGrid | Source/CSP/Sudoku.cs:107-120 | the regular grid is 9 by 9 |
| SudokuGrid.RegularGridLiteral | Source/CSP/Sudoku.cs:107-120 | the grid generated from cell names equals the grid written out, `a1` to `i9` |
| SudokuGrid.CellName | Source/CSP/Sudoku.cs:179-180 | cell `(i, j)` is named by the letter `'a' + i` and the digit `j + 1` |
| SudokuGrid.CellNameInjective | Source/CSP/Sudoku.cs:179-180 | two cells have the same name iff they are the same cell |
| SudokuGrid.CellsMembership | Source/CSP/Sudoku.cs:20-26 | a variable gets a domain iff some row of the grid holds it |
| SudokuGrid.CellsDistinct | Source/CSP/Sudoku.cs:20-26 | a grid without repeated names inserts every variable once |
| SudokuGrid.GridCellsDistinct | Source/CSP/Sudoku.cs:107-120 | the grids of all three kinds name every cell differently |
| SudokuGrid.ColumnScope | Source/CSP/Sudoku.cs:134-142 | column `i` lists `Grid[j][i]` for every row `j`, top to bottom |
| SudokuGrid.BoxScope | Source/CSP/Sudoku.cs:145-159 | a box has nine entries |
| SudokuGrid.BoxEntry | Source/CSP/Sudoku.cs:145-159 | entry `3k + l` of box `(i, j)` is `Grid[3i + k][3j + l]` |
| SudokuGrid.RegularConstraints | Source/CSP/Sudoku.cs:122-163 | the regular list has 27 constraints |
| SudokuGrid.ColumnVariables | Source/CSP/Sudoku.cs:134-142 | the column loop fills its array with column `i` |
| SudokuGrid.BoxVariables | Source/CSP/Sudoku.cs:145-159 | the box loop fills its array with box `(i, j)` |
| SudokuGrid.BuildRegularConstraints | Source/CSP/Sudoku.cs:122-163 | the getter's loops build the rows, then the columns, then the boxes row of boxes by row of boxes |
| SudokuGrid.RowMembership | Source/CSP/Sudoku.cs:126-131 | cell `(r, c)` is in row `q` iff `q == r` |
| SudokuGrid.ColumnMembership | Source/CSP/Sudoku.cs:134-142 | cell `(r, c)` is in column `q` iff `q == c` |
| SudokuGrid.BoxMembership | Source/CSP/Sudoku.cs:145-159 | cell `(r, c)` is in box `(bi, bj)` iff `bi == r / 3` and `bj == c / 3` |
| SudokuGrid.ScopesDistinct | Source/CSP/Sudoku.cs:122-163 | every row, column and box names nine different cells |
| SudokuGrid.RegularEntries | Source/CSP/Sudoku.cs:122-163 | entries `q`, `9 + q` and `18 + q` of the list are row `q`, column `q` and box `q` |
| SudokuGrid.ScopeSizes | Source/CSP/Sudoku.cs:122-163 | all 27 scopes hold exactly nine variables |
| SudokuGrid.CellInOneScopeEach | Source/CSP/Sudoku.cs:126-159 | every cell is in exactly one row, one column and one box scope |
| SudokuGrid.MediumConstraints | Source/CSP/Sudoku.cs:236-255 | the hand-written medium list is the medium grid's three rows followed by its three columns |
| SudokuGrid.SmallConstraints | Source/CSP/Sudoku.cs:268-278 | the hand-written small list is the small grid's two rows followed by its two columns |
| SudokuText.JoinLinesAppend | Source/CSP/Sudoku.cs:77-81 | joining newline-ended lines distributes over concatenation |
| SudokuText.RenderLinesStep | Source/CSP/Sudoku.cs:54-82 | each row appends a space, its cells and a newline, and after rows 3 and 6 the separator line |
| SudokuText.CellTextDigits | Source/CSP/Sudoku.cs:64-71 | a cell is drawn in two characters, and two drawings agree iff both are blank or both hold the same value |
| SudokuText.RowCellsWidth | Source/CSP/Sudoku.cs:61-76 | with one-digit values the cells of a row have a fixed width |
| SudokuText.RowCellsInjective | Source/CSP/Sudoku.cs:61-76 | two drawings of a row's cells are equal iff the cells agree |
| SudokuText.RenderLinesWidths | Source/CSP/Sudoku.cs:54-82 | every drawn line's width depends only on the grid |
| SudokuText.RenderLinesAgree | Source/CSP/Sudoku.cs:54-82 | agreeing rows give the same lines |
| SudokuText.RenderLinesDisagree | Source/CSP/Sudoku.cs:54-82 | the same lines come only from agreeing rows |
| SudokuText.RenderLinesCount | Source/CSP/Sudoku.cs:79-81 | the first `k` rows are drawn as `k` lines plus a separator after row 3 and after row 6, for those of the two that are among them |
| SudokuText.JoinLinesInjective | Source/CSP/Sudoku.cs:77-81 | line lists with matching widths that join to the same text are equal |
| SudokuText.RenderInjective | Source/CSP/Sudoku.cs:49-84 | with one-digit values, two drawings of a grid are the same text iff the same cells are assigned with the same values |
| SudokuText.RegularLineShape | Source/CSP/Sudoku.cs:49-84 | a 9 by 9 drawing has 11 lines of 23 characters each |
| SudokuText.ReplaceAppend | Source/CSP/Sudoku.cs:208-211 | `Replace` works character by character, so it distributes over concatenation |
| SudokuText.ReplaceAbsent | Source/CSP/Sudoku.cs:208-211 | replacing a character that does not occur changes nothing |
| SudokuText.CleanChar | Source/CSP/Sudoku.cs:208-211 | cleaning drops spaces and `\|`, turns `.` into `0` and keeps every other character |
| SudokuText.CleanRowAppend | Source/CSP/Sudoku.cs:208-211 | cleaning distributes over concatenation |
| SudokuText.CleanBlanks | Source/CSP/Sudoku.cs:208-211 | a text of spaces and bars cleans to nothing |
| SudokuText.ParseRow | Source/CSP/Sudoku.cs:213-215 | a cleaned line parses iff every character is a digit, giving one value from 0 to 9 per character |
| SudokuText.ParseRowAppend | Source/CSP/Sudoku.cs:213-215 | parsing one more digit appends its value |
| SudokuText.ParseGrid | Source/CSP/Sudoku.cs:196-222 | at most one row per line, every value a digit |
| SudokuText.ParseGridSkip | Source/CSP/Sudoku.cs:203-206 | a line starting with `-`, or an empty line, adds no row |
| SudokuText.ParseGridAppend | Source/CSP/Sudoku.cs:208-217 | any other line adds the row of its cleaned digits |
| SudokuText.ParseGridReject | Source/CSP/Sudoku.cs:213-215 | a line that is not skipped and does not clean to digits makes the read fail |
| SudokuText.ParseGridFailurePersists | Source/CSP/Sudoku.cs:213-215 | once a line fails to parse, the whole read fails whatever follows |
| SudokuText.FromFile | Source/CSP/Sudoku.cs:196-222 | the loop over the file's lines computes the read of those lines |
| SudokuText.CleanCell | Source/CSP/Sudoku.cs:64-74 | a drawn cell, with or without its bar, cleans to its digit or `0` |
| SudokuText.CleanRowCells | Source/CSP/Sudoku.cs:61-76 | a row's drawn cells clean and parse to the row's values |
| SudokuText.CleanRowText | Source/CSP/Sudoku.cs:58-77 | a drawn row is never skipped and parses to the row's values, with `NoValue` for blank cells |
| SudokuText.RenderParses | Source/CSP/Sudoku.cs:49-84 | reading the drawn lines back gives every row's values, blanks as `NoValue` |
| SudokuText.ValueGridStep | Source/CSP/Sudoku.cs:54-82 | the values of one more row extend the value grid by that row |
| Sudokus.PresentRows | Source/CSP/Sudoku.cs:167 | once the dimension check passed, every row is present |
| Sudokus.CluesNext | Source/CSP/Sudoku.cs:173-181 | one inner-loop step adds the cell under its name iff it is not `NoValue`, and counts it |
| Sudokus.CluesAt | Source/CSP/Sudoku.cs:171-183 | after `n` cells in row-major order, cell `(i, j)` is assigned iff it came before `n` and is a clue, with its value |
| Sudokus.CluesKeys | Source/CSP/Sudoku.cs:179-181 | every written variable is a cell name |
| Sudokus.ClueCountSize | Source/CSP/Sudoku.cs:177 | the clue counter equals the number of assigned cells |
| Sudokus.CluesSpec | Source/CSP/Sudoku.cs:171-183 | after the loops, a cell is assigned iff its value is not `NoValue`, with that value; nothing else is assigned; the count is the number of clues |
| Sudokus.DomainsOf | Source/CSP/Sudoku.cs:20-26 | every grid variable, and nothing else, gets the kind's domain |
| Sudokus.ConstraintsFor | Source/CSP/Sudoku.cs:122-163 | the constraint getter returns the kind's list |
| Sudokus.KindWellformed | Source/CSP/Sudoku.cs:18-30 | the grid, domains and constraints of a kind form a well-formed CSP over the grid's cells |
| Sudokus.Search | Source/CSP/Sudoku.cs:36-37 | a fresh first-variable solver on the puzzle's assignment follows the run `Backtrack`: its steps are the run's calls and its result and map the run's, unless the calls pass 10,000,000, which is a timeout. It takes at least one step and at most `StepsFrom` steps. It times out iff past 10,000,000 steps. Its results are sound. Solved is a solution. NoSolution keeps the map, and no solution exists |
| Sudokus.Sudoku.constructor | Source/CSP/Sudoku.cs:18-30 | the CSP is over the grid's cells, each with the kind's domain, and the kind's constraints; the assignment is fresh and empty |
| Sudokus.Sudoku.GenerateSolution | Source/CSP/Sudoku.cs:34-47 | the outcome is exactly `Reported` of the run `Backtrack` from the old assignment, and on success the assignment holds the run's map. On success the kept assignment is a solution extending the old one, with the step count returned. When no solution exists the assignment becomes null and the step count is in the message. Both counts are at most `StepsFrom`. A timeout raises the timeout message, and happens only when `StepsFrom` exceeds 10,000,000 |
| Sudokus.Sudoku.ToString | Source/CSP/Sudoku.cs:49-84 | the `StringBuilder` loops produce the drawing of the grid under the assignment |
| Sudokus.Sudoku.Equals | Source/CSP/Sudoku.cs:86-95 | true only for a non-null puzzle of the same kind, and every puzzle equals itself |
| Sudokus.EqualsIffSameCells | Source/CSP/Sudoku.cs:86-95 | with one-digit values, `Equals` holds iff the other puzzle has the same kind and the same cells assigned with the same values |
| Sudokus.IncompleteNotEqualComplete | Source/CSP.Tests/Tests.cs:68-69 | a puzzle with a blank cell never equals a complete puzzle of its kind, in either direction |
| Sudokus.WriteClues | Source/CSP/Sudoku.cs:169-183 | the double loop writes exactly the clues under their cell names and counts them |
| Sudokus.NewRegularSudoku | Source/CSP/Sudoku.cs:165-190 | a failed dimension check raises its `ArgumentException`. Otherwise the puzzle is built iff more than 16 clues were given, with exactly the clues assigned; else it raises "Insufficient number of clues given." |
| Sudokus.NewRegularSudokuFromLines | Source/CSP/Sudoku.cs:192-194 | a line that does not parse is a `FormatException`. A grid that is not 9 by 9 is an `ArgumentException`. Otherwise the clue constructor runs on the read grid |
| Sudokus.ValueGridAt | Source/CSP/Sudoku.cs:179-181 | the values drawn from the regular grid form a 9 by 9 array whose cell `(i, j)` is the value of `CellName(i, j)` |
| Sudokus.ReloadKeyKept | Source/CSP/Sudoku.cs:171-183 | every assigned cell reappears among the reloaded clues with its value |
| Sudokus.ReloadKeyBack | Source/CSP/Sudoku.cs:171-183 | every reloaded clue was assigned |
| Sudokus.ReloadClues | Source/CSP/Sudoku.cs:165-190 | the clues of the drawn values are the assignment itself, and their count is its size |
| Sudokus.ReloadGrid | Source/CSP/Sudoku.cs:196-222 | reading the drawing of a named grid gives its values, whose clues are the assignment |
| Sudokus.ReloadRendered | Source/CSP/Sudoku.cs:49-84 | `FromFile` on what `ToString` draws for a regular puzzle with values 1 to 9 gives a 9 by 9 grid; its clues are the assignment and the clue count is the number of assigned cells |

## Left out

- File I/O: `File.ReadAllLines` in `FromFile` is replaced by the file's lines as a parameter. `Utilities.CSVFileToIntArray` (a `StreamReader`) is not modelled.
- `ShowTicker` and `CleanupTicker` are not modelled: they move the console cursor and sleep in an endless loop.
- `EnumerableExtension` and the `Guid.NewGuid()` shuffle are not modelled. `ChooseRandomVariable` states only "some unassigned variable, or none".
- Solvers.RecursiveBacktrackingSolver.RecursiveBacktracking: the exact step count and the run it follows are stated only for the first-variable heuristic. With the random heuristic the variable tried at each level is not fixed, so only the `StepsFrom` bound and soundness are stated.
- Solvers.RecursiveBacktrackingSolver.Solve: as for `RecursiveBacktracking`, the exact count is stated only for the first-variable heuristic.
- Solvers.RecursiveBacktrackingSolver.TryValues: the exact count is stated only for the first-variable heuristic; with the random one, the loop's cost is bounded by `Times(|values|, StepsBelow)`.
- Solvers.RecursiveBacktrackingSolver.TryValue: the exact count is stated only for the first-variable heuristic.
- Heuristics.ChooseRandomVariable: does not fix which unassigned variable is chosen, because the source draws it at random.
- Dictionary and hash-set enumeration order is unspecified in the CLR, so the model fixes it:
  - `Csp.variables` gives the key order.
  - A set copy keeps first occurrences.
- Exceptions are values, and stack unwinding is not modelled. A timeout keeps the partly filled assignment in the puzzle, as the source leaves it.
- `CSPException` is not modelled; nothing throws it.
- `GetHashCode` is not modelled.
- The test harness's threads and timing are not modelled. Its `Equals` assertions are the basis for `Sudokus.IncompleteNotEqualComplete`.
- `string.StartsWith("-")` is modelled as an ordinal test of the first character. The culture-sensitive comparison .NET uses is not modelled.
- Sudokus.Sudoku.ToString: requires a non-null assignment. After `GenerateSolution` finds no solution, the source's `ToString` would dereference null.
- SudokuText.RenderInjective: holds only for values of one digit, which is what the puzzles' domains hold. The source's `Equals` on multi-digit values is not characterised.
- Sudokus.ReloadRendered: stated for values 1 to 9 only. A value 0 would be drawn as `0` and read back as `NoValue`.
- `int.Parse` of a character that is not a digit is the `FormatError` outcome. Its exception message is not modelled.
- The value-ordering heuristic is fixed to `TrivialOrderValues`, the only one the repository defines. The variable heuristic is `ChooseFirst` or `ChooseRandom`.
- The solver class is spelled `RecursiveBacktrackingSolver`; the source writes `RecusiveBacktrackingSolver`.
- 32-bit overflow of the step counter is not modelled. `Solve` never resets the counter, but the only solver the core runs is the fresh one of `GenerateSolution`, and its count stays within 10,000,001.
- Sudokus.Sudoku.GenerateSolution: requires a non-null assignment. After a search that found no solution, a second call in the source hands null to the solver, which dereferences it.
- Sudokus.Sudoku.Equals: requires a non-null assignment in this puzzle, and in the other one when the kinds match. With a null assignment the source's `ToString` would dereference null.
- The medium and small puzzles have no clue or file constructor in the source, and the model gives them none.
