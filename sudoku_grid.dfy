/**
 * The shape of the Sudoku front end (Source/CSP/Sudoku.cs): the three puzzle kinds, their
 * cell-name grids and value domains, and the AllDifferent scopes each kind hands the engine.
 * RegularSudoku builds its 27 scopes with index arithmetic; MediumSudoku and SmallSudoku list
 * theirs by hand.
 */
module SudokuGrid {
  import opened Strings
  import opened Constraints

  /** The sealed subclasses of `Sudoku`; `Equals` compares them through `GetType`. */
  datatype Kind = Regular | Medium | Small

  /** `Sudoku.NoValue`: the cell value that means "no clue". */
  const NoValue: int := 0

  type Grid = seq<seq<Variable>>

  /** `Domain` of each kind. */
  function Domain(kind: Kind): (d: seq<int>)
    ensures |d| > 0
  {
    match kind
    case Regular => [1, 2, 3, 4, 5, 6, 7, 8, 9]
    case Medium => [1, 2, 3, 4, 5, 6, 7, 8, 9]
    case Small => [1, 2, 3, 4]
  }

  /**
   * `RegularSudoku.Grid`: nine rows `a`..`i`, nine columns `1`..`9`; cell `(i, j)` is the
   * name the clue constructor writes for it. `RegularGridLiteral` states the grid cell by cell.
   */
  function RegularGrid(): (g: Grid)
    ensures IsSquare(g, 9)
  {
    seq(9, i requires 0 <= i < 9 => seq(9, j requires 0 <= j < 9 => CellName(i, j)))
  }

  /** The regular grid as the getter writes it out, row by row. */
  function RegularGridWritten(): Grid {
    [
      ["a1", "a2", "a3", "a4", "a5", "a6", "a7", "a8", "a9"],
      ["b1", "b2", "b3", "b4", "b5", "b6", "b7", "b8", "b9"],
      ["c1", "c2", "c3", "c4", "c5", "c6", "c7", "c8", "c9"],
      ["d1", "d2", "d3", "d4", "d5", "d6", "d7", "d8", "d9"],
      ["e1", "e2", "e3", "e4", "e5", "e6", "e7", "e8", "e9"],
      ["f1", "f2", "f3", "f4", "f5", "f6", "f7", "f8", "f9"],
      ["g1", "g2", "g3", "g4", "g5", "g6", "g7", "g8", "g9"],
      ["h1", "h2", "h3", "h4", "h5", "h6", "h7", "h8", "h9"],
      ["i1", "i2", "i3", "i4", "i5", "i6", "i7", "i8", "i9"]
    ]
  }

  /** The regular grid is the grid written out. */
  lemma RegularGridLiteral()
    ensures RegularGrid() == RegularGridWritten()
  {
    var g, w := RegularGrid(), RegularGridWritten();
    forall i | 0 <= i < 9 ensures g[i] == w[i] {
      forall j | 0 <= j < 9 ensures g[i][j] == w[i][j] {
        if i == 0 { } else if i == 1 { } else if i == 2 { } else if i == 3 { } else if i == 4 { }
        else if i == 5 { } else if i == 6 { } else if i == 7 { } else { }
      }
    }
  }

  /** `MediumSudoku.Grid`. */
  function MediumGrid(): Grid {
    [["a", "b", "c"], ["d", "e", "f"], ["g", "h", "i"]]
  }

  /** `SmallSudoku.Grid`. */
  function SmallGrid(): Grid {
    [["a", "b"], ["c", "d"]]
  }

  function GridOf(kind: Kind): Grid {
    match kind
    case Regular => RegularGrid()
    case Medium => MediumGrid()
    case Small => SmallGrid()
  }

  /** The variable the clue constructor writes for cell `(i, j)`: the letter `'a' + i`, then `j + 1` in decimal. */
  function CellName(i: nat, j: nat): (v: Variable)
    requires i < 9 && j < 9
    ensures v == [('a' as int + i) as char, DigitChar(j + 1)]
  {
    SingleDigitText(j + 1);
    [('a' as int + i) as char] + IntToString(j + 1)
  }

  /** Distinct cells have distinct names. */
  lemma CellNameInjective(i: nat, j: nat, i': nat, j': nat)
    requires i < 9 && j < 9 && i' < 9 && j' < 9
    ensures CellName(i, j) == CellName(i', j') <==> i == i' && j == j'
  {
    if CellName(i, j) == CellName(i', j') {
      assert CellName(i, j)[0] == CellName(i', j')[0];
      assert CellName(i, j)[1] == CellName(i', j')[1];
    }
  }

  /** A 9 by 9 grid whose cell `(i, j)` is named `CellName(i, j)`. */
  predicate NamedGrid(g: Grid) {
    IsSquare(g, 9) && forall i, j :: 0 <= i < 9 && 0 <= j < 9 ==> g[i][j] == CellName(i, j)
  }

  /** The grid's variables row by row: the order in which the base constructor inserts them. */
  function Cells(grid: Grid): seq<Variable> {
    if grid == [] then [] else grid[0] + Cells(grid[1..])
  }

  /** The cells of two stacked grids are the cells of the first, then those of the second. */
  lemma {:induction false} CellsAppend(a: Grid, b: Grid)
    ensures Cells(a + b) == Cells(a) + Cells(b)
  {
    if a != [] {
      assert (a + b)[1..] == a[1..] + b;
      CellsAppend(a[1..], b);
    } else {
      assert a + b == b;
    }
  }

  /** A variable is among the cells exactly when some row holds it. */
  lemma {:induction false} CellsMembership(grid: Grid, x: Variable)
    ensures x in Cells(grid) <==> exists i, j :: 0 <= i < |grid| && 0 <= j < |grid[i]| && grid[i][j] == x
  {
    if grid != [] {
      CellsMembership(grid[1..], x);
      if x in Cells(grid[1..]) {
        var i, j :| 0 <= i < |grid[1..]| && 0 <= j < |grid[1..][i]| && grid[1..][i][j] == x;
        assert grid[i + 1][j] == x;
      } else if x !in grid[0] {
        forall i, j | 0 <= i < |grid| && 0 <= j < |grid[i]| ensures grid[i][j] != x {
          if i > 0 {
            assert grid[i] == grid[1..][i - 1];
          }
        }
      }
    }
  }

  predicate Distinct(s: seq<Variable>) {
    forall i, j :: 0 <= i < j < |s| ==> s[i] != s[j]
  }

  /** No variable names two cells. */
  predicate DistinctCells(grid: Grid) {
    forall i, j, i', j' ::
      (0 <= i < |grid| && 0 <= j < |grid[i]| && 0 <= i' < |grid| && 0 <= j' < |grid[i']| &&
       (i, j) != (i', j')) ==> grid[i][j] != grid[i'][j']
  }

  /** Distinct cells list without repetition. */
  lemma {:induction false} CellsDistinct(grid: Grid)
    requires DistinctCells(grid)
    ensures Distinct(Cells(grid))
  {
    if grid != [] {
      var rest := grid[1..];
      assert DistinctCells(rest) by {
        forall i, j, i', j' |
          0 <= i < |rest| && 0 <= j < |rest[i]| && 0 <= i' < |rest| && 0 <= j' < |rest[i']| && (i, j) != (i', j')
          ensures rest[i][j] != rest[i'][j']
        {
          assert rest[i] == grid[i + 1] && rest[i'] == grid[i' + 1];
        }
      }
      CellsDistinct(rest);
      var c := Cells(grid);
      forall a, b | 0 <= a < b < |c| ensures c[a] != c[b] {
        if b >= |grid[0]| && a < |grid[0]| {
          CellsMembership(rest, c[b]);
          var i, j :| 0 <= i < |rest| && 0 <= j < |rest[i]| && rest[i][j] == c[b];
          assert grid[i + 1][j] == c[b] && grid[0][a] == c[a];
        } else if b >= |grid[0]| {
          assert c[a] == Cells(rest)[a - |grid[0]|] && c[b] == Cells(rest)[b - |grid[0]|];
        }
      }
    }
  }

  /** The three kinds' grids name every cell differently. */
  lemma GridCellsDistinct(kind: Kind)
    ensures DistinctCells(GridOf(kind))
  {
    match kind
    case Regular =>
      NamedCellsDistinct(RegularGrid());
    case Medium =>
    case Small =>
  }

  /** A named grid names every cell differently. */
  lemma NamedCellsDistinct(g: Grid)
    requires NamedGrid(g)
    ensures DistinctCells(g)
  {
      forall i, j, i', j' |
        0 <= i < |g| && 0 <= j < |g[i]| && 0 <= i' < |g| && 0 <= j' < |g[i']| && (i, j) != (i', j')
        ensures g[i][j] != g[i'][j']
      {
        CellNameInjective(i, j, i', j');
      }
  }

  /** `n` rows of `n` cells. */
  predicate IsSquare(grid: Grid, n: nat) {
    |grid| == n && forall i :: 0 <= i < n ==> |grid[i]| == n
  }

  /** Column `i`: the `i`th cell of every row, top to bottom (`Grid[j][i]`). */
  function ColumnScope(grid: Grid, i: nat): (s: seq<Variable>)
    requires IsSquare(grid, |grid|) && i < |grid|
    ensures |s| == |grid| && forall j :: 0 <= j < |grid| ==> s[j] == grid[j][i]
  {
    seq(|grid|, j requires 0 <= j < |grid| => grid[j][i])
  }

  /** Box `(i, j)` of a 9 by 9 grid: entry `3k + l` is `Grid[3i + k][3j + l]`. */
  function BoxScope(grid: Grid, i: nat, j: nat): (s: seq<Variable>)
    requires IsSquare(grid, 9) && i < 3 && j < 3
    ensures |s| == 9
  {
    seq(9, n requires 0 <= n < 9 => grid[3 * i + n / 3][3 * j + n % 3])
  }

  /** Entry `3k + l` of box `(i, j)` is the cell `(3i + k, 3j + l)`. */
  lemma BoxEntry(grid: Grid, i: nat, j: nat, k: nat, l: nat)
    requires IsSquare(grid, 9) && i < 3 && j < 3 && k < 3 && l < 3
    ensures BoxScope(grid, i, j)[3 * k + l] == grid[3 * i + k][3 * j + l]
  {
    assert (3 * k + l) / 3 == k && (3 * k + l) % 3 == l;
  }

  /** One AllDifferent per row, in grid order, then one per column. */
  function RowsAndColumns(grid: Grid): (cs: seq<Constraint>)
    requires IsSquare(grid, |grid|)
    ensures |cs| == 2 * |grid|
  {
    seq(|grid|, i requires 0 <= i < |grid| => NewAllDifferent(grid[i])) +
    seq(|grid|, i requires 0 <= i < |grid| => NewAllDifferent(ColumnScope(grid, i)))
  }

  /** `RegularSudoku.Constraints`: the rows, the columns, then the boxes row of boxes by row of boxes. */
  function RegularConstraints(grid: Grid): (cs: seq<Constraint>)
    requires IsSquare(grid, 9)
    ensures |cs| == 27
  {
    RowsAndColumns(grid) +
    seq(9, b requires 0 <= b < 9 => NewAllDifferent(BoxScope(grid, b / 3, b % 3)))
  }

  /** The column loop's body: a fresh nine-element array filled with `Grid[j][i]` for each `j`. */
  method ColumnVariables(grid: Grid, i: nat) returns (s: seq<Variable>)
    requires IsSquare(grid, 9) && i < 9
    ensures s == ColumnScope(grid, i)
  {
    var columnVariables := new Variable[9];
    for j := 0 to 9
      invariant forall k :: 0 <= k < j ==> columnVariables[k] == grid[k][i]
    {
      columnVariables[j] := grid[j][i];
    }
    s := columnVariables[..];
  }

  /** The box loop's body: a fresh nine-element array, entry `3k + l` set to `Grid[3i + k][3j + l]`. */
  method BoxVariables(grid: Grid, i: nat, j: nat) returns (s: seq<Variable>)
    requires IsSquare(grid, 9) && i < 3 && j < 3
    ensures s == BoxScope(grid, i, j)
  {
    var variables := new Variable[9];
    for k := 0 to 3
      invariant forall n :: 0 <= n < 3 * k ==> variables[n] == grid[3 * i + n / 3][3 * j + n % 3]
    {
      for l := 0 to 3
        invariant forall n :: 0 <= n < 3 * k + l ==> variables[n] == grid[3 * i + n / 3][3 * j + n % 3]
      {
        assert (3 * k + l) / 3 == k && (3 * k + l) % 3 == l;
        variables[3 * k + l] := grid[i * 3 + k][j * 3 + l];
      }
    }
    s := variables[..];
  }

  /** The getter: rows by projection, then the nine columns, then the boxes row of boxes by row of boxes. */
  method BuildRegularConstraints(grid: Grid) returns (cs: seq<Constraint>)
    requires IsSquare(grid, 9)
    ensures cs == RegularConstraints(grid)
  {
    ghost var spec := RegularConstraints(grid);
    cs := seq(9, i requires 0 <= i < 9 => NewAllDifferent(grid[i]));
    assert cs == spec[..9];

    for i := 0 to 9
      invariant cs == spec[..9 + i]
    {
      var columnVariables := ColumnVariables(grid, i);
      cs := cs + [NewAllDifferent(columnVariables)];
      assert spec[..9 + i + 1] == spec[..9 + i] + [spec[9 + i]];
    }

    for i := 0 to 3
      invariant cs == spec[..18 + 3 * i]
    {
      for j := 0 to 3
        invariant cs == spec[..18 + 3 * i + j]
      {
        var variables := BoxVariables(grid, i, j);
        assert (3 * i + j) / 3 == i && (3 * i + j) % 3 == j;
        cs := cs + [NewAllDifferent(variables)];
        assert spec[..18 + 3 * i + j + 1] == spec[..18 + 3 * i + j] + [spec[18 + 3 * i + j]];
      }
    }
    assert spec[..27] == spec;
  }

  /** A sequence without repetition has as many distinct elements as entries. */
  lemma {:induction false} DistinctCardinality(s: seq<Variable>)
    requires Distinct(s)
    ensures |set x | x in s| == |s|
  {
    if s != [] {
      var init := s[..|s| - 1];
      assert Distinct(init);
      DistinctCardinality(init);
      assert s[|s| - 1] !in init;
      assert (set x | x in s) == (set x | x in init) + {s[|s| - 1]} by {
        assert s == init + [s[|s| - 1]];
      }
    }
  }

  /** Cell `(r, c)` lies in row `q` exactly when `q == r`. */
  lemma RowMembership(g: Grid, q: nat, r: nat, c: nat)
    requires NamedGrid(g) && q < 9 && r < 9 && c < 9
    ensures CellName(r, c) in g[q] <==> q == r
  {
    if CellName(r, c) in g[q] {
      var j :| 0 <= j < 9 && g[q][j] == CellName(r, c);
      CellNameInjective(q, j, r, c);
    }
    if q == r {
      assert g[q][c] == CellName(r, c);
    }
  }

  /** Cell `(r, c)` lies in column `q` exactly when `q == c`. */
  lemma ColumnMembership(g: Grid, q: nat, r: nat, c: nat)
    requires NamedGrid(g) && q < 9 && r < 9 && c < 9
    ensures CellName(r, c) in ColumnScope(g, q) <==> q == c
  {
    var col := ColumnScope(g, q);
    if CellName(r, c) in col {
      var j :| 0 <= j < 9 && col[j] == CellName(r, c);
      CellNameInjective(j, q, r, c);
    }
    if q == c {
      assert col[r] == CellName(r, c);
    }
  }

  /** Dividing `3b + x` by three, for a digit `x < 3`. */
  lemma DivideByThree(b: nat, x: nat)
    requires x < 3
    ensures (3 * b + x) / 3 == b && (3 * b + x) % 3 == x
  {
  }

  /** A cell found in box `(bi, bj)` has row `3 bi + k` and column `3 bj + l` for some `k, l < 3`. */
  lemma InBoxOnlyIf(g: Grid, bi: nat, bj: nat, r: nat, c: nat)
    requires NamedGrid(g) && bi < 3 && bj < 3 && r < 9 && c < 9
    requires CellName(r, c) in BoxScope(g, bi, bj)
    ensures bi == r / 3 && bj == c / 3
  {
    var box := BoxScope(g, bi, bj);
    var n :| 0 <= n < 9 && box[n] == CellName(r, c);
    var k, l := n / 3, n % 3;
    assert n == 3 * k + l;
    BoxEntry(g, bi, bj, k, l);
    CellNameInjective(3 * bi + k, 3 * bj + l, r, c);
    DivideByThree(bi, k);
    DivideByThree(bj, l);
  }

  /** Cell `(r, c)` is entry `3 (r % 3) + c % 3` of its own box. */
  lemma InOwnBox(g: Grid, r: nat, c: nat)
    requires NamedGrid(g) && r < 9 && c < 9
    ensures CellName(r, c) in BoxScope(g, r / 3, c / 3)
  {
    BoxEntry(g, r / 3, c / 3, r % 3, c % 3);
    assert BoxScope(g, r / 3, c / 3)[3 * (r % 3) + c % 3] == CellName(r, c);
  }

  /** Cell `(r, c)` lies in box `(bi, bj)` exactly when `bi == r / 3` and `bj == c / 3`. */
  lemma BoxMembership(g: Grid, bi: nat, bj: nat, r: nat, c: nat)
    requires NamedGrid(g) && bi < 3 && bj < 3 && r < 9 && c < 9
    ensures CellName(r, c) in BoxScope(g, bi, bj) <==> bi == r / 3 && bj == c / 3
  {
    if CellName(r, c) in BoxScope(g, bi, bj) {
      InBoxOnlyIf(g, bi, bj, r, c);
    }
    InOwnBox(g, r, c);
  }

  /** The row, column and box sequences name nine different cells each. */
  lemma ScopesDistinct(g: Grid, q: nat)
    requires NamedGrid(g) && q < 9
    ensures Distinct(g[q])
    ensures Distinct(ColumnScope(g, q))
    ensures Distinct(BoxScope(g, q / 3, q % 3))
  {
    forall a, b | 0 <= a < b < 9 ensures g[q][a] != g[q][b] {
      CellNameInjective(q, a, q, b);
    }
    forall a, b | 0 <= a < b < 9 ensures ColumnScope(g, q)[a] != ColumnScope(g, q)[b] {
      CellNameInjective(a, q, b, q);
    }
    var box := BoxScope(g, q / 3, q % 3);
    forall a, b | 0 <= a < b < 9 ensures box[a] != box[b] {
      BoxEntry(g, q / 3, q % 3, a / 3, a % 3);
      BoxEntry(g, q / 3, q % 3, b / 3, b % 3);
      CellNameInjective(3 * (q / 3) + a / 3, 3 * (q % 3) + a % 3, 3 * (q / 3) + b / 3, 3 * (q % 3) + b % 3);
    }
  }

  /** Entries `q`, `9 + q` and `18 + q` of the regular list are row `q`, column `q` and box `q`. */
  lemma RegularEntries(g: Grid, q: nat)
    requires IsSquare(g, 9) && q < 9
    ensures RegularConstraints(g)[q] == NewAllDifferent(g[q])
    ensures RegularConstraints(g)[9 + q] == NewAllDifferent(ColumnScope(g, q))
    ensures RegularConstraints(g)[18 + q] == NewAllDifferent(BoxScope(g, q / 3, q % 3))
  {
    var cs := RegularConstraints(g);
    assert cs[q] == RowsAndColumns(g)[q];
    assert cs[9 + q] == RowsAndColumns(g)[9 + q];
  }

  /** The regular constraint list holds 27 AllDifferent scopes of nine variables each. */
  lemma ScopeSizes(g: Grid, q: nat)
    requires NamedGrid(g) && q < 9
    ensures var cs := RegularConstraints(g);
      && cs[q].AllDifferent? && |cs[q].variables| == 9
      && cs[9 + q].AllDifferent? && |cs[9 + q].variables| == 9
      && cs[18 + q].AllDifferent? && |cs[18 + q].variables| == 9
  {
    RegularEntries(g, q);
    ScopesDistinct(g, q);
    DistinctCardinality(g[q]);
    DistinctCardinality(ColumnScope(g, q));
    DistinctCardinality(BoxScope(g, q / 3, q % 3));
  }

  /**
   * Every cell of the grid is in exactly one row scope (`q == r`), one column scope
   * (`9 + q` with `q == c`) and one box scope (`18 + q` with `q == 3 (r / 3) + c / 3`).
   */
  lemma CellInOneScopeEach(g: Grid, r: nat, c: nat, q: nat)
    requires NamedGrid(g) && r < 9 && c < 9 && q < 9
    ensures RegularConstraints(g)[q].Affects(CellName(r, c)) <==> q == r
    ensures RegularConstraints(g)[9 + q].Affects(CellName(r, c)) <==> q == c
    ensures RegularConstraints(g)[18 + q].Affects(CellName(r, c)) <==> q == 3 * (r / 3) + c / 3
  {
    RegularEntries(g, q);
    RowMembership(g, q, r, c);
    ColumnMembership(g, q, r, c);
    BoxMembership(g, q / 3, q % 3, r, c);
    DivideByThree(r / 3, c / 3);
    DivideByThree(q / 3, q % 3);
  }

  /** `MediumSudoku.Constraints`, as listed: the medium grid's rows, then its columns. */
  function MediumConstraints(): (c: seq<Constraint>)
    ensures c == RowsAndColumns(MediumGrid())
  {
    var mg := MediumGrid();
    assert ColumnScope(mg, 0) == ["a", "d", "g"];
    assert ColumnScope(mg, 1) == ["b", "e", "h"];
    assert ColumnScope(mg, 2) == ["c", "f", "i"];
    [
      NewAllDifferent(["a", "b", "c"]),
      NewAllDifferent(["d", "e", "f"]),
      NewAllDifferent(["g", "h", "i"]),
      NewAllDifferent(["a", "d", "g"]),
      NewAllDifferent(["b", "e", "h"]),
      NewAllDifferent(["c", "f", "i"])
    ]
  }

  /** `SmallSudoku.Constraints`, as listed: the small grid's rows, then its columns. */
  function SmallConstraints(): (c: seq<Constraint>)
    ensures c == RowsAndColumns(SmallGrid())
  {
    var sg := SmallGrid();
    assert ColumnScope(sg, 0) == ["a", "c"];
    assert ColumnScope(sg, 1) == ["b", "d"];
    [
      NewAllDifferent(["a", "b"]),
      NewAllDifferent(["c", "d"]),
      NewAllDifferent(["a", "c"]),
      NewAllDifferent(["b", "d"])
    ]
  }

  function ConstraintsOf(kind: Kind): seq<Constraint> {
    match kind
    case Regular => RegularConstraints(RegularGrid())
    case Medium => MediumConstraints()
    case Small => SmallConstraints()
  }
}
