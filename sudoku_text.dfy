/**
 * The text form of a Sudoku (Source/CSP/Sudoku.cs): the grid that `ToString` draws and the
 * line cleaning that `FromFile` applies to each line of a grid file before parsing it.
 * Both are stated over any grid of variables and any assignment map.
 */
module SudokuText {
  import opened Wrappers
  import opened Strings
  import opened Constraints
  import opened SudokuGrid

  /** The line drawn under the third and the sixth row. */
  const Separator: string := "-------|-------|-------"

  /** One cell: its value and a space, or `". "` when it is unassigned. */
  function CellText(m: map<Variable, int>, v: Variable): string {
    if v in m then IntToString(m[v]) + " " else ". "
  }

  /** `"| "` after the third and the sixth cell of a row (and the third and sixth row for separators). */
  predicate BlockEnd(k: nat) {
    k % 3 == 0 && k < 9
  }

  /** The first `k` cells of a row, each followed by `"| "` when it ends a block. */
  function RowCells(row: seq<Variable>, m: map<Variable, int>, k: nat): string
    requires k <= |row|
  {
    if k == 0 then ""
    else RowCells(row, m, k - 1) + (CellText(m, row[k - 1]) + if BlockEnd(k) then "| " else "")
  }

  /** A drawn row without its line break: a leading space, then the cells. */
  function RowText(row: seq<Variable>, m: map<Variable, int>): string {
    " " + RowCells(row, m, |row|)
  }

  /** The lines of the first `k` rows, with the separator after the third and the sixth. */
  function RenderLines(grid: Grid, m: map<Variable, int>, k: nat): seq<string>
    requires k <= |grid|
  {
    if k == 0 then []
    else RenderLines(grid, m, k - 1) + [RowText(grid[k - 1], m)] + (if BlockEnd(k) then [Separator] else [])
  }

  /** Each line followed by a line break. */
  function JoinLines(lines: seq<string>): string {
    if lines == [] then ""
    else JoinLines(lines[..|lines| - 1]) + (lines[|lines| - 1] + "\n")
  }

  /** The whole text of `ToString`. */
  function Render(grid: Grid, m: map<Variable, int>): string {
    JoinLines(RenderLines(grid, m, |grid|))
  }

  lemma {:induction false} JoinLinesAppend(a: seq<string>, b: seq<string>)
    ensures JoinLines(a + b) == JoinLines(a) + JoinLines(b)
    decreases |b|
  {
    if b != [] {
      var b', last := b[..|b| - 1], b[|b| - 1];
      assert (a + b)[..|a + b| - 1] == a + b';
      assert (a + b)[|a + b| - 1] == last;
      JoinLinesAppend(a, b');
      calc {
        JoinLines(a + b);
        JoinLines(a + b') + (last + "\n");
        JoinLines(a) + JoinLines(b') + (last + "\n");
        JoinLines(a) + (JoinLines(b') + (last + "\n"));
        JoinLines(a) + JoinLines(b);
      }
    } else {
      assert a + b == a;
    }
  }

  /** One more line of text. */
  lemma JoinLinesSnoc(lines: seq<string>, line: string)
    ensures JoinLines(lines + [line]) == JoinLines(lines) + (line + "\n")
  {
    var l := lines + [line];
    assert l[..|l| - 1] == lines;
  }

  /** Regrouping the text of one more line. */
  lemma LineRegroup(text: string, cells: string)
    ensures text + ((" " + cells) + "\n") == text + " " + cells + "\n"
  {
  }

  /** The text of `k` rows is that of `k - 1` rows, then the row's line, then a separator line when a block ends. */
  lemma RenderLinesStep(grid: Grid, m: map<Variable, int>, k: nat)
    requires 0 < k <= |grid|
    ensures var text := JoinLines(RenderLines(grid, m, k - 1)) + " " + RowCells(grid[k - 1], m, |grid[k - 1]|) + "\n";
            JoinLines(RenderLines(grid, m, k)) == if BlockEnd(k) then text + "-------|-------|-------\n" else text
  {
    var lines := RenderLines(grid, m, k - 1);
    var cells := RowCells(grid[k - 1], m, |grid[k - 1]|);
    var row := RowText(grid[k - 1], m);
    assert row == " " + cells;
    var text := JoinLines(lines) + " " + cells + "\n";
    JoinLinesSnoc(lines, row);
    LineRegroup(JoinLines(lines), cells);
    assert JoinLines(lines + [row]) == text;
    if BlockEnd(k) {
      JoinLinesSnoc(lines + [row], Separator);
      assert Separator + "\n" == "-------|-------|-------\n";
      assert RenderLines(grid, m, k) == lines + [row] + [Separator];
    } else {
      assert RenderLines(grid, m, k) == lines + [row];
    }
  }

  /** Every value the grid shows is a single digit, so every cell is drawn two characters wide. */
  predicate DigitValued(grid: Grid, m: map<Variable, int>) {
    forall i, j :: 0 <= i < |grid| && 0 <= j < |grid[i]| && grid[i][j] in m ==> 0 <= m[grid[i][j]] <= 9
  }

  /** Two assignments agree on the first `k` cells of a row: the same cells assigned, with the same values. */
  predicate CellsAgree(row: seq<Variable>, m1: map<Variable, int>, m2: map<Variable, int>, k: nat)
    requires k <= |row|
  {
    forall j :: 0 <= j < k ==> (row[j] in m1 <==> row[j] in m2) && (row[j] in m1 ==> m1[row[j]] == m2[row[j]])
  }

  /** Two assignments agree on every cell of the first `k` rows. */
  predicate RowsAgree(grid: Grid, m1: map<Variable, int>, m2: map<Variable, int>, k: nat)
    requires k <= |grid|
  {
    forall i :: 0 <= i < k ==> CellsAgree(grid[i], m1, m2, |grid[i]|)
  }

  /** Two assignments agree on a grid: the same cells assigned, with the same values. */
  predicate SameCells(grid: Grid, m1: map<Variable, int>, m2: map<Variable, int>) {
    forall i, j :: 0 <= i < |grid| && 0 <= j < |grid[i]| ==>
      (grid[i][j] in m1 <==> grid[i][j] in m2) && (grid[i][j] in m1 ==> m1[grid[i][j]] == m2[grid[i][j]])
  }

  /** The width of the first `k` drawn cells of a row of one-digit values. */
  function CellsWidth(k: nat): nat {
    if k == 0 then 0 else CellsWidth(k - 1) + 2 + (if BlockEnd(k) then 2 else 0)
  }

  /** How many lines the first `k` rows take. */
  function LineCount(k: nat): nat {
    if k == 0 then 0 else LineCount(k - 1) + 1 + (if BlockEnd(k) then 1 else 0)
  }

  /** A one-digit or unassigned cell is drawn as two characters, and the drawing tells them apart. */
  lemma CellTextDigits(m1: map<Variable, int>, m2: map<Variable, int>, v: Variable)
    requires v in m1 ==> 0 <= m1[v] <= 9
    requires v in m2 ==> 0 <= m2[v] <= 9
    ensures |CellText(m1, v)| == 2
    ensures CellText(m1, v) == CellText(m2, v) <==> (v in m1 <==> v in m2) && (v in m1 ==> m1[v] == m2[v])
  {
    if v in m1 {
      SingleDigitText(m1[v]);
      assert CellText(m1, v) == [DigitChar(m1[v]), ' '];
    }
    if v in m2 {
      SingleDigitText(m2[v]);
      assert CellText(m2, v) == [DigitChar(m2[v]), ' '];
    }
    if v in m1 && v in m2 && CellText(m1, v) == CellText(m2, v) {
      assert DigitChar(m1[v]) == CellText(m1, v)[0] == CellText(m2, v)[0] == DigitChar(m2[v]);
      assert DigitValue(DigitChar(m1[v])) == m1[v];
      assert DigitValue(DigitChar(m2[v])) == m2[v];
    }
  }

  /** Two strings split at the same place give the same pieces. */
  lemma SplitEqual(a: string, b: string, c: string, d: string)
    requires |a| == |c| && a + b == c + d
    ensures a == c && b == d
  {
    assert a == (a + b)[..|a|] && c == (c + d)[..|c|];
    assert b == (a + b)[|a|..] && d == (c + d)[|c|..];
  }

  /** With one-digit values, the first `k` cells of a row take `CellsWidth(k)` characters. */
  lemma {:induction false} RowCellsWidth(row: seq<Variable>, m: map<Variable, int>, k: nat)
    requires k <= |row|
    requires forall j :: 0 <= j < |row| && row[j] in m ==> 0 <= m[row[j]] <= 9
    ensures |RowCells(row, m, k)| == CellsWidth(k)
  {
    if k > 0 {
      RowCellsWidth(row, m, k - 1);
      CellTextDigits(m, m, row[k - 1]);
    }
  }

  /** Cells that agree draw alike. */
  lemma {:induction false} RowCellsAgree(row: seq<Variable>, m1: map<Variable, int>, m2: map<Variable, int>, k: nat)
    requires k <= |row| && CellsAgree(row, m1, m2, k)
    ensures RowCells(row, m1, k) == RowCells(row, m2, k)
  {
    if k > 0 {
      RowCellsAgree(row, m1, m2, k - 1);
      assert CellText(m1, row[k - 1]) == CellText(m2, row[k - 1]);
    }
  }

  /** With one-digit values, cells that draw alike agree. */
  lemma {:induction false} RowCellsDisagree(row: seq<Variable>, m1: map<Variable, int>, m2: map<Variable, int>, k: nat)
    requires k <= |row|
    requires forall j :: 0 <= j < |row| && row[j] in m1 ==> 0 <= m1[row[j]] <= 9
    requires forall j :: 0 <= j < |row| && row[j] in m2 ==> 0 <= m2[row[j]] <= 9
    requires RowCells(row, m1, k) == RowCells(row, m2, k)
    ensures CellsAgree(row, m1, m2, k)
  {
    if k > 0 {
      RowCellsWidth(row, m1, k - 1);
      RowCellsWidth(row, m2, k - 1);
      var v := row[k - 1];
      CellTextDigits(m1, m2, v);
      CellTextDigits(m2, m1, v);
      var tail := if BlockEnd(k) then "| " else "";
      SplitEqual(RowCells(row, m1, k - 1), CellText(m1, v) + tail, RowCells(row, m2, k - 1), CellText(m2, v) + tail);
      SplitEqual(CellText(m1, v), tail, CellText(m2, v), tail);
      RowCellsDisagree(row, m1, m2, k - 1);
    }
  }

  /** With one-digit values, the first `k` cells of a row draw alike exactly when they agree. */
  lemma RowCellsInjective(row: seq<Variable>, m1: map<Variable, int>, m2: map<Variable, int>, k: nat)
    requires k <= |row|
    requires forall j :: 0 <= j < |row| && row[j] in m1 ==> 0 <= m1[row[j]] <= 9
    requires forall j :: 0 <= j < |row| && row[j] in m2 ==> 0 <= m2[row[j]] <= 9
    ensures RowCells(row, m1, k) == RowCells(row, m2, k) <==> CellsAgree(row, m1, m2, k)
  {
    if CellsAgree(row, m1, m2, k) {
      RowCellsAgree(row, m1, m2, k);
    }
    if RowCells(row, m1, k) == RowCells(row, m2, k) {
      RowCellsDisagree(row, m1, m2, k);
    }
  }

  /** The line widths of the first `k` rows when every value is one digit. */
  function LineWidths(grid: Grid, k: nat): seq<nat>
    requires k <= |grid|
  {
    if k == 0 then []
    else LineWidths(grid, k - 1) + [1 + CellsWidth(|grid[k - 1]|)] + (if BlockEnd(k) then [|Separator|] else [])
  }

  /** With one-digit values the lines' widths depend on the grid's shape only. */
  lemma {:induction false} RenderLinesWidths(grid: Grid, m: map<Variable, int>, k: nat)
    requires k <= |grid| && DigitValued(grid, m)
    ensures |RenderLines(grid, m, k)| == |LineWidths(grid, k)|
    ensures forall n :: 0 <= n < |LineWidths(grid, k)| ==> |RenderLines(grid, m, k)[n]| == LineWidths(grid, k)[n]
  {
    if k > 0 {
      RenderLinesWidths(grid, m, k - 1);
      var row := grid[k - 1];
      RowCellsWidth(row, m, |row|);
      var a := RenderLines(grid, m, k - 1);
      var l := RenderLines(grid, m, k);
      forall n | 0 <= n < |LineWidths(grid, k)| ensures |l[n]| == LineWidths(grid, k)[n] {
        if n < |a| {
          assert l[n] == a[n];
        }
      }
    }
  }

  /** Rows that agree draw the same lines. */
  lemma {:induction false} RenderLinesAgree(grid: Grid, m1: map<Variable, int>, m2: map<Variable, int>, k: nat)
    requires k <= |grid|
    requires DigitValued(grid, m1) && DigitValued(grid, m2)
    requires RowsAgree(grid, m1, m2, k)
    ensures RenderLines(grid, m1, k) == RenderLines(grid, m2, k)
  {
    if k > 0 {
      RenderLinesAgree(grid, m1, m2, k - 1);
      RowCellsInjective(grid[k - 1], m1, m2, |grid[k - 1]|);
    }
  }

  /** Equal line lists come from rows that agree. */
  lemma {:induction false} RenderLinesDisagree(grid: Grid, m1: map<Variable, int>, m2: map<Variable, int>, k: nat)
    requires k <= |grid|
    requires DigitValued(grid, m1) && DigitValued(grid, m2)
    requires RenderLines(grid, m1, k) == RenderLines(grid, m2, k)
    ensures RowsAgree(grid, m1, m2, k)
  {
    if k > 0 {
      RenderLinesPrefix(grid, m1, m2, k);
      RenderLinesDisagree(grid, m1, m2, k - 1);
      DigitValuedRow(grid, m1, k - 1);
      DigitValuedRow(grid, m2, k - 1);
      RowTextDisagree(grid[k - 1], m1, m2);
    }
  }

  /** Equal lines for `k` rows are equal lines for the first `k - 1` rows, then the same row line. */
  lemma RenderLinesPrefix(grid: Grid, m1: map<Variable, int>, m2: map<Variable, int>, k: nat)
    requires 0 < k <= |grid|
    requires RenderLines(grid, m1, k) == RenderLines(grid, m2, k)
    ensures RenderLines(grid, m1, k - 1) == RenderLines(grid, m2, k - 1)
    ensures RowText(grid[k - 1], m1) == RowText(grid[k - 1], m2)
  {
    RenderLinesCount(grid, m1, k - 1);
    RenderLinesCount(grid, m2, k - 1);
    var a1, a2 := RenderLines(grid, m1, k - 1), RenderLines(grid, m2, k - 1);
    var l1, l2 := RenderLines(grid, m1, k), RenderLines(grid, m2, k);
    assert a1 == l1[..|a1|] && a2 == l2[..|a2|];
    assert l1[|a1|] == RowText(grid[k - 1], m1) && l2[|a2|] == RowText(grid[k - 1], m2);
  }

  /** Equal row lines of one-digit values come from assignments that agree on the row. */
  lemma RowTextDisagree(row: seq<Variable>, m1: map<Variable, int>, m2: map<Variable, int>)
    requires forall j :: 0 <= j < |row| && row[j] in m1 ==> 0 <= m1[row[j]] <= 9
    requires forall j :: 0 <= j < |row| && row[j] in m2 ==> 0 <= m2[row[j]] <= 9
    requires RowText(row, m1) == RowText(row, m2)
    ensures CellsAgree(row, m1, m2, |row|)
  {
    assert RowCells(row, m1, |row|) == RowText(row, m1)[1..];
    assert RowCells(row, m2, |row|) == RowText(row, m2)[1..];
    RowCellsDisagree(row, m1, m2, |row|);
  }

  /** The first `k` rows take `LineCount(k)` lines, whatever the values. */
  lemma {:induction false} RenderLinesCount(grid: Grid, m: map<Variable, int>, k: nat)
    requires k <= |grid|
    ensures |RenderLines(grid, m, k)| == LineCount(k)
  {
    if k > 0 {
      RenderLinesCount(grid, m, k - 1);
    }
  }

  /** Lines of equal lengths whose joined texts are equal are the same lines. */
  lemma {:induction false} JoinLinesInjective(a: seq<string>, b: seq<string>)
    requires |a| == |b| && forall n :: 0 <= n < |a| ==> |a[n]| == |b[n]|
    requires JoinLines(a) == JoinLines(b)
    ensures a == b
  {
    if a != [] {
      var a', b' := a[..|a| - 1], b[..|b| - 1];
      assert forall n :: 0 <= n < |a'| ==> a'[n] == a[n] && b'[n] == b[n];
      JoinLinesLength(a', b');
      SplitEqual(JoinLines(a'), a[|a| - 1] + "\n", JoinLines(b'), b[|b| - 1] + "\n");
      SplitEqual(a[|a| - 1], "\n", b[|b| - 1], "\n");
      JoinLinesInjective(a', b');
      assert a == a' + [a[|a| - 1]] && b == b' + [b[|b| - 1]];
    }
  }

  /** Lines of equal lengths join to texts of equal length. */
  lemma {:induction false} JoinLinesLength(a: seq<string>, b: seq<string>)
    requires |a| == |b| && forall n :: 0 <= n < |a| ==> |a[n]| == |b[n]|
    ensures |JoinLines(a)| == |JoinLines(b)|
  {
    if a != [] {
      assert forall n :: 0 <= n < |a| - 1 ==> a[..|a| - 1][n] == a[n] && b[..|b| - 1][n] == b[n];
      JoinLinesLength(a[..|a| - 1], b[..|b| - 1]);
    }
  }

  /**
   * With one-digit values, two assignments draw the same text exactly when they agree on
   * every cell of the grid: the rendering that `Equals` compares loses nothing.
   */
  lemma RenderInjective(grid: Grid, m1: map<Variable, int>, m2: map<Variable, int>)
    requires DigitValued(grid, m1) && DigitValued(grid, m2)
    ensures Render(grid, m1) == Render(grid, m2) <==> SameCells(grid, m1, m2)
  {
    var k := |grid|;
    if SameCells(grid, m1, m2) {
      assert RowsAgree(grid, m1, m2, k);
      RenderLinesAgree(grid, m1, m2, k);
    }
    if Render(grid, m1) == Render(grid, m2) {
      RenderLinesWidths(grid, m1, k);
      RenderLinesWidths(grid, m2, k);
      JoinLinesInjective(RenderLines(grid, m1, k), RenderLines(grid, m2, k));
      RenderLinesDisagree(grid, m1, m2, k);
      forall i, j | 0 <= i < k && 0 <= j < |grid[i]|
        ensures (grid[i][j] in m1 <==> grid[i][j] in m2) && (grid[i][j] in m1 ==> m1[grid[i][j]] == m2[grid[i][j]])
      {
        assert CellsAgree(grid[i], m1, m2, |grid[i]|);
      }
    }
  }

  /** A regular grid of one-digit values draws as 23-character lines: nine rows and two separators. */
  lemma RegularLineShape(grid: Grid, m: map<Variable, int>)
    requires IsSquare(grid, 9) && DigitValued(grid, m)
    ensures |RenderLines(grid, m, 9)| == 11
    ensures forall n :: 0 <= n < 11 ==> |RenderLines(grid, m, 9)[n]| == 23
  {
    RenderLinesWidths(grid, m, 9);
    SquareWidths(grid, 9);
    assert LineCount(9) == 11;
  }

  /** Every line of the first `k` rows of a 9 by 9 grid is 23 characters wide. */
  lemma {:induction false} SquareWidths(grid: Grid, k: nat)
    requires IsSquare(grid, 9) && k <= 9
    ensures |LineWidths(grid, k)| == LineCount(k)
    ensures forall n :: 0 <= n < |LineWidths(grid, k)| ==> LineWidths(grid, k)[n] == 23
  {
    if k > 0 {
      SquareWidths(grid, k - 1);
      assert CellsWidth(9) == 22;
    }
  }

  /** `string.Replace` of one character by a string, at every occurrence. */
  function Replace(s: string, c: char, r: string): string
  {
    if s == [] then ""
    else Replace(s[..|s| - 1], c, r) + (if s[|s| - 1] == c then r else [s[|s| - 1]])
  }

  /** Replacing works piece by piece. */
  lemma {:induction false} ReplaceAppend(a: string, b: string, c: char, r: string)
    ensures Replace(a + b, c, r) == Replace(a, c, r) + Replace(b, c, r)
    decreases |b|
  {
    if b != [] {
      var b', last := b[..|b| - 1], b[|b| - 1];
      assert (a + b)[..|a + b| - 1] == a + b';
      assert (a + b)[|a + b| - 1] == last;
      ReplaceAppend(a, b', c, r);
    } else {
      assert a + b == a;
    }
  }

  /** A string without the character is left as it is. */
  lemma {:induction false} ReplaceAbsent(s: string, c: char, r: string)
    requires c !in s
    ensures Replace(s, c, r) == s
  {
    if s != [] {
      ReplaceAbsent(s[..|s| - 1], c, r);
      assert s == s[..|s| - 1] + [s[|s| - 1]];
    }
  }

  /** The cleaning `FromFile` applies to a line: drop spaces and bars, read `.` as a zero. */
  function CleanRow(line: string): string
  {
    Replace(Replace(Replace(line, ' ', ""), '|', ""), '.', "0")
  }

  /** Lines that `FromFile` passes over: empty ones and those starting with a dash. */
  predicate Skipped(line: string) {
    (|line| > 0 && line[0] == '-') || |line| == 0
  }

  /** `int.Parse` of every character of a cleaned line; a character that is not a digit throws. */
  function ParseRow(cleaned: string): (r: Option<seq<int>>)
    ensures r.Some? <==> AllDigits(cleaned)
    ensures r.Some? ==> |r.value| == |cleaned| && forall j :: 0 <= j < |cleaned| ==> 0 <= r.value[j] <= 9
  {
    if AllDigits(cleaned) then Some(seq(|cleaned|, j requires 0 <= j < |cleaned| => DigitValue(cleaned[j]) as int))
    else None
  }

  /** The rows `FromFile` reads from the lines of a file; `None` when some line does not parse. */
  function ParseGrid(lines: seq<string>): (r: Option<seq<seq<int>>>)
    ensures r.Some? ==> |r.value| <= |lines|
    ensures r.Some? ==> forall i, j :: 0 <= i < |r.value| && 0 <= j < |r.value[i]| ==> 0 <= r.value[i][j] <= 9
  {
    if lines == [] then Some([])
    else
      var rows := ParseGrid(lines[..|lines| - 1]);
      var line := lines[|lines| - 1];
      if rows.None? || Skipped(line) then rows
      else
        var row := ParseRow(CleanRow(line));
        if row.None? then None else Some(rows.value + [row.value])
  }

  /** A line that fails makes the whole file fail, whatever follows it. */
  lemma {:induction false} ParseGridFailurePersists(lines: seq<string>, i: nat)
    requires i <= |lines| && ParseGrid(lines[..i]).None?
    ensures ParseGrid(lines).None?
    decreases |lines|
  {
    if i < |lines| {
      var init := lines[..|lines| - 1];
      assert init[..i] == lines[..i];
      ParseGridFailurePersists(init, i);
    } else {
      assert lines[..i] == lines;
    }
  }

  /**
   * `FromFile`, given the file's lines: skip separators and empty lines, clean every other
   * line and parse it character by character into a row.
   */
  method FromFile(lines: seq<string>) returns (r: Option<seq<seq<int>>>)
    ensures r == ParseGrid(lines)
  {
    var rows: seq<seq<int>> := [];
    var i := 0;
    while i < |lines|
      invariant 0 <= i <= |lines|
      invariant ParseGrid(lines[..i]) == Some(rows)
    {
      var gridRow := lines[i];
      assert lines[..i + 1][..i] == lines[..i];
      if Skipped(gridRow) {
        i := i + 1;
        continue;
      }
      var cleanedRow := CleanRow(gridRow);
      var rowValues := ParseRow(cleanedRow);
      if rowValues.None? {
        ParseGridFailurePersists(lines, i + 1);
        return None;
      }
      rows := rows + [rowValues.value];
      i := i + 1;
    }
    assert lines[..i] == lines;
    return Some(rows);
  }

  /** The value a cell stands for in a grid file: its value, or `NoValue` when unassigned. */
  function CellValue(m: map<Variable, int>, v: Variable): int {
    if v in m then m[v] else NoValue
  }

  /** The values of a row of variables. */
  function ValueRow(row: seq<Variable>, m: map<Variable, int>): seq<int> {
    seq(|row|, j requires 0 <= j < |row| => CellValue(m, row[j]))
  }

  /** Replacing in a one-character string. */
  lemma ReplaceChar(x: char, c: char, r: string)
    ensures Replace([x], c, r) == if x == c then r else [x]
  {
    assert [x][..0] == [];
  }

  /** The values of the first `k` rows of a grid. */
  function ValueGrid(grid: Grid, m: map<Variable, int>, k: nat): seq<seq<int>>
    requires k <= |grid|
  {
    seq(k, i requires 0 <= i < k => ValueRow(grid[i], m))
  }

  /** Cleaning a one-character string. */
  lemma CleanChar(x: char)
    ensures CleanRow([x]) == if x == ' ' || x == '|' then "" else if x == '.' then "0" else [x]
  {
    ReplaceChar(x, ' ', "");
    if x != ' ' {
      ReplaceChar(x, '|', "");
      if x != '|' {
        ReplaceChar(x, '.', "0");
      }
    }
  }

  /** Cleaning works piece by piece. */
  lemma CleanRowAppend(a: string, b: string)
    ensures CleanRow(a + b) == CleanRow(a) + CleanRow(b)
  {
    ReplaceAppend(a, b, ' ', "");
    ReplaceAppend(Replace(a, ' ', ""), Replace(b, ' ', ""), '|', "");
    ReplaceAppend(Replace(Replace(a, ' ', ""), '|', ""), Replace(Replace(b, ' ', ""), '|', ""), '.', "0");
  }

  /** Spaces and bars clean away entirely. */
  lemma {:induction false} CleanBlanks(s: string)
    requires forall i :: 0 <= i < |s| ==> s[i] == ' ' || s[i] == '|'
    ensures CleanRow(s) == ""
  {
    if s == [] {
      assert CleanRow(s) == "";
    } else {
      var init, last := s[..|s| - 1], s[|s| - 1];
      assert s == init + [last];
      CleanBlanks(init);
      CleanRowAppend(init, [last]);
      CleanChar(last);
    }
  }

  /** A drawn cell, with its block bar if any, cleans to the digit of its value. */
  lemma CleanCell(m: map<Variable, int>, v: Variable, tail: string)
    requires v in m ==> 0 <= m[v] <= 9
    requires tail == "| " || tail == ""
    ensures 0 <= CellValue(m, v) <= 9
    ensures CleanRow(CellText(m, v) + tail) == [DigitChar(CellValue(m, v))]
  {
    var d := CellValue(m, v);
    var first := if v in m then DigitChar(d) else '.';
    if v in m {
      SingleDigitText(d);
    }
    var blanks := [' '] + tail;
    assert forall i :: 0 <= i < |blanks| ==> blanks[i] == ' ' || blanks[i] == '|' by {
      if tail == "" {
        assert blanks == [' '];
      } else {
        assert blanks == [' ', '|', ' '];
      }
    }
    assert CellText(m, v) + tail == [first] + blanks;
    CleanRowAppend([first], blanks);
    CleanChar(first);
    CleanBlanks(blanks);
  }

  /** Parsing one more digit appends its value. */
  lemma ParseRowAppend(s: string, x: char)
    requires AllDigits(s) && IsDigit(x)
    ensures ParseRow(s + [x]) == Some(ParseRow(s).value + [DigitValue(x) as int])
  {
    var t := s + [x];
    assert forall j :: 0 <= j < |s| ==> t[j] == s[j];
    assert AllDigits(t);
    var p, q := ParseRow(t).value, ParseRow(s).value + [DigitValue(x) as int];
    assert |p| == |q|;
    forall j | 0 <= j < |p| ensures p[j] == q[j] {
      if j < |s| {
        assert p[j] == DigitValue(s[j]) as int;
      } else {
        assert p[j] == DigitValue(x) as int;
      }
    }
    assert p == q;
  }

  /** The first `k` drawn cells of a row clean to the digits of their values. */
  lemma {:induction false} CleanRowCells(row: seq<Variable>, m: map<Variable, int>, k: nat)
    requires k <= |row|
    requires forall j :: 0 <= j < |row| && row[j] in m ==> 0 <= m[row[j]] <= 9
    ensures ParseRow(CleanRow(RowCells(row, m, k))) == Some(ValueRow(row, m)[..k])
  {
    if k == 0 {
      assert CleanRow("") == "";
    } else {
      CleanRowCells(row, m, k - 1);
      var v := row[k - 1];
      var tail := if BlockEnd(k) then "| " else "";
      CleanCell(m, v, tail);
      var rc, cell := RowCells(row, m, k - 1), CellText(m, v) + tail;
      var s := CleanRow(rc);
      var x := DigitChar(CellValue(m, v));
      assert RowCells(row, m, k) == rc + cell;
      CleanRowAppend(rc, cell);
      assert CleanRow(rc + cell) == s + [x];
      ParseRowAppend(s, x);
      assert DigitValue(x) as int == CellValue(m, v);
      ValueRowPrefix(row, m, k);
    }
  }

  /** One more cell of a row's values. */
  lemma ValueRowPrefix(row: seq<Variable>, m: map<Variable, int>, k: nat)
    requires 0 < k <= |row|
    ensures ValueRow(row, m)[..k] == ValueRow(row, m)[..k - 1] + [CellValue(m, row[k - 1])]
  {
    var vr := ValueRow(row, m);
    assert vr[..k] == vr[..k - 1] + [vr[k - 1]];
  }

  /** A drawn row cleans and parses to the values of its cells. */
  lemma CleanRowText(row: seq<Variable>, m: map<Variable, int>)
    requires forall j :: 0 <= j < |row| && row[j] in m ==> 0 <= m[row[j]] <= 9
    ensures !Skipped(RowText(row, m))
    ensures ParseRow(CleanRow(RowText(row, m))) == Some(ValueRow(row, m))
  {
    CleanRowCells(row, m, |row|);
    CleanRowAppend(" ", RowCells(row, m, |row|));
    CleanChar(' ');
    assert CleanRow(RowText(row, m)) == CleanRow(RowCells(row, m, |row|));
    assert ValueRow(row, m)[..|row|] == ValueRow(row, m);
  }

  /**
   * Reading back what `ToString` draws: with one-digit values, `FromFile` on the drawn lines
   * gives every row's values, with `NoValue` for the unassigned cells.
   */
  lemma {:induction false} RenderParses(grid: Grid, m: map<Variable, int>, k: nat)
    requires k <= |grid| && DigitValued(grid, m)
    ensures ParseGrid(RenderLines(grid, m, k)) == Some(ValueGrid(grid, m, k))
  {
    if k > 0 {
      RenderParses(grid, m, k - 1);
      var a := RenderLines(grid, m, k - 1);
      var row := grid[k - 1];
      var b := a + [RowText(row, m)];
      DigitValuedRow(grid, m, k - 1);
      RowParses(a, ValueGrid(grid, m, k - 1), row, m);
      ValueGridStep(grid, m, k);
      if BlockEnd(k) {
        assert RenderLines(grid, m, k) == b + [Separator];
        ParseGridSkip(b, Separator);
      } else {
        assert RenderLines(grid, m, k) == b;
      }
    } else {
      assert ValueGrid(grid, m, k) == [];
    }
  }

  /** A drawn row after lines that parse adds its values. */
  lemma RowParses(lines: seq<string>, rows: seq<seq<int>>, row: seq<Variable>, m: map<Variable, int>)
    requires ParseGrid(lines) == Some(rows)
    requires forall j :: 0 <= j < |row| && row[j] in m ==> 0 <= m[row[j]] <= 9
    ensures ParseGrid(lines + [RowText(row, m)]) == Some(rows + [ValueRow(row, m)])
  {
    CleanRowText(row, m);
    ParseGridAppend(lines, RowText(row, m), rows, ValueRow(row, m));
  }

  /** Each row of a grid of one-digit values holds one-digit values. */
  lemma DigitValuedRow(grid: Grid, m: map<Variable, int>, i: nat)
    requires i < |grid| && DigitValued(grid, m)
    ensures forall j :: 0 <= j < |grid[i]| && grid[i][j] in m ==> 0 <= m[grid[i][j]] <= 9
  {
  }

  /** A parsed line adds its row. */
  lemma ParseGridAppend(lines: seq<string>, line: string, rows: seq<seq<int>>, row: seq<int>)
    requires ParseGrid(lines) == Some(rows) && !Skipped(line) && ParseRow(CleanRow(line)) == Some(row)
    ensures ParseGrid(lines + [line]) == Some(rows + [row])
  {
    var l := lines + [line];
    assert l[..|l| - 1] == lines && l[|l| - 1] == line;
  }

  /** A line that is neither skipped nor all digits once cleaned makes the file fail. */
  lemma ParseGridReject(lines: seq<string>, line: string)
    requires ParseGrid(lines).Some? && !Skipped(line) && !AllDigits(CleanRow(line))
    ensures ParseGrid(lines + [line]) == None
  {
    var l := lines + [line];
    assert l[..|l| - 1] == lines && l[|l| - 1] == line;
  }

  /** A skipped line adds nothing. */
  lemma ParseGridSkip(lines: seq<string>, line: string)
    requires Skipped(line)
    ensures ParseGrid(lines + [line]) == ParseGrid(lines)
  {
    var l := lines + [line];
    assert l[..|l| - 1] == lines && l[|l| - 1] == line;
  }

  /** One more row of a grid's values. */
  lemma ValueGridStep(grid: Grid, m: map<Variable, int>, k: nat)
    requires 0 < k <= |grid|
    ensures ValueGrid(grid, m, k) == ValueGrid(grid, m, k - 1) + [ValueRow(grid[k - 1], m)]
  {
  }
}
