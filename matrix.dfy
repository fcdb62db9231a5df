/**
 * matrix.go: the letter grid. Rows are right-padded with blanks to the widest row, the
 * upper-case cells are listed as 1-based "(row,column)" labels, and RemoveLetters blanks
 * out cells and lets the letters above them fall, column by column.
 */
module Matrix {
  import opened Wrappers
  import opened Text
  import opened Coords

  /** The error of the file loader that does not come from I/O. */
  datatype MatrixError = ErrEmptyMatrix

  // ---------------------------------------------------------------------------
  // Construction: padding and specials.
  // ---------------------------------------------------------------------------

  /** Column `j` of a row padded with blanks: the row's own character, else ' '. */
  function PadCell(row: seq<char>, j: int): char {
    if 0 <= j < |row| then row[j] else ' '
  }

  /** The rows, each right-padded with blanks to `width` characters. */
  function Padded(rows: seq<seq<char>>, width: nat): (g: seq<seq<char>>)
    ensures |g| == |rows|
    ensures forall i :: 0 <= i < |g| ==> |g[i]| == width
  {
    seq(|rows|, i requires 0 <= i < |rows| => seq(width, j requires 0 <= j < width => PadCell(rows[i], j)))
  }

  /** Padding keeps every character where it was and only appends blanks. */
  lemma PaddedKeepsRows(rows: seq<seq<char>>, width: nat, i: int)
    requires 0 <= i < |rows| && |rows[i]| <= width
    ensures Padded(rows, width)[i] == rows[i] + seq(width - |rows[i]|, _ => ' ')
  {
  }

  /** The label recorded for the upper-case cell at row i, column j: "(i+1,j+1)". */
  function Label(i: int, j: int): string {
    "(" + IntToString(i + 1) + "," + IntToString(j + 1) + ")"
  }

  /** Labels of the upper-case cells among the first k cells of row i, left to right. */
  function RowSpecialsUpTo(i: int, row: seq<char>, k: nat): seq<string>
    requires k <= |row|
  {
    if k == 0 then []
    else RowSpecialsUpTo(i, row, k - 1) + (if IsUpperAscii(row[k - 1]) then [Label(i, k - 1)] else [])
  }

  /** Labels of the upper-case cells of row i, left to right. */
  function RowSpecials(i: int, row: seq<char>): seq<string> {
    RowSpecialsUpTo(i, row, |row|)
  }

  /** The lists `f` gives for each of the first k rows, concatenated in row order. */
  function ConcatRows(grid: seq<seq<char>>, f: (int, seq<char>) -> seq<string>, k: nat): seq<string>
    requires k <= |grid|
  {
    if k == 0 then []
    else ConcatRows(grid, f, k - 1) + f(k - 1, grid[k - 1])
  }

  lemma {:induction false} ConcatRowsSpec(grid: seq<seq<char>>, f: (int, seq<char>) -> seq<string>, k: nat, s: string)
    requires k <= |grid|
    ensures s in ConcatRows(grid, f, k) <==> exists i :: 0 <= i < k && s in f(i, grid[i])
  {
    if k > 0 {
      ConcatRowsSpec(grid, f, k - 1, s);
    }
  }

  /** Labels of the upper-case cells of a grid, in row-major order. */
  function SpecialsOf(grid: seq<seq<char>>): seq<string> {
    ConcatRows(grid, RowSpecials, |grid|)
  }

  lemma {:induction false} RowSpecialsSpec(i: int, row: seq<char>, k: nat, s: string)
    requires k <= |row|
    ensures s in RowSpecialsUpTo(i, row, k) <==> exists j :: 0 <= j < k && IsUpperAscii(row[j]) && s == Label(i, j)
  {
    if k > 0 {
      RowSpecialsSpec(i, row, k - 1, s);
      var last := if IsUpperAscii(row[k - 1]) then [Label(i, k - 1)] else [];
      assert RowSpecialsUpTo(i, row, k) == RowSpecialsUpTo(i, row, k - 1) + last;
      if s in last {
        assert IsUpperAscii(row[k - 1]) && s == Label(i, k - 1);
      }
      if exists j :: 0 <= j < k && IsUpperAscii(row[j]) && s == Label(i, j) {
        var j :| 0 <= j < k && IsUpperAscii(row[j]) && s == Label(i, j);
        if j == k - 1 {
          assert s in last;
        }
      }
    }
  }

  /** A label is among the specials exactly when it names an upper-case cell. */
  lemma SpecialsSpec(grid: seq<seq<char>>, s: string)
    ensures s in SpecialsOf(grid) <==>
      exists i, j :: 0 <= i < |grid| && 0 <= j < |grid[i]| && IsUpperAscii(grid[i][j]) && s == Label(i, j)
  {
    ConcatRowsSpec(grid, RowSpecials, |grid|, s);
    forall i | 0 <= i < |grid| {
      RowSpecialsSpec(i, grid[i], |grid[i]|, s);
    }
  }

  /** The longest row length, 0 for no rows. */
  function Widest(rows: seq<seq<char>>): nat {
    if rows == [] then 0
    else
      var w := Widest(rows[..|rows| - 1]);
      if |rows[|rows| - 1]| > w then |rows[|rows| - 1]| else w
  }

  /** Widest bounds every row, and is the length of some row unless it is 0. */
  lemma {:induction false} WidestIsMax(rows: seq<seq<char>>)
    ensures forall i :: 0 <= i < |rows| ==> |rows[i]| <= Widest(rows)
    ensures Widest(rows) == 0 || exists i :: 0 <= i < |rows| && |rows[i]| == Widest(rows)
  {
    if rows != [] {
      var init := rows[..|rows| - 1];
      WidestIsMax(init);
      assert forall i :: 0 <= i < |init| ==> init[i] == rows[i];
    }
  }

  /** The lines the file loader keeps: the non-empty ones, in order. */
  function NonEmptyLines(lines: seq<string>): seq<string> {
    if lines == [] then []
    else NonEmptyLines(lines[..|lines| - 1]) + (if lines[|lines| - 1] != "" then [lines[|lines| - 1]] else [])
  }

  /** The kept lines are the non-empty input lines; there are none exactly when every line is empty. */
  lemma {:induction false} NonEmptyLinesSpec(lines: seq<string>)
    ensures forall k :: 0 <= k < |NonEmptyLines(lines)| ==> NonEmptyLines(lines)[k] != ""
    ensures forall l :: l in NonEmptyLines(lines) <==> l in lines && l != ""
    ensures NonEmptyLines(lines) == [] <==> forall k :: 0 <= k < |lines| ==> lines[k] == ""
  {
    if lines != [] {
      var init := lines[..|lines| - 1];
      NonEmptyLinesSpec(init);
      assert lines == init + [lines[|lines| - 1]];
    }
  }

  // ---------------------------------------------------------------------------
  // Gravity: what RemoveLetters does to one column.
  // ---------------------------------------------------------------------------

  /**
   * A column, read top to bottom, after its '-' cells are removed the way RemoveLetters
   * removes them: scanning downwards, each '-' drops out, the cells above it move down
   * one, and a blank enters at the top.
   */
  function Collapse(col: seq<char>): (r: seq<char>)
    ensures |r| == |col|
  {
    if col == [] then []
    else
      var p := Collapse(col[..|col| - 1]);
      if col[|col| - 1] == '-' then [' '] + p else p + [col[|col| - 1]]
  }

  function Blanks(n: nat): seq<char> {
    seq(n, _ => ' ')
  }

  /** The column without its '-' cells, in their original order. */
  function Unmarked(col: seq<char>): seq<char> {
    if col == [] then []
    else Unmarked(col[..|col| - 1]) + (if col[|col| - 1] == '-' then [] else [col[|col| - 1]])
  }

  /** A collapsed column is one blank per removed cell, then the remaining cells in their order. */
  lemma {:induction false} CollapseShape(col: seq<char>)
    ensures Collapse(col) == Blanks(Count(col, '-')) + Unmarked(col)
  {
    if col != [] {
      var init := col[..|col| - 1];
      CollapseShape(init);
      if col[|col| - 1] == '-' {
        assert [' '] + Blanks(Count(init, '-')) == Blanks(Count(init, '-') + 1);
      }
    }
  }

  lemma {:induction false} UnmarkedHasNoMark(col: seq<char>)
    ensures '-' !in Unmarked(col)
  {
    if col != [] {
      UnmarkedHasNoMark(col[..|col| - 1]);
    }
  }

  /** No '-' survives a collapse. */
  lemma CollapseRemovesMarks(col: seq<char>)
    ensures '-' !in Collapse(col)
  {
    CollapseShape(col);
    UnmarkedHasNoMark(col);
  }

  /** A column without '-' is left as it is; in particular collapsing twice is collapsing once. */
  lemma {:induction false} CollapseUnmarked(col: seq<char>)
    requires '-' !in col
    ensures Collapse(col) == col
  {
    if col != [] {
      CollapseUnmarked(col[..|col| - 1]);
    }
  }

  lemma CollapseIdempotent(col: seq<char>)
    ensures Collapse(Collapse(col)) == Collapse(col)
  {
    CollapseRemovesMarks(col);
    CollapseUnmarked(Collapse(col));
  }

  /** A column part-way through the scan: the first i cells collapsed, the rest untouched. */
  function Partial(col: seq<char>, i: nat): (r: seq<char>)
    requires i <= |col|
    ensures |r| == |col|
  {
    Collapse(col[..i]) + col[i..]
  }

  /** Processing cell i: if it is '-', the cells above move down one and a blank goes on top. */
  lemma PartialStep(col: seq<char>, i: nat)
    requires i < |col|
    ensures Partial(col, i)[i] == col[i]
    ensures Partial(col, i + 1) ==
      if col[i] == '-' then [' '] + Partial(col, i)[..i] + Partial(col, i)[i + 1..] else Partial(col, i)
  {
    assert col[..i + 1][..i] == col[..i];
    assert col[..i + 1][i] == col[i];
  }

  /** Column `j` of a grid with the listed coordinates marked '-'. */
  function Marked(col: seq<char>, coordinates: seq<Coord>, j: int): (m: seq<char>)
    ensures |m| == |col|
  {
    seq(|col|, r requires 0 <= r < |col| => if Coord(r, j) in coordinates then '-' else col[r])
  }

  /** A column no coordinate names is not touched: it keeps any '-' it had only if it had none. */
  lemma UntouchedColumn(col: seq<char>, coordinates: seq<Coord>, j: int)
    requires forall k :: 0 <= k < |coordinates| ==> coordinates[k].y != j
    requires '-' !in col
    ensures Collapse(Marked(col, coordinates, j)) == col
  {
    assert Marked(col, coordinates, j) == col;
    CollapseUnmarked(col);
  }

  /** Listing a coordinate twice marks the same cells as listing it once. */
  lemma MarkedIgnoresRepeats(col: seq<char>, coordinates: seq<Coord>, j: int, c: Coord)
    requires c in coordinates
    ensures Marked(col, coordinates + [c], j) == Marked(col, coordinates, j)
  {
  }

  /** The column of "abc/def/Ghi" holding 'G', after removing (2,0): the last row starts with 'd'. */
  lemma RemoveOneExample()
    ensures Collapse(Marked(['a', 'd', 'G'], [Coord(2, 0)], 0)) == [' ', 'a', 'd']
  {
    assert Marked(['a', 'd', 'G'], [Coord(2, 0)], 0) == ['a', 'd', '-'];
    assert ['a', 'd', '-'][..2] == ['a', 'd'];
    assert ['a', 'd'][..1] == ['a'];
  }

  /** "aBc/def/ghi" after removing (2,1), (1,1), (0,2): rows "a  ", "d f", "gBi", column by column. */
  lemma RemoveManyExample()
    ensures Collapse(Marked(['a', 'd', 'g'], [Coord(2, 1), Coord(1, 1), Coord(0, 2)], 0)) == ['a', 'd', 'g']
    ensures Collapse(Marked(['B', 'e', 'h'], [Coord(2, 1), Coord(1, 1), Coord(0, 2)], 1)) == [' ', ' ', 'B']
    ensures Collapse(Marked(['c', 'f', 'i'], [Coord(2, 1), Coord(1, 1), Coord(0, 2)], 2)) == [' ', 'f', 'i']
  {
    var cs := [Coord(2, 1), Coord(1, 1), Coord(0, 2)];
    RemoveManyFirstColumn(cs);
    RemoveManySecondColumn(cs);
    RemoveManyThirdColumn(cs);
  }

  /** Column 0 of "aBc/def/ghi": no listed cell lies in it, and it stays as it was. */
  lemma RemoveManyFirstColumn(cs: seq<Coord>)
    requires cs == [Coord(2, 1), Coord(1, 1), Coord(0, 2)]
    ensures Collapse(Marked(['a', 'd', 'g'], cs, 0)) == ['a', 'd', 'g']
  {
    assert Marked(['a', 'd', 'g'], cs, 0) == ['a', 'd', 'g'];
    assert ['a', 'd', 'g'][..2] == ['a', 'd'];
    assert ['a', 'd'][..1] == ['a'];
  }

  /** Column 1 of "aBc/def/ghi": 'e' and 'h' go, and 'B' falls to the bottom. */
  lemma RemoveManySecondColumn(cs: seq<Coord>)
    requires cs == [Coord(2, 1), Coord(1, 1), Coord(0, 2)]
    ensures Collapse(Marked(['B', 'e', 'h'], cs, 1)) == [' ', ' ', 'B']
  {
    assert Marked(['B', 'e', 'h'], cs, 1) == ['B', '-', '-'];
    assert ['B', '-', '-'][..2] == ['B', '-'];
    assert ['B', '-'][..1] == ['B'];
  }

  /** Column 2 of "aBc/def/ghi": 'c' goes from the top, and the top is blanked. */
  lemma RemoveManyThirdColumn(cs: seq<Coord>)
    requires cs == [Coord(2, 1), Coord(1, 1), Coord(0, 2)]
    ensures Collapse(Marked(['c', 'f', 'i'], cs, 2)) == [' ', 'f', 'i']
  {
    assert Marked(['c', 'f', 'i'], cs, 2) == ['-', 'f', 'i'];
    assert ['-', 'f', 'i'][..2] == ['-', 'f'];
    assert ['-', 'f'][..1] == ['-'];
  }

  // ---------------------------------------------------------------------------
  // The grid object.
  // ---------------------------------------------------------------------------

  class LetterMatrix {
    const matrix: array2<char>
    const rows: int
    const cols: int
    const specials: seq<string>

    ghost predicate Valid()
      reads this
    {
      matrix.Length0 == rows && matrix.Length1 == cols
    }

    /** Column j, top to bottom. */
    ghost function Column(j: int): (col: seq<char>)
      requires Valid() && 0 <= j < cols
      reads this, matrix
      ensures |col| == rows
    {
      seq(rows, r requires 0 <= r < rows reads matrix => matrix[r, j])
    }

    /** The grid as rows of characters. */
    ghost function Grid(): (g: seq<seq<char>>)
      requires Valid()
      reads this, matrix
      ensures |g| == rows && forall i :: 0 <= i < rows ==> |g[i]| == cols
    {
      seq(rows, i requires 0 <= i < rows reads matrix =>
        seq(cols, j requires 0 <= j < cols reads matrix => matrix[i, j]))
    }

    /**
     * newLetterMatrixFromRuneMatrix: every row is padded with blanks to `maxCols`, and the
     * label of each upper-case cell is collected, row by row and left to right.
     */
    constructor (lines: seq<seq<char>>, maxCols: int)
      requires |lines| > 0
      requires forall i :: 0 <= i < |lines| ==> |lines[i]| <= maxCols
      ensures Valid() && fresh(matrix)
      ensures rows == |lines| && cols == maxCols
      ensures forall i, j :: 0 <= i < rows && 0 <= j < cols ==> matrix[i, j] == PadCell(lines[i], j)
      ensures specials == SpecialsOf(Padded(lines, maxCols))
    {
      assert |lines[0]| <= maxCols;
      var width: nat := maxCols;
      ghost var padded := Padded(lines, width);
      var grid := new char[|lines|, width];
      var found: seq<string> := [];
      for i := 0 to |lines|
        invariant forall r, j :: 0 <= r < i && 0 <= j < width ==> grid[r, j] == PadCell(lines[r], j)
        invariant found == ConcatRows(padded, RowSpecials, i)
      {
        for j := 0 to width
          invariant forall r, c :: 0 <= r < i && 0 <= c < width ==> grid[r, c] == PadCell(lines[r], c)
          invariant forall c :: 0 <= c < j ==> grid[i, c] == PadCell(lines[i], c)
        {
          grid[i, j] := if j < |lines[i]| then lines[i][j] else ' ';
        }
        for j := 0 to width
          invariant found == ConcatRows(padded, RowSpecials, i) + RowSpecialsUpTo(i, padded[i], j)
        {
          if IsUpperAscii(grid[i, j]) {
            found := found + [Label(i, j)];
          }
        }
      }
      matrix := grid;
      rows := |lines|;
      cols := width;
      specials := found;
    }

    /**
     * RemoveLetters: every listed cell is set to '-', then each column is scanned top-down
     * and every '-' is removed by moving the cells above it down one and blanking the top.
     * Each column ends up as the collapse of its marked form.
     */
    method RemoveLetters(coordinates: seq<Coord>)
      requires Valid()
      requires forall k :: 0 <= k < |coordinates| ==> InBounds(coordinates[k], rows, cols)
      modifies matrix
      ensures forall j :: 0 <= j < cols ==> Column(j) == Collapse(Marked(old(Column(j)), coordinates, j))
    {
      MarkCells(coordinates);
      ghost var marked := seq(cols, j requires Valid() && 0 <= j < cols reads this, matrix => Column(j));
      forall j | 0 <= j < cols ensures Column(j) == Partial(marked[j], 0) {
        assert Column(j) == marked[j];
      }
      for i := 0 to rows
        invariant forall c :: 0 <= c < cols ==> Column(c) == Partial(marked[c], i)
      {
        SettleRow(i, marked);
      }
      forall j | 0 <= j < cols ensures Column(j) == Collapse(marked[j]) {
        assert marked[j][..rows] == marked[j];
      }
    }

    /** The first loop of RemoveLetters: each listed cell becomes '-'. */
    method MarkCells(coordinates: seq<Coord>)
      requires Valid()
      requires forall k :: 0 <= k < |coordinates| ==> InBounds(coordinates[k], rows, cols)
      modifies matrix
      ensures forall j :: 0 <= j < cols ==> Column(j) == Marked(old(Column(j)), coordinates, j)
    {
      for n := 0 to |coordinates|
        invariant forall r, j :: 0 <= r < rows && 0 <= j < cols ==>
          matrix[r, j] == if Coord(r, j) in coordinates[..n] then '-' else old(matrix[r, j])
      {
        assert coordinates[..n + 1] == coordinates[..n] + [coordinates[n]];
        matrix[coordinates[n].x, coordinates[n].y] := '-';
      }
      assert coordinates[..|coordinates|] == coordinates;
    }

    /** One pass of the row loop of RemoveLetters: the '-' cells of row i fall out of their columns. */
    method SettleRow(i: int, ghost marked: seq<seq<char>>)
      requires Valid() && 0 <= i < rows && |marked| == cols
      requires forall c :: 0 <= c < cols ==> |marked[c]| == rows && Column(c) == Partial(marked[c], i)
      modifies matrix
      ensures forall c :: 0 <= c < cols ==> Column(c) == Partial(marked[c], i + 1)
    {
      for j := 0 to cols
        invariant forall c :: 0 <= c < cols ==> Column(c) == Partial(marked[c], if c < j then i + 1 else i)
      {
        PartialStep(marked[j], i);
        assert matrix[i, j] == Column(j)[i];
        if matrix[i, j] == '-' {
          ShiftDown(i, j);
        }
      }
    }

    /** The inner loop of RemoveLetters: rows 0..i of column j move down one and row 0 becomes blank. */
    method ShiftDown(i: int, j: int)
      requires Valid() && 0 <= i < rows && 0 <= j < cols
      modifies matrix
      ensures Column(j) == [' '] + old(Column(j))[..i] + old(Column(j))[i + 1..]
      ensures forall c :: 0 <= c < cols && c != j ==> Column(c) == old(Column(c))
    {
      var k := i;
      while k > 0
        invariant 0 <= k <= i
        invariant forall r :: k < r <= i ==> matrix[r, j] == old(matrix[r - 1, j])
        invariant forall r, c :: 0 <= r < rows && 0 <= c < cols && (c != j || r > i || r <= k) ==> matrix[r, c] == old(matrix[r, c])
      {
        matrix[k, j] := matrix[k - 1, j];
        k := k - 1;
      }
      matrix[0, j] := ' ';
      forall c | 0 <= c < cols && c != j ensures Column(c) == old(Column(c)) {
        assert forall r :: 0 <= r < rows ==> Column(c)[r] == old(Column(c))[r];
      }
    }
  }

  /**
   * NewLetterMatrixFromFile over the lines of the file: empty lines are skipped, the rest
   * are padded to the widest of them; with no line left the result is ErrEmptyMatrix.
   */
  method NewLetterMatrixFromLines(lines: seq<string>) returns (r: Result<LetterMatrix, MatrixError>)
    ensures r.Err? <==> forall k :: 0 <= k < |lines| ==> lines[k] == ""
    ensures r.Ok? ==>
      var kept := NonEmptyLines(lines);
      && fresh(r.value) && fresh(r.value.matrix) && r.value.Valid()
      && r.value.rows == |kept| && r.value.cols == Widest(kept)
      && (forall i, j :: 0 <= i < r.value.rows && 0 <= j < r.value.cols ==> r.value.matrix[i, j] == PadCell(kept[i], j))
      && r.value.specials == SpecialsOf(Padded(kept, Widest(kept)))
  {
    var matrix: seq<seq<char>> := [];
    var maxCols := 0;
    for i := 0 to |lines|
      invariant matrix == NonEmptyLines(lines[..i]) && maxCols == Widest(matrix)
    {
      assert lines[..i + 1][..i] == lines[..i];
      var line := lines[i];
      if line != "" {
        var row := line;
        if |row| > maxCols {
          maxCols := |row|;
        }
        matrix := matrix + [row];
        assert matrix[..|matrix| - 1] == NonEmptyLines(lines[..i]);
      }
    }
    assert lines[..|lines|] == lines;
    NonEmptyLinesSpec(lines);
    if |matrix| == 0 {
      return Err(ErrEmptyMatrix);
    }
    WidestIsMax(matrix);
    var m := new LetterMatrix(matrix, maxCols);
    return Ok(m);
  }

  /**
   * NewLetterMatrixFromString: one row per "\n"-separated piece, empty pieces included,
   * padded to the widest. strings.Split always yields at least one piece, so the
   * empty-matrix error of the source cannot occur and the result is always a matrix.
   */
  method NewLetterMatrixFromString(matrixString: string) returns (m: LetterMatrix)
    ensures fresh(m) && fresh(m.matrix) && m.Valid()
    ensures var pieces := SplitOn(matrixString, '\n');
      && m.rows == |pieces| == Count(matrixString, '\n') + 1 && m.cols == Widest(pieces)
      && (forall i, j :: 0 <= i < m.rows && 0 <= j < m.cols ==> m.matrix[i, j] == PadCell(pieces[i], j))
      && m.specials == SpecialsOf(Padded(pieces, Widest(pieces)))
  {
    var matrixLines := SplitOn(matrixString, '\n');
    var matrix: seq<seq<char>> := [];
    var maxCols := 0;
    for i := 0 to |matrixLines|
      invariant matrix == matrixLines[..i] && maxCols == Widest(matrix)
    {
      var row := matrixLines[i];
      if |row| > maxCols {
        maxCols := |row|;
      }
      matrix := matrix + [row];
      assert matrix[..i] == matrixLines[..i];
    }
    assert matrix == matrixLines;
    SplitCount(matrixString, '\n');
    WidestIsMax(matrix);
    m := new LetterMatrix(matrix, maxCols);
  }
}
