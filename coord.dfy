/**
 * coord.go: a grid coordinate and the step function `Coord.next`, which moves a
 * coordinate one cell in the direction named by a tag, or reports which bound it crossed.
 * X is the row and Y the column.
 */
module Coords {
  import opened Wrappers
  import Directions

  datatype Coord = Coord(x: int, y: int)

  /**
   * The four boundary errors. coord.go reports a row underflow as "Left", a row
   * overflow as "Right", a column underflow as "Top" and a column overflow as "Bottom".
   */
  datatype BoundaryError =
    | OutOfBoundariesLeft
    | OutOfBoundariesRight
    | OutOfBoundariesTop
    | OutOfBoundariesBottom

  predicate InBounds(c: Coord, rows: int, cols: int) {
    0 <= c.x < rows && 0 <= c.y < cols
  }

  /** Row change asked for by a tag: up one for a 'T', down one for a 'B'. */
  function RowDelta(pos: string): int {
    (if 'B' in pos then 1 else 0) - (if 'T' in pos then 1 else 0)
  }

  /** Column change asked for by a tag: left one for an 'L', right one for an 'R'. */
  function ColDelta(pos: string): int {
    (if 'R' in pos then 1 else 0) - (if 'L' in pos then 1 else 0)
  }

  /** Where a tag moves a coordinate, bounds aside. */
  function Displace(c: Coord, pos: string): Coord {
    Coord(c.x + RowDelta(pos), c.y + ColDelta(pos))
  }

  /** A tag that does not ask for two opposite moves; every tag of Directions is one. */
  predicate WellFormed(pos: string) {
    !('T' in pos && 'B' in pos) && !('L' in pos && 'R' in pos)
  }

  /**
   * Coord.next(pos, rows, cols). The four checks run in the order T, B, L, R on the
   * running row and column, and the first that fails decides the error.
   */
  function Next(c: Coord, pos: string, rows: int, cols: int): (r: Result<Coord, BoundaryError>)
    ensures r.Ok? ==> r.value == Displace(c, pos)
    ensures r.Ok? && InBounds(c, rows, cols) ==> InBounds(r.value, rows, cols)
    ensures r == Err(OutOfBoundariesLeft) <==> 'T' in pos && c.x < 1
    ensures r == Err(OutOfBoundariesRight) ==> 'B' in pos
    ensures r == Err(OutOfBoundariesTop) ==> 'L' in pos && c.y < 1
    ensures r == Err(OutOfBoundariesBottom) ==> 'R' in pos
  {
    var row1 := if 'T' in pos then c.x - 1 else c.x;
    if 'T' in pos && row1 < 0 then Err(OutOfBoundariesLeft)
    else
      var row2 := if 'B' in pos then row1 + 1 else row1;
      if 'B' in pos && row2 >= rows then Err(OutOfBoundariesRight)
      else
        var col1 := if 'L' in pos then c.y - 1 else c.y;
        if 'L' in pos && col1 < 0 then Err(OutOfBoundariesTop)
        else
          var col2 := if 'R' in pos then col1 + 1 else col1;
          if 'R' in pos && col2 >= cols then Err(OutOfBoundariesBottom)
          else Ok(Coord(row2, col2))
  }

  /**
   * From an in-bounds cell and with a well-formed tag, the step succeeds exactly when
   * the displaced cell is in bounds, and each error names the bound the move crosses;
   * a row error is reported before a column error.
   */
  lemma NextWellFormed(c: Coord, pos: string, rows: int, cols: int)
    requires InBounds(c, rows, cols) && WellFormed(pos)
    ensures Next(c, pos, rows, cols).Ok? <==> InBounds(Displace(c, pos), rows, cols)
    ensures Next(c, pos, rows, cols) == Err(OutOfBoundariesLeft) <==> 'T' in pos && c.x == 0
    ensures Next(c, pos, rows, cols) == Err(OutOfBoundariesRight) <==> 'B' in pos && c.x == rows - 1
    ensures Next(c, pos, rows, cols) == Err(OutOfBoundariesTop)
        <==> 0 <= Displace(c, pos).x < rows && 'L' in pos && c.y == 0
    ensures Next(c, pos, rows, cols) == Err(OutOfBoundariesBottom)
        <==> 0 <= Displace(c, pos).x < rows && 'R' in pos && c.y == cols - 1
  {
  }

  /** Every step, from an in-bounds cell, moves at most one row and at most one column. */
  lemma NextMovesOneCell(c: Coord, pos: string, rows: int, cols: int)
    requires Next(c, pos, rows, cols).Ok?
    ensures -1 <= Next(c, pos, rows, cols).value.x - c.x <= 1
    ensures -1 <= Next(c, pos, rows, cols).value.y - c.y <= 1
  {
  }

  /** A tag with none of T, B, L, R (the "" entries of NewDirections) leaves the coordinate where it is. */
  lemma NextWithoutLetters(c: Coord, pos: string, rows: int, cols: int)
    requires 'T' !in pos && 'B' !in pos && 'L' !in pos && 'R' !in pos
    ensures Next(c, pos, rows, cols) == Ok(c)
  {
  }

  /** TL from the corner (0,0) crosses both bounds; the row check runs first and wins. */
  lemma NextTopLeftFromOrigin(rows: int, cols: int)
    ensures Next(Coord(0, 0), Directions.TL, rows, cols) == Err(OutOfBoundariesLeft)
  {
  }

  function FlipChar(ch: char): char {
    match ch
    case 'T' => 'B'
    case 'B' => 'T'
    case 'L' => 'R'
    case 'R' => 'L'
    case _ => ch
  }

  /** The tag pointing the other way: T and B swap, L and R swap. */
  function Opposite(pos: string): (r: string)
    ensures |r| == |pos|
  {
    seq(|pos|, k requires 0 <= k < |pos| => FlipChar(pos[k]))
  }

  lemma OppositeLetters(pos: string)
    ensures 'T' in Opposite(pos) <==> 'B' in pos
    ensures 'B' in Opposite(pos) <==> 'T' in pos
    ensures 'L' in Opposite(pos) <==> 'R' in pos
    ensures 'R' in Opposite(pos) <==> 'L' in pos
  {
    var o := Opposite(pos);
    if 'B' in pos {
      var k :| 0 <= k < |pos| && pos[k] == 'B';
      assert o[k] == 'T';
    }
    if 'T' in pos {
      var k :| 0 <= k < |pos| && pos[k] == 'T';
      assert o[k] == 'B';
    }
    if 'R' in pos {
      var k :| 0 <= k < |pos| && pos[k] == 'R';
      assert o[k] == 'L';
    }
    if 'L' in pos {
      var k :| 0 <= k < |pos| && pos[k] == 'L';
      assert o[k] == 'R';
    }
  }

  /** Opposite tags undo each other: a step and the step back return to the start cell. */
  lemma NextThenOpposite(c: Coord, pos: string, rows: int, cols: int)
    requires InBounds(c, rows, cols) && WellFormed(pos)
    requires Next(c, pos, rows, cols).Ok?
    ensures Next(Next(c, pos, rows, cols).value, Opposite(pos), rows, cols) == Ok(c)
  {
    OppositeLetters(pos);
  }
}
