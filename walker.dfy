/**
 * main.go: the earlier, board-global snapshot of the solver, reduced to the step that grows
 * a path through the board. A path is a word and the cells its letters came from; a step
 * moves from the last cell by a direction tag, refuses a cell already on the path, and
 * otherwise appends the new cell and its letter.
 *
 * The board is the package-level `board [][]Cell`; only each cell's letter has behaviour,
 * so it is a parameter of type seq<seq<char>>. X indexes the board (its rows) and Y a row
 * (its columns).
 */
module Walker {
  import opened Wrappers
  import opened Text
  import opened Coords
  import Trie

  /** A board whose rows all have the length of the first; `len(board[0])` is its width. */
  predicate Rectangular(board: seq<seq<char>>) {
    |board| > 0 && forall i :: 0 <= i < |board| ==> |board[i]| == |board[0]|
  }

  predicate OnBoard(board: seq<seq<char>>, c: Coord)
    requires |board| > 0
  {
    InBounds(c, |board|, |board[0]|)
  }

  /** Where a tag moves a coordinate on the board, bounds aside: L and R move X, T and B move Y. */
  function BoardDisplace(c: Coord, pos: string): Coord {
    Coord(c.x + ColDelta(pos), c.y + RowDelta(pos))
  }

  /**
   * The board-global Coord.next(pos). The checks run in the order L, R, T, B on the running
   * X and Y, each error is named after the bound it crosses, and the first failing check wins.
   */
  function NextOnBoard(c: Coord, pos: string, board: seq<seq<char>>): (r: Result<Coord, BoundaryError>)
    requires |board| > 0
    ensures r.Ok? ==> r.value == BoardDisplace(c, pos)
    ensures r.Ok? && OnBoard(board, c) ==> OnBoard(board, r.value)
    ensures r == Err(OutOfBoundariesLeft) <==> 'L' in pos && c.x < 1
    ensures r == Err(OutOfBoundariesRight) ==> 'R' in pos
    ensures r == Err(OutOfBoundariesTop) ==> 'T' in pos && c.y < 1
    ensures r == Err(OutOfBoundariesBottom) ==> 'B' in pos
  {
    var x1 := if 'L' in pos then c.x - 1 else c.x;
    if 'L' in pos && x1 < 0 then Err(OutOfBoundariesLeft)
    else
      var x2 := if 'R' in pos then x1 + 1 else x1;
      if 'R' in pos && x2 >= |board| then Err(OutOfBoundariesRight)
      else
        var y1 := if 'T' in pos then c.y - 1 else c.y;
        if 'T' in pos && y1 < 0 then Err(OutOfBoundariesTop)
        else
          var y2 := if 'B' in pos then y1 + 1 else y1;
          if 'B' in pos && y2 >= |board[0]| then Err(OutOfBoundariesBottom)
          else Ok(Coord(x2, y2))
  }

  /**
   * From a cell on the board and with a well-formed tag, the step succeeds exactly when the
   * displaced cell is on the board, and each error names the bound the move crosses; an X
   * error is reported before a Y error.
   */
  lemma NextOnBoardWellFormed(c: Coord, pos: string, board: seq<seq<char>>)
    requires |board| > 0 && OnBoard(board, c) && WellFormed(pos)
    ensures NextOnBoard(c, pos, board).Ok? <==> OnBoard(board, BoardDisplace(c, pos))
    ensures NextOnBoard(c, pos, board) == Err(OutOfBoundariesLeft) <==> 'L' in pos && c.x == 0
    ensures NextOnBoard(c, pos, board) == Err(OutOfBoundariesRight) <==> 'R' in pos && c.x == |board| - 1
    ensures NextOnBoard(c, pos, board) == Err(OutOfBoundariesTop)
        <==> 0 <= BoardDisplace(c, pos).x < |board| && 'T' in pos && c.y == 0
    ensures NextOnBoard(c, pos, board) == Err(OutOfBoundariesBottom)
        <==> 0 <= BoardDisplace(c, pos).x < |board| && 'B' in pos && c.y == |board[0]| - 1
  {
  }

  /** Opposite tags undo each other on the board as well. */
  lemma NextOnBoardThenOpposite(c: Coord, pos: string, board: seq<seq<char>>)
    requires |board| > 0 && OnBoard(board, c) && WellFormed(pos)
    requires NextOnBoard(c, pos, board).Ok?
    ensures NextOnBoard(NextOnBoard(c, pos, board).value, Opposite(pos), board) == Ok(c)
  {
    OppositeLetters(pos);
  }

  /** IsValidWord, the stub that stands in for the dictionary: at least three bytes. */
  function IsValidWord(runes: string): (b: bool)
    ensures |runes| >= 3 ==> b
    ensures b ==> runes != []
  {
    ByteLen(runes) >= 3
  }

  /** On ASCII letters IsValidWord asks for at least three of them. */
  lemma IsValidWordAscii(runes: string)
    requires IsAscii(runes)
    ensures IsValidWord(runes) <==> |runes| >= 3
  {
    ByteLenOfAscii(runes);
  }

  /** IsValidWordPreffix, the prefix stub: at least one byte, that is, any non-empty sequence. */
  function IsValidWordPrefix(runes: string): (b: bool)
    ensures b <==> runes != []
  {
    ByteLen(runes) >= 1
  }

  /** No cell occurs twice. */
  predicate Distinct(cs: seq<Coord>) {
    forall i, j :: 0 <= i < j < |cs| ==> cs[i] != cs[j]
  }

  /** A path on the board: one cell per letter, every cell on the board and holding its letter, no cell twice. */
  ghost predicate IsPath(board: seq<seq<char>>, word: string, coordinates: seq<Coord>) {
    && Rectangular(board)
    && |word| == |coordinates|
    && Distinct(coordinates)
    && forall k :: 0 <= k < |coordinates| ==>
         OnBoard(board, coordinates[k]) && word[k] == board[coordinates[k].x][coordinates[k].y]
  }

  /** Appending a fresh board cell and its letter to a path gives a path. */
  lemma PathExtends(board: seq<seq<char>>, word: string, coordinates: seq<Coord>, c: Coord)
    requires IsPath(board, word, coordinates) && OnBoard(board, c) && c !in coordinates
    ensures IsPath(board, word + [board[c.x][c.y]], coordinates + [c])
  {
    var cs := coordinates + [c];
    var w := word + [board[c.x][c.y]];
    forall i, j | 0 <= i < j < |cs| ensures cs[i] != cs[j] {
      if j == |coordinates| {
        assert cs[i] == coordinates[i];
      }
    }
    forall k | 0 <= k < |cs| ensures OnBoard(board, cs[k]) && w[k] == board[cs[k].x][cs[k].y] {
      if k < |coordinates| {
        assert cs[k] == coordinates[k] && w[k] == word[k];
      }
    }
  }

  /** The path a walker grows: its letters and, in the same order, the cells they came from. */
  class Word {
    var word: string
    var coordinates: seq<Coord>

    /** MyMainFunc's start: the letter at a (randomly chosen) board cell, and that cell. */
    constructor Start(board: seq<seq<char>>, c: Coord)
      requires Rectangular(board) && OnBoard(board, c)
      ensures word == [board[c.x][c.y]] && coordinates == [c]
      ensures IsPath(board, word, coordinates)
    {
      word := [board[c.x][c.y]];
      coordinates := [c];
    }

    /** hasVisitedCell: walk the path backwards looking for the cell. */
    method HasVisitedCell(coord: Coord) returns (b: bool)
      ensures b <==> coord in coordinates
    {
      var i := |coordinates| - 1;
      while i >= 0
        invariant -1 <= i < |coordinates|
        invariant coord !in coordinates[i + 1..]
      {
        if coordinates[i].x == coord.x && coordinates[i].y == coord.y {
          return true;
        }
        assert coordinates[i..] == [coordinates[i]] + coordinates[i + 1..];
        i := i - 1;
      }
      assert coordinates[0..] == coordinates;
      return false;
    }

    /**
     * canWalk(pos): step from the last cell. A step off the board or onto a cell already on
     * the path changes nothing and answers false. Otherwise the cell and its letter are
     * appended, the word is sent to the found-words channel (`found`) when IsValidWord holds,
     * and the answer is IsValidWordPreffix of the extended word, which is always true.
     */
    method CanWalk(pos: string, board: seq<seq<char>>) returns (b: bool, found: Option<string>)
      requires IsPath(board, word, coordinates) && |coordinates| > 0
      modifies this
      ensures IsPath(board, word, coordinates)
      ensures
        var step := NextOnBoard(old(coordinates)[|old(coordinates)| - 1], pos, board);
        if step.Err? || step.value in old(coordinates) then
          !b && found == None && word == old(word) && coordinates == old(coordinates)
        else
          && b
          && coordinates == old(coordinates) + [step.value]
          && word == old(word) + [board[step.value.x][step.value.y]]
          && (if IsValidWord(word) then found == Some(word) else found == None)
    {
      var newCoord := NextOnBoard(coordinates[|coordinates| - 1], pos, board);
      if newCoord.Err? {
        return false, None;
      }
      var c := newCoord.value;
      var visited := HasVisitedCell(c);
      if visited {
        return false, None;
      }
      PathExtends(board, word, coordinates, c);
      word := word + [board[c.x][c.y]];
      coordinates := coordinates + [c];
      found := None;
      if IsValidWord(word) {
        found := Some(word);
      }
      if !IsValidWordPrefix(word) {
        return false, found;
      }
      return true, found;
    }
  }

  /** main.go's loader keeps words of at least three bytes. */
  const MinWordLength := 3

  /**
   * main.go's NewDictionary over the lines of the file: the same per-line filter and trie as
   * dictionary.go, with the minimum length fixed at three bytes.
   */
  method NewDictionary(lines: seq<string>) returns (d: Trie.Dictionary)
    ensures fresh(d) && d.Loaded()
    ensures d.words == Trie.LoadedWords(lines, MinWordLength)
    ensures forall w :: w in d.words ==> ByteLen(w) >= 3 && IsUpperFolded(w)
  {
    d := Trie.NewDictionary(lines, MinWordLength);
    forall w | w in d.words ensures ByteLen(w) >= 3 && IsUpperFolded(w) {
      Trie.LoadedWordsShape(lines, MinWordLength, w);
    }
  }
}
