/** src/lib/moves.ts: orthogonal adjacency, the neighbours of a cell, the
    single-step move rule and the copy-and-move of a piece. */
module Moves {
  import opened Types
  import opened Grid

  function Abs(x: int): (r: nat)
    ensures r == x || r == -x
  {
    if x < 0 then -x else x
  }

  /** Two positions are adjacent when they differ by exactly one row or by
      exactly one column, never both. */
  predicate IsAdjacent(pos1: int, pos2: int)
  {
    var rowDiff := Abs(Row(pos1) - Row(pos2));
    var colDiff := Abs(Col(pos1) - Col(pos2));
    (rowDiff == 1 && colDiff == 0) || (rowDiff == 0 && colDiff == 1)
  }

  lemma AdjacentSymmetricIrreflexive(p: int, q: int)
    ensures IsAdjacent(p, q) == IsAdjacent(q, p)
    ensures !IsAdjacent(p, p)
  {
  }

  /** On the board, adjacency is one of the four index offsets -5, +5, -1,
      +1, the horizontal ones only inside one row: no diagonal and no
      wrap-around from the end of one row to the start of the next. */
  lemma AdjacentIffOffset(p: int, q: int)
    requires IsValidPosition(p) && IsValidPosition(q)
    ensures IsAdjacent(p, q) <==>
      q == p - 5 || q == p + 5 || (q == p - 1 && Row(q) == Row(p)) || (q == p + 1 && Row(q) == Row(p))
  {
    RowColDecompose(p);
    RowColDecompose(q);
  }

  /** getAdjacentPositions: up, down, left, right, each only when the
      neighbour is on the grid. */
  function AdjacentPositions(pos: int): (adjacent: seq<int>)
    ensures |adjacent| <= 4
  {
    var row := Row(pos);
    var col := Col(pos);
    (if row > 0 then [pos - 5] else [])
    + (if row < 4 then [pos + 5] else [])
    + (if col > 0 then [pos - 1] else [])
    + (if col < 4 then [pos + 1] else [])
  }

  /** Every listed neighbour is a valid position adjacent to `pos`, none is
      listed twice, and every valid adjacent position is listed. */
  lemma AdjacentPositionsExact(pos: int)
    requires IsValidPosition(pos)
    ensures forall q :: q in AdjacentPositions(pos) ==> IsValidPosition(q) && IsAdjacent(pos, q)
    ensures forall q :: IsValidPosition(q) && IsAdjacent(pos, q) ==> q in AdjacentPositions(pos)
    ensures Distinct(AdjacentPositions(pos))
  {
    RowColDecompose(pos);
    forall q | IsValidPosition(q)
      ensures IsAdjacent(pos, q) <==> q in AdjacentPositions(pos)
    {
      AdjacentIffOffset(pos, q);
      RowColDecompose(q);
    }
  }

  predicate IsCorner(pos: int)
  {
    pos == 0 || pos == 4 || pos == 20 || pos == 24
  }

  predicate IsInterior(pos: int)
  {
    1 <= Row(pos) <= 3 && 1 <= Col(pos) <= 3
  }

  /** Two neighbours in a corner, four inside, three elsewhere on the edge. */
  lemma AdjacentPositionsSize(pos: int)
    requires IsValidPosition(pos)
    ensures IsCorner(pos) ==> |AdjacentPositions(pos)| == 2
    ensures IsInterior(pos) ==> |AdjacentPositions(pos)| == 4
    ensures !IsCorner(pos) && !IsInterior(pos) ==> |AdjacentPositions(pos)| == 3
  {
    AdjacentCountByEdges(pos);
    CornerIffBothEdges(pos);
  }

  lemma AdjacentCountByEdges(pos: int)
    requires IsValidPosition(pos)
    ensures |AdjacentPositions(pos)|
         == (if Row(pos) == 0 || Row(pos) == 4 then 1 else 2)
          + (if Col(pos) == 0 || Col(pos) == 4 then 1 else 2)
  {
    RowColDecompose(pos);
  }

  lemma CornerIffBothEdges(pos: int)
    requires IsValidPosition(pos)
    ensures IsCorner(pos) <==> (Row(pos) == 0 || Row(pos) == 4) && (Col(pos) == 0 || Col(pos) == 4)
  {
    RowColDecompose(pos);
  }

  /** canMove: the destination is empty and adjacent to the origin. */
  predicate CanMove(board: Board, from: int, to: int)
  {
    Holds(board, to, EMPTY) && IsAdjacent(from, to)
  }

  /** getValidMoves: the neighbours, in the order up, down, left, right,
      that `CanMove` accepts. */
  function ValidMoves(board: Board, from: int): (moves: seq<int>)
    ensures |moves| <= 4
    ensures forall to :: to in moves ==> CanMove(board, from, to)
  {
    Filter(AdjacentPositions(from), to => CanMove(board, from, to))
  }

  /** From a valid cell, the listed destinations are exactly the cells the
      step rule accepts, each listed once. */
  lemma ValidMovesExact(board: Board, from: int, to: int)
    requires IsValidPosition(from)
    ensures to in ValidMoves(board, from) <==> CanMove(board, from, to)
    ensures to in ValidMoves(board, from) ==> IsValidPosition(to) && board[to] == EMPTY
    ensures Distinct(ValidMoves(board, from))
  {
    AdjacentPositionsExact(from);
    FilterDistinct(AdjacentPositions(from), to => CanMove(board, from, to));
  }

  /** movePiece: a new board in which the origin's piece stands on the
      destination and the origin is empty; the argument is untouched (it is
      a value). When `from == to` the final write wins and the piece is
      erased. */
  function MovePiece(board: Board, from: int, to: int): (r: Board)
    requires IsValidPosition(from) && IsValidPosition(to)
    ensures r[from] == EMPTY
    ensures from != to ==> r[to] == board[from]
    ensures forall i :: 0 <= i < 25 && i != from && i != to ==> r[i] == board[i]
  {
    board[to := board[from]][from := EMPTY]
  }

  /** A step onto an empty cell keeps the number of pieces of every kind. */
  lemma MovePieceKeepsCounts(board: Board, from: int, to: int, c: Cell)
    requires IsValidPosition(from) && IsValidPosition(to)
    requires from != to && board[to] == EMPTY
    ensures Count(MovePiece(board, from, to), c) == Count(board, c)
  {
    CountUpdate(board, to, board[from], c);
    CountUpdate(board[to := board[from]], from, EMPTY, c);
  }

  /** Moving a piece onto itself erases it: one piece of its kind fewer. */
  lemma MovePieceOntoItselfErases(board: Board, pos: int)
    requires IsValidPosition(pos) && board[pos] != EMPTY
    ensures MovePiece(board, pos, pos) == board[pos := EMPTY]
    ensures Count(MovePiece(board, pos, pos), board[pos]) == Count(board, board[pos]) - 1
  {
    CountUpdate(board, pos, EMPTY, board[pos]);
  }

  /** Stepping back undoes a step onto an empty cell. */
  lemma MovePieceUndo(board: Board, from: int, to: int)
    requires IsValidPosition(from) && IsValidPosition(to)
    requires from != to && board[to] == EMPTY
    ensures MovePiece(MovePiece(board, from, to), to, from) == board
  {
    var there := MovePiece(board, from, to);
    var back := MovePiece(there, to, from);
    assert forall i :: 0 <= i < 25 ==> back[i] == board[i];
  }
}
