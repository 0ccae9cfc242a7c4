/** src/lib/board.ts: the starting layout and the coordinate helpers of the
    5x5 grid. A position is a cell index; row = index / 5, column =
    index mod 5. */
module Grid {
  import opened Types

  /** The starting layout: wolves on the first fifteen cells (rows 0-2),
      hunters on cells 21, 22 and 23, every other cell empty. */
  function InitialBoard(): Board
  {
    seq(25, i => if i < 15 then WOLF else if 21 <= i <= 23 then HUNTER else EMPTY)
  }

  /** createInitialBoard: fill 25 empty cells, write a wolf on each of the
      first fifteen, then place the three hunters. */
  method CreateInitialBoard() returns (b: Board)
    ensures |b| == 25
    ensures forall i :: 0 <= i < 15 ==> b[i] == WOLF
    ensures b[21] == HUNTER && b[22] == HUNTER && b[23] == HUNTER
    ensures forall i :: 15 <= i <= 20 ==> b[i] == EMPTY
    ensures b[24] == EMPTY
    ensures b == InitialBoard()
  {
    var a := new Cell[25](_ => EMPTY);
    for i := 0 to 15
      invariant forall k :: 0 <= k < i ==> a[k] == WOLF
      invariant forall k :: i <= k < 25 ==> a[k] == EMPTY
    {
      a[i] := WOLF;
    }
    a[21] := HUNTER;
    a[22] := HUNTER;
    a[23] := HUNTER;
    b := a[..];
  }

  /** The starting layout holds exactly fifteen wolves and three hunters. */
  lemma InitialCounts()
    ensures |InitialBoard()| == 25
    ensures Count(InitialBoard(), WOLF) == 15
    ensures Count(InitialBoard(), HUNTER) == 3
    ensures Count(InitialBoard(), EMPTY) == 7
  {
    var w: seq<Cell> := seq(15, _ => WOLF);
    var e6: seq<Cell> := seq(6, _ => EMPTY);
    var h: seq<Cell> := seq(3, _ => HUNTER);
    var e1: seq<Cell> := [EMPTY];
    assert InitialBoard() == w + e6 + h + e1;
    forall c: Cell ensures Count(InitialBoard(), c)
        == Count(w, c) + Count(e6, c) + Count(h, c) + Count(e1, c) {
      CountConcat(w + e6 + h, e1, c);
      CountConcat(w + e6, h, c);
      CountConcat(w, e6, c);
    }
    forall c: Cell ensures Count(w, c) == (if c == WOLF then 15 else 0)
                    && Count(e6, c) == (if c == EMPTY then 6 else 0)
                    && Count(h, c) == (if c == HUNTER then 3 else 0) {
      CountIsMultiplicity(w, c);
      CountIsMultiplicity(e6, c);
      CountIsMultiplicity(h, c);
      ConstantMultiplicity(15, WOLF, c);
      ConstantMultiplicity(6, EMPTY, c);
      ConstantMultiplicity(3, HUNTER, c);
    }
  }

  lemma {:induction false} ConstantMultiplicity(n: nat, v: Cell, c: Cell)
    ensures multiset(seq(n, _ => v))[c] == (if c == v then n else 0)
  {
    if n > 0 {
      ConstantMultiplicity(n - 1, v, c);
      assert seq(n, _ => v) == seq(n - 1, _ => v) + [v];
    }
  }

  predicate IsValidPosition(pos: int)
  {
    pos >= 0 && pos < 25
  }

  /** getRow: floor division by five (for a positive divisor Dafny's `/`
      is floor division). */
  function Row(pos: int): (r: int)
    ensures IsValidPosition(pos) ==> 0 <= r < 5
  {
    pos / 5
  }

  /** getCol: the source language's `%`, whose remainder takes the sign of
      the dividend (Dafny's `%` never returns a negative remainder). */
  function Col(pos: int): (c: int)
    ensures IsValidPosition(pos) ==> 0 <= c < 5
  {
    if pos >= 0 then pos % 5 else -((-pos) % 5)
  }

  /** The position at a given row and column. */
  function At(row: int, col: int): int
  {
    row * 5 + col
  }

  /** A valid position is rebuilt from its row and column. */
  lemma RowColDecompose(pos: int)
    requires IsValidPosition(pos)
    ensures 0 <= Row(pos) < 5 && 0 <= Col(pos) < 5
    ensures At(Row(pos), Col(pos)) == pos
  {
  }

  /** Row and column are read back from the position they build. */
  lemma RowColRoundTrip(row: int, col: int)
    requires 0 <= row < 5 && 0 <= col < 5
    ensures IsValidPosition(At(row, col))
    ensures Row(At(row, col)) == row && Col(At(row, col)) == col
  {
  }

  predicate IsSameRow(pos1: int, pos2: int)
  {
    Row(pos1) == Row(pos2)
  }

  predicate IsSameCol(pos1: int, pos2: int)
  {
    Col(pos1) == Col(pos2)
  }

  /** Sharing a row, and sharing a column, are equivalence relations. */
  lemma SameRowColEquivalence(p: int, q: int, r: int)
    ensures IsSameRow(p, p) && IsSameCol(p, p)
    ensures IsSameRow(p, q) == IsSameRow(q, p) && IsSameCol(p, q) == IsSameCol(q, p)
    ensures IsSameRow(p, q) && IsSameRow(q, r) ==> IsSameRow(p, r)
    ensures IsSameCol(p, q) && IsSameCol(q, r) ==> IsSameCol(p, r)
  {
  }

  /** Two valid positions are the same cell exactly when they share both
      their row and their column. */
  lemma SameCellIffSameRowAndCol(p: int, q: int)
    requires IsValidPosition(p) && IsValidPosition(q)
    ensures p == q <==> IsSameRow(p, q) && IsSameCol(p, q)
  {
    RowColDecompose(p);
    RowColDecompose(q);
  }
}
