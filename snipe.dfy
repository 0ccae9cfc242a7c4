/** src/lib/snipe.ts: the hunter's capture ("snipe"). A hunter jumps onto
    a wolf two cells away over an empty middle cell; the offsets are taken
    on the flat index, so a horizontal jump is not kept inside one row. */
module Snipe {
  import opened Types
  import opened Grid

  /** The capture offsets, in the order in which they are tried. */
  const Directions: seq<int> := [2, -2, 10, -10]

  /** The cell jumped over: the mean of the two indices. */
  function Midpoint(hunterPos: int, targetPos: int): int
  {
    (hunterPos + targetPos) / 2
  }

  /** canSnipe: a hunter on `hunterPos`, a wolf on `targetPos`, an offset
      from `Directions` and an empty middle cell. */
  predicate CanSnipe(board: Board, hunterPos: int, targetPos: int)
  {
    Holds(board, hunterPos, HUNTER)
    && Holds(board, targetPos, WOLF)
    && (targetPos - hunterPos) in Directions
    && Holds(board, Midpoint(hunterPos, targetPos), EMPTY)
  }

  /** A capture starts on a hunter and ends on a wolf, both on the board,
      and jumps over a whole cell strictly between them that is empty. */
  lemma CanSnipeShape(board: Board, hunterPos: int, targetPos: int)
    requires CanSnipe(board, hunterPos, targetPos)
    ensures IsValidPosition(hunterPos) && board[hunterPos] == HUNTER
    ensures IsValidPosition(targetPos) && board[targetPos] == WOLF
    ensures var mid := Midpoint(hunterPos, targetPos);
      && IsValidPosition(mid) && 2 * mid == hunterPos + targetPos
      && mid != hunterPos && mid != targetPos && board[mid] == EMPTY
  {
  }

  /** A vertical capture (offset 10 or -10) stays in one column, and its
      middle cell is the cell between the two in that column. */
  lemma VerticalSnipeSameColumn(hunterPos: int, targetPos: int)
    requires IsValidPosition(hunterPos) && IsValidPosition(targetPos)
    requires targetPos - hunterPos == 10 || targetPos - hunterPos == -10
    ensures IsSameCol(hunterPos, targetPos) && IsSameCol(hunterPos, Midpoint(hunterPos, targetPos))
    ensures Row(targetPos) - Row(hunterPos) == 2 * (Row(Midpoint(hunterPos, targetPos)) - Row(hunterPos))
  {
    var lo := if targetPos < hunterPos then targetPos else hunterPos;
    assert Midpoint(hunterPos, targetPos) == lo + 5;
    OneRowDown(lo);
    OneRowDown(lo + 5);
  }

  lemma OneRowDown(p: int)
    requires IsValidPosition(p) && IsValidPosition(p + 5)
    ensures Row(p + 5) == Row(p) + 1 && Col(p + 5) == Col(p)
  {
  }

  /** A rightward jump of two cells stays in its row exactly when it starts
      in one of the first three columns. */
  lemma HorizontalSnipeRow(hunterPos: int)
    requires IsValidPosition(hunterPos) && IsValidPosition(hunterPos + 2)
    ensures IsSameRow(hunterPos, hunterPos + 2) <==> Col(hunterPos) <= 2
  {
    RowColDecompose(hunterPos);
    RowColDecompose(hunterPos + 2);
  }

  /** The offset +2 is accepted across a row boundary: a hunter on cell 4
      (row 0, column 4) captures a wolf on cell 6 (row 1, column 1) over
      cell 5 (row 1, column 0). */
  lemma SnipeWrapsAcrossRows()
    ensures var board: Board := seq(25, i => if i == 4 then HUNTER else if i == 6 then WOLF else EMPTY);
      CanSnipe(board, 4, 6) && !IsSameRow(4, 6) && !IsSameRow(4, Midpoint(4, 6))
  {
  }

  /** snipe: on a copy, the target becomes a hunter, then the middle cell
      (only for an even index sum) and the origin become empty. */
  function Snipe(board: Board, hunterPos: int, targetPos: int): (r: Board)
    requires IsValidPosition(hunterPos) && IsValidPosition(targetPos)
    ensures r[hunterPos] == EMPTY
    ensures hunterPos != targetPos ==> r[targetPos] == HUNTER
    ensures (hunterPos + targetPos) % 2 == 0 ==> r[Midpoint(hunterPos, targetPos)] == EMPTY
    ensures forall i ::
      (0 <= i < 25 && i != hunterPos && i != targetPos
       && (i != Midpoint(hunterPos, targetPos) || (hunterPos + targetPos) % 2 != 0))
      ==> r[i] == board[i]
  {
    var placed := board[targetPos := HUNTER];
    var cleared := if (hunterPos + targetPos) % 2 == 0
                   then placed[Midpoint(hunterPos, targetPos) := EMPTY] else placed;
    cleared[hunterPos := EMPTY]
  }

  /** A legal capture removes exactly one wolf, keeps every hunter, and
      empties exactly one more cell. */
  lemma SnipeCounts(board: Board, hunterPos: int, targetPos: int)
    requires CanSnipe(board, hunterPos, targetPos)
    ensures IsValidPosition(hunterPos) && IsValidPosition(targetPos)
    ensures Count(Snipe(board, hunterPos, targetPos), WOLF) == Count(board, WOLF) - 1
    ensures Count(Snipe(board, hunterPos, targetPos), HUNTER) == Count(board, HUNTER)
    ensures Count(Snipe(board, hunterPos, targetPos), EMPTY) == Count(board, EMPTY) + 1
  {
    CanSnipeShape(board, hunterPos, targetPos);
    var mid := Midpoint(hunterPos, targetPos);
    var placed := board[targetPos := HUNTER];
    var cleared := placed[mid := EMPTY];
    assert Snipe(board, hunterPos, targetPos) == cleared[hunterPos := EMPTY];
    forall c: Cell
      ensures Count(cleared[hunterPos := EMPTY], c)
           == Count(board, c) - (if WOLF == c then 1 else 0) + (if EMPTY == c then 1 else 0)
    {
      CountUpdate(board, targetPos, HUNTER, c);
      CountUpdate(placed, mid, EMPTY, c);
      CountUpdate(cleared, hunterPos, EMPTY, c);
    }
  }

  /** The targets found after trying the first `k` offsets, in order. */
  function SnipesUpTo(board: Board, hunterPos: int, k: nat): (targets: seq<int>)
    requires k <= |Directions|
    ensures |targets| <= k
  {
    if k == 0 then []
    else
      var targetPos := hunterPos + Directions[k - 1];
      SnipesUpTo(board, hunterPos, k - 1)
      + (if targetPos >= 0 && targetPos < 25 && CanSnipe(board, hunterPos, targetPos)
         then [targetPos] else [])
  }

  /** getPossibleSnipes: the order-preserving selection of h+2, h-2, h+10,
      h-10 that are on the board and capturable. */
  function PossibleSnipes(board: Board, hunterPos: int): (targets: seq<int>)
    ensures |targets| <= 4
  {
    SnipesUpTo(board, hunterPos, |Directions|)
  }

  lemma {:induction false} SnipesUpToMembers(board: Board, hunterPos: int, k: nat, t: int)
    requires k <= |Directions|
    ensures t in SnipesUpTo(board, hunterPos, k)
        <==> CanSnipe(board, hunterPos, t) && (t - hunterPos) in Directions[..k]
    ensures Distinct(SnipesUpTo(board, hunterPos, k))
  {
    if k > 0 {
      SnipesUpToMembers(board, hunterPos, k - 1, t);
      assert Directions[..k] == Directions[..k - 1] + [Directions[k - 1]];
      var last := hunterPos + Directions[k - 1];
      SnipesUpToMembers(board, hunterPos, k - 1, last);
      assert Directions[k - 1] !in Directions[..k - 1];
    }
  }

  /** The listed targets are exactly the cells `CanSnipe` accepts, each once;
      a cell without a hunter has none. */
  lemma PossibleSnipesExact(board: Board, hunterPos: int, t: int)
    ensures t in PossibleSnipes(board, hunterPos) <==> CanSnipe(board, hunterPos, t)
    ensures t in PossibleSnipes(board, hunterPos) ==> IsValidPosition(t)
    ensures Distinct(PossibleSnipes(board, hunterPos))
    ensures !Holds(board, hunterPos, HUNTER) ==> PossibleSnipes(board, hunterPos) == []
  {
    SnipesUpToMembers(board, hunterPos, |Directions|, t);
    assert Directions[..|Directions|] == Directions;
    if !Holds(board, hunterPos, HUNTER) && PossibleSnipes(board, hunterPos) != [] {
      var u := PossibleSnipes(board, hunterPos)[0];
      SnipesUpToMembers(board, hunterPos, |Directions|, u);
    }
  }

  /** getPossibleSnipes as the source runs it: a loop over the offsets that
      appends each capturable target. */
  method GetPossibleSnipes(board: Board, hunterPos: int) returns (snipeTargets: seq<int>)
    ensures snipeTargets == PossibleSnipes(board, hunterPos)
  {
    snipeTargets := [];
    for i := 0 to |Directions|
      invariant snipeTargets == SnipesUpTo(board, hunterPos, i)
    {
      var targetPos := hunterPos + Directions[i];
      if targetPos >= 0 && targetPos < 25 && CanSnipe(board, hunterPos, targetPos) {
        snipeTargets := snipeTargets + [targetPos];
      }
    }
  }

  /** getAllHunterSnipes: each hunter with at least one capture, mapped to
      its list of targets. */
  method GetAllHunterSnipes(board: Board) returns (snipes: map<int, seq<int>>)
    ensures forall i :: i in snipes <==> Holds(board, i, HUNTER) && |PossibleSnipes(board, i)| > 0
    ensures forall i :: i in snipes ==> snipes[i] == PossibleSnipes(board, i)
  {
    snipes := map[];
    for i := 0 to |board|
      invariant forall j :: j in snipes <==> 0 <= j < i && board[j] == HUNTER && |PossibleSnipes(board, j)| > 0
      invariant forall j :: j in snipes ==> snipes[j] == PossibleSnipes(board, j)
    {
      if board[i] == HUNTER {
        var possibleSnipes := GetPossibleSnipes(board, i);
        if |possibleSnipes| > 0 {
          snipes := snipes[i := possibleSnipes];
        }
      }
    }
  }
}
