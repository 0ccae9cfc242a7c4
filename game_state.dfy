/** src/lib/gameState.ts: piece counts and the two win conditions. The
    hunters win when at most three wolves remain; the wolves win when no
    hunter can step or capture. The hunter condition is tested first. */
module GameState {
  import opened Types
  import opened Grid
  import opened Moves
  import opened Snipe

  function CountWolves(board: Board): (n: nat)
    ensures n <= 25
  {
    Count(board, WOLF)
  }

  function CountHunters(board: Board): (n: nat)
    ensures n <= 25
  {
    Count(board, HUNTER)
  }

  /** Wolves and hunters together never outnumber the cells. */
  lemma PiecesFitOnBoard(board: Board)
    ensures CountWolves(board) + CountHunters(board) <= |board|
  {
    CountTwoKinds(board, WOLF, HUNTER);
  }

  predicate CheckHunterWin(board: Board)
  {
    CountWolves(board) <= 3
  }

  /** canHunterMove: the piece on `hunterPos` has a step or a capture. */
  predicate CanHunterMove(board: Board, hunterPos: int)
  {
    |ValidMoves(board, hunterPos)| > 0 || |PossibleSnipes(board, hunterPos)| > 0
  }

  /** A piece on a valid cell can move exactly when some cell is an empty
      neighbour or a capturable wolf. */
  lemma CanHunterMoveIff(board: Board, hunterPos: int)
    requires IsValidPosition(hunterPos)
    ensures CanHunterMove(board, hunterPos)
        <==> exists t :: 0 <= t < 25 && (CanMove(board, hunterPos, t) || CanSnipe(board, hunterPos, t))
  {
    if |ValidMoves(board, hunterPos)| > 0 {
      var t := ValidMoves(board, hunterPos)[0];
      ValidMovesExact(board, hunterPos, t);
    } else if |PossibleSnipes(board, hunterPos)| > 0 {
      var t := PossibleSnipes(board, hunterPos)[0];
      PossibleSnipesExact(board, hunterPos, t);
    }
    forall t | 0 <= t < 25 && (CanMove(board, hunterPos, t) || CanSnipe(board, hunterPos, t))
      ensures CanHunterMove(board, hunterPos)
    {
      ValidMovesExact(board, hunterPos, t);
      PossibleSnipesExact(board, hunterPos, t);
    }
  }

  /** The early-exit scan of checkWolfWin from cell `i` onward: false at the
      first hunter that can move, true when the scan runs off the board. */
  function NoHunterCanMoveFrom(board: Board, i: nat): (r: bool)
    requires i <= |board|
    ensures r <==> forall j :: i <= j < |board| && board[j] == HUNTER ==> !CanHunterMove(board, j)
    decreases |board| - i
  {
    if i == |board| then true
    else if board[i] == HUNTER && CanHunterMove(board, i) then false
    else NoHunterCanMoveFrom(board, i + 1)
  }

  predicate CheckWolfWin(board: Board)
  {
    NoHunterCanMoveFrom(board, 0)
  }

  /** With no hunter left on the board the wolves' condition holds. */
  lemma WolfWinWithoutHunters(board: Board)
    requires CountHunters(board) == 0
    ensures CheckWolfWin(board)
  {
    CountZero(board, HUNTER);
  }

  datatype GameResult = GameResult(gameOver: bool, winner: Option<Role>)

  /** checkGameOver: the hunters' condition first, then the wolves'. */
  function CheckGameOver(board: Board): (r: GameResult)
    ensures r.gameOver <==> r.winner.Some?
  {
    if CheckHunterWin(board) then GameResult(true, Some(Hunter))
    else if CheckWolfWin(board) then GameResult(true, Some(Role.Wolf))
    else GameResult(false, None)
  }

  /** The verdict in terms of the board: the hunters win with at most three
      wolves, even when no hunter can move either; the wolves win when more
      than three wolves remain and every hunter is blocked; otherwise the
      game goes on. */
  lemma CheckGameOverMeaning(board: Board)
    ensures CheckGameOver(board).winner == Some(Hunter) <==> CountWolves(board) <= 3
    ensures CheckGameOver(board).winner == Some(Role.Wolf)
        <==> CountWolves(board) > 3
             && forall h :: 0 <= h < 25 && board[h] == HUNTER ==> !CanHunterMove(board, h)
    ensures !CheckGameOver(board).gameOver
        <==> CountWolves(board) > 3
             && exists h :: 0 <= h < 25 && board[h] == HUNTER && CanHunterMove(board, h)
  {
  }

  /** The game is not over at the start: fifteen wolves, and the hunter on
      cell 21 can step up to cell 16. */
  lemma InitialNotOver()
    ensures !CheckGameOver(InitialBoard()).gameOver
    ensures CheckGameOver(InitialBoard()).winner == None
  {
    var b := InitialBoard();
    InitialCounts();
    assert CanMove(b, 21, 16);
    ValidMovesExact(b, 21, 16);
    assert CanHunterMove(b, 21);
  }
}
