/** src/store/gameStore.ts: the game store as a state machine. Every
    transition of the store is first a pure function on a snapshot of its
    fields (`StoreState`); the `Store` class holds the fields, and each
    of its methods updates them in place and is proved to land on the
    snapshot that function computes. The properties of the transitions are
    lemmas about those functions. */
module GameStore {
  import opened Types
  import opened Grid
  import opened Moves
  import opened Snipe
  import opened GameState
  import opened AiMoves

  datatype Direction = Up | Down | Left | Right

  /** The fields of the store, as one value. */
  datatype StoreState = StoreState(
    board: Board,
    currentTurn: Role,
    selectedPiece: Option<int>,
    gameOver: bool,
    winner: Option<Role>,
    validMoves: seq<int>,
    snipeTargets: seq<int>,
    isThinking: bool,
    playerRole: Option<Role>,
    cursorPosition: Option<int>)

  /** The invariant of every state the store reaches: the selection, the
      listed targets and the cursor are cells of the board, nothing is
      listed without a selection, and there is a winner exactly when the
      game is over. */
  predicate Consistent(s: StoreState)
  {
    && (s.selectedPiece.Some? ==> IsValidPosition(s.selectedPiece.value))
    && (forall p :: p in s.validMoves ==> IsValidPosition(p))
    && (forall p :: p in s.snipeTargets ==> IsValidPosition(p))
    && (s.selectedPiece.None? ==> s.validMoves == [] && s.snipeTargets == [])
    && (s.cursorPosition.Some? ==> IsValidPosition(s.cursorPosition.value))
    && (s.gameOver <==> s.winner.Some?)
  }

  /** The game-over flag and the winner are those `checkGameOver` yields
      on the store's board. */
  predicate VerdictMatches(s: StoreState)
  {
    GameResult(s.gameOver, s.winner) == CheckGameOver(s.board)
  }

  /** The store as created: the starting layout, the hunters to move, no
      selection, no role chosen and the cursor on the centre cell. */
  function InitialState(): (s: StoreState)
    ensures Consistent(s)
  {
    StoreState(InitialBoard(), Role.Hunter, None, false, None, [], [], false, None, Some(12))
  }

  /** resetGame: every field but the player's role back to its start. */
  function Reset(s: StoreState): StoreState
  {
    StoreState(InitialBoard(), Role.Hunter, None, false, None, [], [], false, s.playerRole, Some(12))
  }

  /** The state after a reset is the state of a new store, with the
      player's role kept; the game is not over on it. */
  lemma ResetIsInitial(s: StoreState)
    ensures Reset(s) == InitialState().(playerRole := s.playerRole)
    ensures Consistent(Reset(s)) && VerdictMatches(Reset(s))
    ensures !CheckGameOver(Reset(s).board).gameOver
  {
    InitialNotOver();
  }

  /** setPlayerRole: only the role changes. */
  function WithRole(s: StoreState, role: Role): StoreState
  {
    s.(playerRole := Some(role))
  }

  /** The selection and its targets cleared. */
  function Deselect(s: StoreState): StoreState
  {
    s.(selectedPiece := None, validMoves := [], snipeTargets := [])
  }

  /** The player's own hunter selected: its steps and its captures. */
  function SelectHunter(s: StoreState, pos: int): StoreState
  {
    s.(selectedPiece := Some(pos), validMoves := ValidMoves(s.board, pos),
       snipeTargets := PossibleSnipes(s.board, pos))
  }

  /** The player's own wolf selected: its steps, no captures. */
  function SelectWolf(s: StoreState, pos: int): StoreState
  {
    s.(selectedPiece := Some(pos), validMoves := ValidMoves(s.board, pos), snipeTargets := [])
  }

  /** Whether the player may pick up a piece of theirs on `pos`: it is their
      side's turn and a piece of their side stands there. */
  predicate OwnHunter(s: StoreState, pos: int)
  {
    s.currentTurn == Role.Hunter && Holds(s.board, pos, HUNTER) && s.playerRole == Some(Role.Hunter)
  }

  predicate OwnWolf(s: StoreState, pos: int)
  {
    s.currentTurn == Role.Wolf && Holds(s.board, pos, WOLF) && s.playerRole == Some(Role.Wolf)
  }

  /** selectPiece: nothing once the game is over; an empty cell clears the
      selection; the player's own piece on their turn is selected; any
      other cell leaves the store as it is. */
  function Select(s: StoreState, pos: int): StoreState
  {
    if s.gameOver then s
    else if Holds(s.board, pos, EMPTY) then Deselect(s)
    else if OwnHunter(s, pos) then SelectHunter(s, pos)
    else if OwnWolf(s, pos) then SelectWolf(s, pos)
    else s
  }

  /** The common tail of every applied move: the new board, no selection,
      the verdict of `checkGameOver` on the new board, and the turn passed
      to `next` unless the game has ended, when it stays. */
  function Commit(s: StoreState, newBoard: Board, next: Role): StoreState
  {
    var result := CheckGameOver(newBoard);
    s.(board := newBoard, selectedPiece := None, validMoves := [], snipeTargets := [],
       currentTurn := if result.gameOver then s.currentTurn else next,
       gameOver := result.gameOver, winner := result.winner)
  }

  /** moveHunter: with a selection on the hunters' turn, a listed capture
      target is captured, otherwise a listed step is taken; anything else
      is ignored. The game-over flag is not consulted. */
  function MoveHunterStep(s: StoreState, to: int): StoreState
    requires Consistent(s)
  {
    if s.selectedPiece.None? || s.currentTurn != Role.Hunter then s
    else if to in s.snipeTargets then Commit(s, Snipe.Snipe(s.board, s.selectedPiece.value, to), Role.Wolf)
    else if to in s.validMoves then Commit(s, MovePiece(s.board, s.selectedPiece.value, to), Role.Wolf)
    else s
  }

  /** hunterSnipe: the capture half of `moveHunter` alone. */
  function HunterSnipeStep(s: StoreState, to: int): StoreState
    requires Consistent(s)
  {
    if s.selectedPiece.None? || s.currentTurn != Role.Hunter then s
    else if to in s.snipeTargets then Commit(s, Snipe.Snipe(s.board, s.selectedPiece.value, to), Role.Wolf)
    else s
  }

  /** makeAIMove: on the wolves' turn of a running game the move is applied
      (a capture or a step, as flagged) and the turn passes to the hunters;
      the selection is left alone. Otherwise nothing happens. */
  function AIMoveStep(s: StoreState, m: Move): StoreState
    requires OnBoard(m)
  {
    if s.currentTurn != Role.Wolf || s.gameOver then s
    else
      var newBoard := if m.isSnipe then Snipe.Snipe(s.board, m.from, m.to) else MovePiece(s.board, m.from, m.to);
      var result := CheckGameOver(newBoard);
      s.(board := newBoard, currentTurn := if result.gameOver then s.currentTurn else Role.Hunter,
         gameOver := result.gameOver, winner := result.winner)
  }

  /** executeMovePiece: a selected hunter on the hunters' turn captures a
      listed target or takes a listed step; a selected wolf on the wolves'
      turn, when the player plays the wolves, takes a listed step. Anything
      else is ignored. */
  function ExecuteStep(s: StoreState, to: int): StoreState
    requires Consistent(s)
  {
    if s.selectedPiece.None? then s
    else
      var from := s.selectedPiece.value;
      var pieceType := s.board[from];
      if pieceType == HUNTER && s.currentTurn == Role.Hunter && to in s.snipeTargets then
        Commit(s, Snipe.Snipe(s.board, from, to), Role.Wolf)
      else if pieceType == HUNTER && s.currentTurn == Role.Hunter && to in s.validMoves then
        Commit(s, MovePiece(s.board, from, to), Role.Wolf)
      else if pieceType == WOLF && s.currentTurn == Role.Wolf && s.playerRole == Some(Role.Wolf)
              && to in s.validMoves then
        Commit(s, MovePiece(s.board, from, to), Role.Hunter)
      else s
  }

  /** The cursor arithmetic of moveCursor: one row or column in the given
      direction, clamped to the board. */
  function CursorStep(pos: int, direction: Direction): int
  {
    var row := Row(pos);
    var col := Col(pos);
    match direction
    case Up => At(if row - 1 < 0 then 0 else row - 1, col)
    case Down => At(if row + 1 > 4 then 4 else row + 1, col)
    case Left => At(row, if col - 1 < 0 then 0 else col - 1)
    case Right => At(row, if col + 1 > 4 then 4 else col + 1)
  }

  /** The cursor moves one cell in the direction asked, on the flat index,
      unless it is on that edge of the board, where it stays; so it never
      leaves the board and moves at most to a neighbouring cell. */
  lemma CursorStepMeaning(pos: int, direction: Direction)
    requires IsValidPosition(pos)
    ensures IsValidPosition(CursorStep(pos, direction))
    ensures direction == Up ==> CursorStep(pos, direction) == (if Row(pos) > 0 then pos - 5 else pos)
    ensures direction == Down ==> CursorStep(pos, direction) == (if Row(pos) < 4 then pos + 5 else pos)
    ensures direction == Left ==> CursorStep(pos, direction) == (if Col(pos) > 0 then pos - 1 else pos)
    ensures direction == Right ==> CursorStep(pos, direction) == (if Col(pos) < 4 then pos + 1 else pos)
    ensures CursorStep(pos, direction) == pos || IsAdjacent(pos, CursorStep(pos, direction))
  {
    RowColDecompose(pos);
    var r := CursorStep(pos, direction);
    RowColDecompose(r);
    if r != pos {
      AdjacentIffOffset(pos, r);
    }
  }

  /** Moving the cursor changes at most one of its row and column, and that
      one by exactly one. */
  lemma CursorStepOneAxis(pos: int, direction: Direction)
    requires IsValidPosition(pos)
    ensures var r := CursorStep(pos, direction);
      (Row(r) == Row(pos) && Abs(Col(r) - Col(pos)) <= 1)
      || (Col(r) == Col(pos) && Abs(Row(r) - Row(pos)) == 1)
  {
    var row, col := Row(pos), Col(pos);
    RowColDecompose(pos);
    match direction
    case Up => RowColRoundTrip(if row - 1 < 0 then 0 else row - 1, col);
    case Down => RowColRoundTrip(if row + 1 > 4 then 4 else row + 1, col);
    case Left => RowColRoundTrip(row, if col - 1 < 0 then 0 else col - 1);
    case Right => RowColRoundTrip(row, if col + 1 > 4 then 4 else col + 1);
  }

  /** moveCursor: nothing without a cursor; otherwise the clamped step. */
  function MoveCursorStep(s: StoreState, direction: Direction): StoreState
  {
    if s.cursorPosition.None? then s
    else s.(cursorPosition := Some(CursorStep(s.cursorPosition.value, direction)))
  }

  /** confirmMove: the keyboard's "enter". Without a selection it picks up
      the player's own piece under the cursor; with one it plays the move
      onto the cursor when the cursor is on a listed target. In every other
      running-game case the selection is cleared. */
  function ConfirmStep(s: StoreState): StoreState
    requires Consistent(s)
  {
    if s.cursorPosition.None? || s.gameOver then s
    else
      var pos := s.cursorPosition.value;
      if s.selectedPiece.None? && OwnHunter(s, pos) then SelectHunter(s, pos)
      else if s.selectedPiece.None? && OwnWolf(s, pos) then SelectWolf(s, pos)
      else if s.selectedPiece.Some? && (pos in s.validMoves || pos in s.snipeTargets) then ExecuteStep(s, pos)
      else Deselect(s)
  }

  /** The search depth of the AI's turn from the number of wolves left. */
  function AiDepth(wolvesCount: int): int
  {
    if wolvesCount > 12 then 6 else if wolvesCount > 6 then 5 else 4
  }

  /** Depth 6 with more than twelve wolves, 5 with seven to twelve, 4 with
      six or fewer; more wolves never means a shallower search. Fifteen
      wolves at the start give depth 6. */
  lemma AiDepthSchedule(w: int, v: int)
    ensures 4 <= AiDepth(w) <= 6
    ensures AiDepth(w) == 6 <==> w > 12
    ensures AiDepth(w) == 5 <==> 6 < w <= 12
    ensures AiDepth(w) == 4 <==> w <= 6
    ensures w <= v ==> AiDepth(w) <= AiDepth(v)
    ensures AiDepth(CountWolves(InitialBoard())) == 6
  {
    InitialCounts();
  }

  /** Every transition keeps the store's invariant. */
  lemma SelectConsistent(s: StoreState, pos: int)
    requires Consistent(s)
    ensures Consistent(WithRole(s, Role.Hunter)) && Consistent(WithRole(s, Role.Wolf))
    ensures Consistent(Select(s, pos))
  {
    SelectionConsistent(s, pos);
  }

  lemma MovesConsistent(s: StoreState, to: int)
    requires Consistent(s)
    ensures Consistent(MoveHunterStep(s, to))
    ensures Consistent(HunterSnipeStep(s, to))
    ensures Consistent(ExecuteStep(s, to))
  {
  }

  lemma AIMoveConsistent(s: StoreState, m: Move)
    requires Consistent(s) && OnBoard(m)
    ensures Consistent(AIMoveStep(s, m))
  {
  }

  lemma CursorConsistent(s: StoreState, direction: Direction)
    requires Consistent(s)
    ensures Consistent(MoveCursorStep(s, direction))
  {
    if s.cursorPosition.Some? {
      CursorStepMeaning(s.cursorPosition.value, direction);
    }
  }

  lemma ConfirmConsistent(s: StoreState)
    requires Consistent(s)
    ensures Consistent(ConfirmStep(s))
  {
    if s.cursorPosition.Some? {
      SelectionConsistent(s, s.cursorPosition.value);
      MovesConsistent(s, s.cursorPosition.value);
    }
  }

  /** Every transition keeps the game-over flags in step with the board:
      the transitions that change the board take their verdict from it. */
  lemma RoleKeepsVerdict(s: StoreState, role: Role)
    requires VerdictMatches(s)
    ensures VerdictMatches(WithRole(s, role))
  {
  }

  lemma SelectKeepsVerdict(s: StoreState, pos: int)
    requires VerdictMatches(s)
    ensures VerdictMatches(Select(s, pos))
  {
  }

  lemma CursorKeepsVerdict(s: StoreState, direction: Direction)
    requires VerdictMatches(s)
    ensures VerdictMatches(MoveCursorStep(s, direction))
  {
  }

  lemma CommitKeepsVerdict(s: StoreState, newBoard: Board, next: Role)
    ensures VerdictMatches(Commit(s, newBoard, next))
  {
  }

  lemma MovesKeepVerdict(s: StoreState, to: int)
    requires Consistent(s) && VerdictMatches(s)
    ensures VerdictMatches(MoveHunterStep(s, to))
    ensures VerdictMatches(HunterSnipeStep(s, to))
    ensures VerdictMatches(ExecuteStep(s, to))
  {
    if s.selectedPiece.Some? && to in s.snipeTargets {
      CommitKeepsVerdict(s, Snipe.Snipe(s.board, s.selectedPiece.value, to), Role.Wolf);
    }
    if s.selectedPiece.Some? && to in s.validMoves {
      CommitKeepsVerdict(s, MovePiece(s.board, s.selectedPiece.value, to), Role.Wolf);
      CommitKeepsVerdict(s, MovePiece(s.board, s.selectedPiece.value, to), Role.Hunter);
    }
  }

  lemma ConfirmKeepsVerdict(s: StoreState)
    requires Consistent(s) && VerdictMatches(s)
    ensures VerdictMatches(ConfirmStep(s))
  {
    if s.cursorPosition.Some? {
      MovesKeepVerdict(s, s.cursorPosition.value);
    }
  }

  lemma AIMoveKeepsVerdict(s: StoreState, m: Move)
    requires VerdictMatches(s) && OnBoard(m)
    ensures VerdictMatches(AIMoveStep(s, m))
  {
  }

  /** Selecting a piece lists only cells of the board. */
  lemma SelectionConsistent(s: StoreState, pos: int)
    requires Consistent(s)
    ensures OwnHunter(s, pos) ==> Consistent(SelectHunter(s, pos))
    ensures OwnWolf(s, pos) ==> Consistent(SelectWolf(s, pos))
  {
    if OwnHunter(s, pos) || OwnWolf(s, pos) {
      forall t | t in ValidMoves(s.board, pos)
        ensures IsValidPosition(t)
      {
        ValidMovesExact(s.board, pos, t);
      }
      forall t | t in PossibleSnipes(s.board, pos)
        ensures IsValidPosition(t)
      {
        PossibleSnipesExact(s.board, pos, t);
      }
    }
  }

  /** selectPiece does nothing once the game is over, and never touches
      the board, the turn, the verdict, the role or the cursor. */
  lemma SelectOnlySelects(s: StoreState, pos: int)
    ensures s.gameOver ==> Select(s, pos) == s
    ensures var r := Select(s, pos);
      r.board == s.board && r.currentTurn == s.currentTurn && r.gameOver == s.gameOver
      && r.winner == s.winner && r.playerRole == s.playerRole && r.cursorPosition == s.cursorPosition
  {
  }

  /** Selecting one's own hunter on the hunters' turn lists exactly the
      empty neighbours it can step to and exactly the wolves it can
      capture; selecting one's own wolf lists its steps and no capture. */
  lemma SelectListsLegalMoves(s: StoreState, pos: int, t: int)
    requires !s.gameOver
    ensures OwnHunter(s, pos) ==>
      var r := Select(s, pos);
      r.selectedPiece == Some(pos)
      && (t in r.validMoves <==> CanMove(s.board, pos, t))
      && (t in r.snipeTargets <==> CanSnipe(s.board, pos, t))
    ensures OwnWolf(s, pos) ==>
      var r := Select(s, pos);
      r.selectedPiece == Some(pos) && (t in r.validMoves <==> CanMove(s.board, pos, t)) && r.snipeTargets == []
  {
    if OwnHunter(s, pos) || OwnWolf(s, pos) {
      ValidMovesExact(s.board, pos, t);
      PossibleSnipesExact(s.board, pos, t);
    }
  }

  /** moveHunter changes the store only for a listed target on the hunters'
      turn with a selection, and then captures when the target is a listed
      capture and steps otherwise. */
  lemma MoveHunterGuarded(s: StoreState, to: int)
    requires Consistent(s)
    ensures MoveHunterStep(s, to) != s ==>
      s.selectedPiece.Some? && s.currentTurn == Role.Hunter && (to in s.snipeTargets || to in s.validMoves)
    ensures s.selectedPiece.Some? && s.currentTurn == Role.Hunter && to in s.snipeTargets ==>
      MoveHunterStep(s, to).board == Snipe.Snipe(s.board, s.selectedPiece.value, to)
    ensures s.selectedPiece.Some? && s.currentTurn == Role.Hunter && to !in s.snipeTargets && to in s.validMoves ==>
      MoveHunterStep(s, to).board == MovePiece(s.board, s.selectedPiece.value, to)
  {
  }

  /** hunterSnipe is moveHunter restricted to capture targets. */
  lemma HunterSnipeIsCaptureOnly(s: StoreState, to: int)
    requires Consistent(s)
    ensures to in s.snipeTargets ==> HunterSnipeStep(s, to) == MoveHunterStep(s, to)
    ensures to !in s.snipeTargets ==> HunterSnipeStep(s, to) == s
  {
  }

  /** With a hunter selected, executeMovePiece does what moveHunter does;
      a selected wolf moves only for a wolf player on the wolves' turn, and
      only by a listed step. */
  lemma ExecuteAgreesWithMoveHunter(s: StoreState, to: int)
    requires Consistent(s) && s.selectedPiece.Some?
    ensures s.board[s.selectedPiece.value] == HUNTER ==> ExecuteStep(s, to) == MoveHunterStep(s, to)
    ensures s.board[s.selectedPiece.value] == WOLF && ExecuteStep(s, to) != s ==>
      s.currentTurn == Role.Wolf && s.playerRole == Some(Role.Wolf) && to in s.validMoves
      && ExecuteStep(s, to).board == MovePiece(s.board, s.selectedPiece.value, to)
  {
  }

  /** After an applied move the selection and its targets are cleared, the
      verdict is that of the new board, and the turn has passed to the
      other side unless the game ended, when it stays with the mover. */
  lemma CommitPassesTurn(s: StoreState, newBoard: Board)
    ensures var r := Commit(s, newBoard, Opponent(s.currentTurn));
      && r.board == newBoard
      && r.selectedPiece == None && r.validMoves == [] && r.snipeTargets == []
      && GameResult(r.gameOver, r.winner) == CheckGameOver(newBoard)
      && (r.gameOver ==> r.currentTurn == s.currentTurn)
      && (!r.gameOver ==> r.currentTurn != s.currentTurn)
      && r.playerRole == s.playerRole && r.cursorPosition == s.cursorPosition
  {
  }

  /** A move the store applies for the player passes the turn: from the
      hunters to the wolves, or from the wolves to the hunters. */
  lemma AppliedMovesPassTurn(s: StoreState, to: int)
    requires Consistent(s)
    ensures MoveHunterStep(s, to) != s ==>
      MoveHunterStep(s, to) == Commit(s, MoveHunterStep(s, to).board, Opponent(s.currentTurn))
    ensures ExecuteStep(s, to) != s ==>
      ExecuteStep(s, to) == Commit(s, ExecuteStep(s, to).board, Opponent(s.currentTurn))
  {
  }

  /** The AI's move is ignored unless it is the wolves' turn in a running
      game; when applied, the verdict is that of the new board and the
      turn passes to the hunters unless the game ended. */
  lemma AIMoveGuarded(s: StoreState, m: Move)
    requires OnBoard(m)
    ensures s.currentTurn != Role.Wolf || s.gameOver ==> AIMoveStep(s, m) == s
    ensures s.currentTurn == Role.Wolf && !s.gameOver ==>
      var r := AIMoveStep(s, m);
      && r.board == (if m.isSnipe then Snipe.Snipe(s.board, m.from, m.to) else MovePiece(s.board, m.from, m.to))
      && GameResult(r.gameOver, r.winner) == CheckGameOver(r.board)
      && r.currentTurn == (if r.gameOver then Role.Wolf else Role.Hunter)
      && r.selectedPiece == s.selectedPiece
  {
  }

  /** confirmMove on a cursor over the player's own unselected piece does
      what selectPiece does there, and on a listed target with a selection
      it does what executeMovePiece does. */
  lemma ConfirmAgrees(s: StoreState)
    requires Consistent(s) && s.cursorPosition.Some? && !s.gameOver
    ensures var pos := s.cursorPosition.value;
      s.selectedPiece.None? && (OwnHunter(s, pos) || OwnWolf(s, pos)) ==> ConfirmStep(s) == Select(s, pos)
    ensures var pos := s.cursorPosition.value;
      s.selectedPiece.Some? && (pos in s.validMoves || pos in s.snipeTargets) ==> ConfirmStep(s) == ExecuteStep(s, pos)
  {
  }

  /** The store: the fields of the source's store object, replaced by its
      transitions. */
  class Store {
    var board: Board
    var currentTurn: Role
    var selectedPiece: Option<int>
    var gameOver: bool
    var winner: Option<Role>
    var validMoves: seq<int>
    var snipeTargets: seq<int>
    var isThinking: bool
    var playerRole: Option<Role>
    var cursorPosition: Option<int>

    /** The current fields as one value. */
    function State(): StoreState
      reads this
    {
      StoreState(board, currentTurn, selectedPiece, gameOver, winner, validMoves, snipeTargets,
                 isThinking, playerRole, cursorPosition)
    }

    predicate Valid()
      reads this
    {
      Consistent(State())
    }

    constructor()
      ensures Valid()
      ensures State() == InitialState()
    {
      var b := CreateInitialBoard();
      board := b;
      currentTurn := Role.Hunter;
      selectedPiece := None;
      gameOver := false;
      winner := None;
      validMoves := [];
      snipeTargets := [];
      isThinking := false;
      playerRole := None;
      cursorPosition := Some(12);
    }

    method ResetGame()
      modifies this
      ensures Valid()
      ensures State() == Reset(old(State()))
    {
      var b := CreateInitialBoard();
      board := b;
      currentTurn := Role.Hunter;
      selectedPiece := None;
      gameOver := false;
      winner := None;
      validMoves := [];
      snipeTargets := [];
      isThinking := false;
      cursorPosition := Some(12);
    }

    method SetPlayerRole(role: Role)
      requires Valid()
      modifies this
      ensures Valid()
      ensures State() == WithRole(old(State()), role)
    {
      playerRole := Some(role);
    }

    method SelectPiece(pos: int)
      requires Valid()
      modifies this
      ensures Valid()
      ensures State() == Select(old(State()), pos)
    {
      SelectConsistent(State(), pos);
      if gameOver {
        return;
      }
      if Holds(board, pos, EMPTY) {
        selectedPiece, validMoves, snipeTargets := None, [], [];
        return;
      }
      if currentTurn == Role.Hunter && Holds(board, pos, HUNTER) && playerRole == Some(Role.Hunter) {
        var moves := ValidMoves(board, pos);
        var snipes := GetPossibleSnipes(board, pos);
        selectedPiece, validMoves, snipeTargets := Some(pos), moves, snipes;
        return;
      }
      if currentTurn == Role.Wolf && Holds(board, pos, WOLF) && playerRole == Some(Role.Wolf) {
        var moves := ValidMoves(board, pos);
        selectedPiece, validMoves, snipeTargets := Some(pos), moves, [];
      }
    }

    /** The shared tail of an applied move. */
    method CommitMove(newBoard: Board, next: Role)
      modifies this
      ensures State() == Commit(old(State()), newBoard, next)
    {
      var gameResult := CheckGameOver(newBoard);
      board := newBoard;
      selectedPiece, validMoves, snipeTargets := None, [], [];
      if !gameResult.gameOver {
        currentTurn := next;
      }
      gameOver, winner := gameResult.gameOver, gameResult.winner;
    }

    method MoveHunter(to: int)
      requires Valid()
      modifies this
      ensures Valid()
      ensures State() == MoveHunterStep(old(State()), to)
    {
      MovesConsistent(State(), to);
      if selectedPiece.None? || currentTurn != Role.Hunter {
        return;
      }
      if to in snipeTargets {
        CommitMove(Snipe.Snipe(board, selectedPiece.value, to), Role.Wolf);
        return;
      }
      if to in validMoves {
        CommitMove(MovePiece(board, selectedPiece.value, to), Role.Wolf);
      }
    }

    method HunterSnipe(to: int)
      requires Valid()
      modifies this
      ensures Valid()
      ensures State() == HunterSnipeStep(old(State()), to)
    {
      MovesConsistent(State(), to);
      if selectedPiece.None? || currentTurn != Role.Hunter {
        return;
      }
      if to in snipeTargets {
        CommitMove(Snipe.Snipe(board, selectedPiece.value, to), Role.Wolf);
      }
    }

    method MakeAIMove(aiMove: Move)
      requires Valid() && OnBoard(aiMove)
      modifies this
      ensures Valid()
      ensures State() == AIMoveStep(old(State()), aiMove)
    {
      AIMoveConsistent(State(), aiMove);
      if currentTurn != Role.Wolf || gameOver {
        return;
      }
      var newBoard;
      if aiMove.isSnipe {
        newBoard := Snipe.Snipe(board, aiMove.from, aiMove.to);
      } else {
        newBoard := MovePiece(board, aiMove.from, aiMove.to);
      }
      var gameResult := CheckGameOver(newBoard);
      board := newBoard;
      if !gameResult.gameOver {
        currentTurn := Role.Hunter;
      }
      gameOver, winner := gameResult.gameOver, gameResult.winner;
    }

    method ExecuteMovePiece(to: int)
      requires Valid()
      modifies this
      ensures Valid()
      ensures State() == ExecuteStep(old(State()), to)
    {
      MovesConsistent(State(), to);
      if selectedPiece.None? {
        return;
      }
      var from := selectedPiece.value;
      var pieceType := board[from];
      var isHunter := pieceType == HUNTER;
      var isWolf := pieceType == WOLF;
      if isHunter && currentTurn == Role.Hunter {
        if to in snipeTargets {
          CommitMove(Snipe.Snipe(board, from, to), Role.Wolf);
          return;
        }
        if to in validMoves {
          CommitMove(MovePiece(board, from, to), Role.Wolf);
          return;
        }
      }
      if isWolf && currentTurn == Role.Wolf && playerRole == Some(Role.Wolf) {
        if to in validMoves {
          CommitMove(MovePiece(board, from, to), Role.Hunter);
        }
      }
    }

    method MoveCursor(direction: Direction)
      requires Valid()
      modifies this
      ensures Valid()
      ensures State() == MoveCursorStep(old(State()), direction)
    {
      CursorConsistent(State(), direction);
      if cursorPosition.None? {
        return;
      }
      var currentRow := Row(cursorPosition.value);
      var currentCol := Col(cursorPosition.value);
      var newRow, newCol := currentRow, currentCol;
      match direction {
        case Up => newRow := if currentRow - 1 < 0 then 0 else currentRow - 1;
        case Down => newRow := if currentRow + 1 > 4 then 4 else currentRow + 1;
        case Left => newCol := if currentCol - 1 < 0 then 0 else currentCol - 1;
        case Right => newCol := if currentCol + 1 > 4 then 4 else currentCol + 1;
      }
      cursorPosition := Some(newRow * 5 + newCol);
    }

    method ConfirmMove()
      requires Valid()
      modifies this
      ensures Valid()
      ensures State() == ConfirmStep(old(State()))
    {
      ConfirmConsistent(State());
      if cursorPosition.None? {
        return;
      }
      var pos := cursorPosition.value;
      var cell := board[pos];
      if gameOver {
        return;
      }
      if selectedPiece.None? {
        if cell == HUNTER && currentTurn == Role.Hunter && playerRole == Some(Role.Hunter) {
          var moves := ValidMoves(board, pos);
          var snipes := GetPossibleSnipes(board, pos);
          SelectionConsistent(State(), pos);
          selectedPiece, validMoves, snipeTargets := Some(pos), moves, snipes;
          return;
        }
        if cell == WOLF && currentTurn == Role.Wolf && playerRole == Some(Role.Wolf) {
          var moves := ValidMoves(board, pos);
          SelectionConsistent(State(), pos);
          selectedPiece, validMoves, snipeTargets := Some(pos), moves, [];
          return;
        }
      } else {
        if pos in validMoves || pos in snipeTargets {
          ExecuteMovePiece(pos);
          return;
        }
      }
      selectedPiece, validMoves, snipeTargets := None, [], [];
    }
  }
}
