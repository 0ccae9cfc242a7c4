/** src/workers/aiWorker.ts: the search behind the computer player. A
    fail-soft alpha-beta minimax over the generated moves, terminal
    scoring, the move application it uses, the wolves' "do not step into a
    capture" filter, and the root loop that picks the move.

    The clock is not modelled: every `Date.now()` test reads an oracle
    `expired`, indexed by the number of tests made so far, which the
    search threads through its calls. The two per-role evaluators are
    parameters about which nothing is assumed. */
module AiWorker {
  import opened Types
  import opened Grid
  import opened Moves
  import opened Snipe
  import opened GameState
  import opened AiMoves

  /** The source's numbers as the search uses them: integers and the two
      infinities of the initial bounds. */
  datatype ExtInt = NegInf | Fin(n: int) | PosInf

  /** `<=` on integers extended with the two infinities. */
  predicate Le(a: ExtInt, b: ExtInt)
  {
    a == NegInf || b == PosInf || (a.Fin? && b.Fin? && a.n <= b.n)
  }

  predicate Lt(a: ExtInt, b: ExtInt)
  {
    !Le(b, a)
  }

  /** `Math.max` and `Math.min`. */
  function MaxE(a: ExtInt, b: ExtInt): (m: ExtInt)
    ensures Le(a, m) && Le(b, m) && (m == a || m == b)
  {
    if Le(a, b) then b else a
  }

  function MinE(a: ExtInt, b: ExtInt): (m: ExtInt)
    ensures Le(m, a) && Le(m, b) && (m == a || m == b)
  {
    if Le(a, b) then a else b
  }

  /** The result `r` of a search with window (alpha, beta) against the
      exact value `v`: at or below alpha it bounds `v` from above, at or
      above beta from below, and strictly inside the window it is `v`. */
  predicate FailSoft(r: int, v: int, alpha: ExtInt, beta: ExtInt)
  {
    && (Le(Fin(r), alpha) ==> v <= r)
    && (Le(beta, Fin(r)) ==> r <= v)
    && (Lt(alpha, Fin(r)) && Lt(Fin(r), beta) ==> r == v)
  }

  /** What a fail-soft result says about the exact value through the
      window: inside it the two agree, at or below alpha the result is too,
      and at or above beta the result is too. With the infinite window the
      result is the exact value. */
  lemma FailSoftWindow(r: int, v: int, alpha: ExtInt, beta: ExtInt)
    requires Lt(alpha, beta) && FailSoft(r, v, alpha, beta)
    ensures Lt(alpha, Fin(v)) && Lt(Fin(v), beta) ==> r == v
    ensures Le(Fin(v), alpha) ==> Le(Fin(r), alpha)
    ensures Le(beta, Fin(v)) ==> Le(beta, Fin(r))
    ensures alpha == NegInf && beta == PosInf ==> r == v
  {
  }

  /** The two per-role evaluators the search imports. */
  datatype Evaluators = Evaluators(wolfView: Board -> int, hunterView: Board -> int)

  /** evaluate: the evaluator of the searching side. */
  function Evaluate(board: Board, aiRole: Role, ev: Evaluators): int
  {
    if aiRole == Role.Wolf then ev.wolfView(board) else ev.hunterView(board)
  }

  /** The moves of one side. */
  function MovesFor(board: Board, role: Role): seq<Move>
  {
    if role == Role.Wolf then WolfMoves(board) else HunterMoves(board)
  }

  method GenerateMoves(board: Board, role: Role) returns (moves: seq<Move>)
    ensures moves == MovesFor(board, role)
  {
    if role == Role.Wolf {
      moves := GenerateWolfMoves(board);
    } else {
      moves := GenerateHunterMoves(board);
    }
  }

  /** Every generated move starts and ends on the board. */
  lemma MovesForOnBoard(board: Board, role: Role)
    ensures forall i :: 0 <= i < |MovesFor(board, role)| ==> OnBoard(MovesFor(board, role)[i])
  {
    var moves := MovesFor(board, role);
    forall i | 0 <= i < |moves| ensures OnBoard(moves[i]) {
      var m := moves[i];
      assert m in moves;
      if role == Role.Wolf {
        WolfMovesExact(board, m);
      } else {
        HunterMovesExact(board, m);
        if m.isSnipe {
          CanSnipeShape(board, m.from, m.to);
        }
      }
    }
  }

  /** applyMove: on a copy, the destination receives the origin's piece;
      a capture also empties the middle cell; then the origin is emptied.
      An odd index sum has no middle cell and writes no cell. */
  function ApplyMove(board: Board, move: Move): (r: Board)
    requires OnBoard(move)
  {
    var placed := board[move.to := board[move.from]];
    var cleared := if move.isSnipe && (move.from + move.to) % 2 == 0
                   then placed[(move.from + move.to) / 2 := EMPTY] else placed;
    cleared[move.from := EMPTY]
  }

  /** A step is movePiece, and a capture by a hunter is snipe. */
  lemma ApplyMoveAgrees(board: Board, move: Move)
    requires OnBoard(move)
    ensures !move.isSnipe ==> ApplyMove(board, move) == MovePiece(board, move.from, move.to)
    ensures move.isSnipe && board[move.from] == HUNTER
            ==> ApplyMove(board, move) == Snipe.Snipe(board, move.from, move.to)
  {
  }

  /** A generated capture removes the captured wolf and keeps the hunters;
      a generated step keeps every count. */
  lemma ApplyMoveCounts(board: Board, role: Role, move: Move)
    requires move in MovesFor(board, role)
    ensures OnBoard(move)
    ensures move.isSnipe ==> CountWolves(ApplyMove(board, move)) == CountWolves(board) - 1
    ensures CountHunters(ApplyMove(board, move)) == CountHunters(board)
    ensures !move.isSnipe ==> CountWolves(ApplyMove(board, move)) == CountWolves(board)
  {
    if role == Role.Wolf {
      WolfMovesExact(board, move);
    } else {
      HunterMovesExact(board, move);
    }
    ApplyMoveAgrees(board, move);
    if move.isSnipe {
      SnipeCounts(board, move.from, move.to);
    } else {
      ValidMovesExact(board, move.from, move.to);
      AdjacentSymmetricIrreflexive(move.from, move.to);
      MovePieceKeepsCounts(board, move.from, move.to, WOLF);
      MovePieceKeepsCounts(board, move.from, move.to, HUNTER);
    }
  }

  /** The value of a position under plain minimax, with the source's
      terminal scores: a win for the searching side is worth 100000 plus
      the remaining depth, a loss minus that; at depth 0 the evaluator
      decides; a side without moves scores -100000 when it is the
      searching side and 100000 otherwise. */
  function Value(board: Board, depth: int, isMaximizing: bool, aiRole: Role, ev: Evaluators): int
    decreases if depth > 0 then depth else 0, 1
  {
    var gameStatus := CheckGameOver(board);
    if gameStatus.gameOver then
      (if gameStatus.winner == Some(aiRole) then 100000 + depth else -100000 - depth)
    else if depth <= 0 then Evaluate(board, aiRole, ev)
    else
      var mover := if isMaximizing then aiRole else Opponent(aiRole);
      var moves := MovesFor(board, mover);
      if |moves| == 0 then (if isMaximizing then -100000 else 100000)
      else
        MovesForOnBoard(board, mover);
        var children := ChildValues(board, moves, depth, !isMaximizing, aiRole, ev);
        if isMaximizing then MaxOf(children, |children|) else MinOf(children, |children|)
  }

  /** The values of the positions the moves lead to, searched one level
      shallower with the other side to move. */
  function ChildValues(board: Board, moves: seq<Move>, depth: int, nextIsMaximizing: bool,
                       aiRole: Role, ev: Evaluators): (values: seq<int>)
    requires forall i :: 0 <= i < |moves| ==> OnBoard(moves[i])
    ensures |values| == |moves|
    decreases if depth > 0 then depth else 1, 0
  {
    seq(|moves|, i requires 0 <= i < |moves| => ValueAfter(board, moves[i], depth - 1, nextIsMaximizing, aiRole, ev))
  }

  /** The value of the position a move leads to. */
  function ValueAfter(board: Board, move: Move, depth: int, isMaximizing: bool, aiRole: Role, ev: Evaluators): int
    requires OnBoard(move)
    decreases if depth > 0 then depth else 0, 2
  {
    Value(ApplyMove(board, move), depth, isMaximizing, aiRole, ev)
  }

  /** The greatest of the first `k` values, taken front to back. */
  function MaxOf(values: seq<int>, k: nat): (m: int)
    requires 1 <= k <= |values|
    ensures forall j :: 0 <= j < k ==> values[j] <= m
    ensures exists j :: 0 <= j < k && values[j] == m
  {
    if k == 1 then values[0]
    else
      var rest := MaxOf(values, k - 1);
      if values[k - 1] > rest then values[k - 1] else rest
  }

  /** The least of the first `k` values. */
  function MinOf(values: seq<int>, k: nat): (m: int)
    requires 1 <= k <= |values|
    ensures forall j :: 0 <= j < k ==> m <= values[j]
    ensures exists j :: 0 <= j < k && values[j] == m
  {
    if k == 1 then values[0]
    else
      var rest := MinOf(values, k - 1);
      if values[k - 1] < rest then values[k - 1] else rest
  }

  /** No time test in `[from, to)` reported a timeout. */
  ghost predicate NoTimeout(expired: nat -> bool, from: nat, to: nat)
    decreases to - from
  {
    from >= to || (!expired(from) && NoTimeout(expired, from + 1, to))
  }

  /** A stretch without a timeout is two such stretches back to back. */
  lemma {:induction false} NoTimeoutSplit(expired: nat -> bool, a: nat, b: nat, c: nat)
    requires a <= b <= c
    ensures NoTimeout(expired, a, c) <==> NoTimeout(expired, a, b) && NoTimeout(expired, b, c)
    decreases b - a
  {
    if a < b {
      NoTimeoutSplit(expired, a + 1, b, c);
    }
  }

  /** A stretch without a timeout has no test in it that reported one. */
  lemma {:induction false} NoTimeoutMeaning(expired: nat -> bool, from: nat, to: nat, t: nat)
    requires from <= t < to
    ensures NoTimeout(expired, from, to) ==> !expired(t)
    decreases t - from
  {
    if from < t {
      NoTimeoutMeaning(expired, from + 1, to, t);
    }
  }

  /** One step of the maximizing loop keeps the fail-soft relation between
      `maxEval` and the best exact value so far. */
  lemma MaxStep(alpha: ExtInt, beta: ExtInt, m: int, vm: int, s: int, vs: int)
    requires Lt(alpha, beta) && Lt(Fin(m), beta)
    requires FailSoft(m, vm, alpha, beta)
    requires FailSoft(s, vs, MaxE(alpha, Fin(m)), beta)
    ensures FailSoft(if s > m then s else m, if vs > vm then vs else vm, alpha, beta)
  {
  }

  lemma MinStep(alpha: ExtInt, beta: ExtInt, m: int, vm: int, s: int, vs: int)
    requires Lt(alpha, beta) && Lt(alpha, Fin(m))
    requires FailSoft(m, vm, alpha, beta)
    requires FailSoft(s, vs, alpha, MinE(beta, Fin(m)))
    ensures FailSoft(if s < m then s else m, if vs < vm then vs else vm, alpha, beta)
  {
  }

  /** One iteration of the maximizing loop, on values alone: the child
      searched with window (max(alpha, maxEval), beta) keeps `maxEval`
      fail-soft against the maximum of the values seen, and a cut-off
      (beta <= alpha afterwards) makes it fail-soft against the maximum
      of all values. */
  lemma MaxLoopStep(alpha: ExtInt, beta: ExtInt, values: seq<int>, i: nat, m: ExtInt, s: int)
    requires Lt(alpha, beta) && i < |values|
    requires i == 0 ==> m == NegInf
    requires i > 0 ==> m.Fin? && FailSoft(m.n, MaxOf(values, i), alpha, beta) && Lt(MaxE(alpha, m), beta)
    requires FailSoft(s, values[i], MaxE(alpha, m), beta)
    ensures MaxE(m, Fin(s)).Fin? && FailSoft(MaxE(m, Fin(s)).n, MaxOf(values, i + 1), alpha, beta)
    ensures Le(beta, MaxE(alpha, MaxE(m, Fin(s)))) ==>
      FailSoft(MaxE(m, Fin(s)).n, MaxOf(values, |values|), alpha, beta)
  {
    if i > 0 {
      MaxStep(alpha, beta, m.n, MaxOf(values, i), s, values[i]);
    }
    assert MaxOf(values, i + 1) <= MaxOf(values, |values|);
  }

  lemma MinLoopStep(alpha: ExtInt, beta: ExtInt, values: seq<int>, i: nat, m: ExtInt, s: int)
    requires Lt(alpha, beta) && i < |values|
    requires i == 0 ==> m == PosInf
    requires i > 0 ==> m.Fin? && FailSoft(m.n, MinOf(values, i), alpha, beta) && Lt(alpha, MinE(beta, m))
    requires FailSoft(s, values[i], alpha, MinE(beta, m))
    ensures MinE(m, Fin(s)).Fin? && FailSoft(MinE(m, Fin(s)).n, MinOf(values, i + 1), alpha, beta)
    ensures Le(MinE(beta, MinE(m, Fin(s))), alpha) ==>
      FailSoft(MinE(m, Fin(s)).n, MinOf(values, |values|), alpha, beta)
  {
    if i > 0 {
      MinStep(alpha, beta, m.n, MinOf(values, i), s, values[i]);
    }
    assert MinOf(values, |values|) <= MinOf(values, i + 1);
  }

  /** Raising alpha by each score in turn keeps it the larger of alpha
      and the best score; lowering beta likewise. */
  lemma MaxShift(alpha: ExtInt, m: ExtInt, s: int)
    ensures MaxE(MaxE(alpha, m), Fin(s)) == MaxE(alpha, MaxE(m, Fin(s)))
  {
  }

  lemma MinShift(beta: ExtInt, m: ExtInt, s: int)
    ensures MinE(MinE(beta, m), Fin(s)) == MinE(beta, MinE(m, Fin(s)))
  {
  }

  /** The value of a maximizing node that has moves, and of a minimizing
      one. */
  lemma ValueOfNode(board: Board, depth: int, isMaximizing: bool, aiRole: Role, ev: Evaluators, moves: seq<Move>)
    requires depth > 0 && !CheckGameOver(board).gameOver
    requires moves == MovesFor(board, if isMaximizing then aiRole else Opponent(aiRole)) && |moves| > 0
    requires forall i :: 0 <= i < |moves| ==> OnBoard(moves[i])
    ensures var values := ChildValues(board, moves, depth, !isMaximizing, aiRole, ev);
      Value(board, depth, isMaximizing, aiRole, ev)
        == if isMaximizing then MaxOf(values, |values|) else MinOf(values, |values|)
  {
  }

  /** minimax as the source runs it. Without a timeout and with a proper
      window the result is fail-soft against `Value`; terminal positions
      and depth 0 are scored directly. Every call makes at least one time
      test. */
  method Minimax(board: Board, depth: int, alpha: ExtInt, beta: ExtInt, isMaximizing: bool,
                 aiRole: Role, ev: Evaluators, expired: nat -> bool, clock: nat)
    returns (score: int, clockOut: nat)
    ensures clock < clockOut
    ensures expired(clock) ==> score == Evaluate(board, aiRole, ev)
    ensures !expired(clock) && CheckGameOver(board).gameOver ==>
      score == (if CheckGameOver(board).winner == Some(aiRole) then 100000 + depth else -100000 - depth)
    ensures !expired(clock) && !CheckGameOver(board).gameOver && depth <= 0 ==> score == Evaluate(board, aiRole, ev)
    ensures Lt(alpha, beta) && NoTimeout(expired, clock, clockOut) ==>
      FailSoft(score, Value(board, depth, isMaximizing, aiRole, ev), alpha, beta)
    decreases if depth > 0 then depth else 0, 3
  {
    if expired(clock) {
      return Evaluate(board, aiRole, ev), clock + 1;
    }
    clockOut := clock + 1;

    var gameStatus := CheckGameOver(board);
    if gameStatus.gameOver {
      if gameStatus.winner == Some(aiRole) {
        return 100000 + depth, clockOut;
      }
      return -100000 - depth, clockOut;
    }

    if depth <= 0 {
      return Evaluate(board, aiRole, ev), clockOut;
    }

    if isMaximizing {
      score, clockOut := MaximizingNode(board, depth, alpha, beta, aiRole, ev, expired, clockOut);
    } else {
      score, clockOut := MinimizingNode(board, depth, alpha, beta, aiRole, ev, expired, clockOut);
    }
  }

  /** The recursive call for the `i`-th move of a node: fail-soft against
      that move's entry of `ChildValues`. */
  method SearchChild(board: Board, moves: seq<Move>, i: nat, depth: int, alpha: ExtInt, beta: ExtInt,
                     nextIsMaximizing: bool, aiRole: Role, ev: Evaluators, expired: nat -> bool, clock: nat)
    returns (score: int, clockOut: nat)
    requires i < |moves|
    requires forall j :: 0 <= j < |moves| ==> OnBoard(moves[j])
    ensures clock < clockOut
    ensures Lt(alpha, beta) && NoTimeout(expired, clock, clockOut) ==>
      FailSoft(score, ChildValues(board, moves, depth, nextIsMaximizing, aiRole, ev)[i], alpha, beta)
    decreases if depth > 0 then depth else 1, 0
  {
    score, clockOut := Minimax(ApplyMove(board, moves[i]), depth - 1, alpha, beta, nextIsMaximizing,
                               aiRole, ev, expired, clock);
    assert ChildValues(board, moves, depth, nextIsMaximizing, aiRole, ev)[i]
        == ValueAfter(board, moves[i], depth - 1, nextIsMaximizing, aiRole, ev);
  }

  /** The maximizing branch of minimax: the searching side's moves, each
      searched with the raised alpha, stopping once beta <= alpha; no
      moves score -100000. */
  method MaximizingNode(board: Board, depth: int, alpha: ExtInt, beta: ExtInt,
                        aiRole: Role, ev: Evaluators, expired: nat -> bool, clock: nat)
    returns (score: int, clockOut: nat)
    requires depth > 0 && !CheckGameOver(board).gameOver
    ensures clock <= clockOut
    ensures Lt(alpha, beta) && NoTimeout(expired, clock, clockOut) ==>
      FailSoft(score, Value(board, depth, true, aiRole, ev), alpha, beta)
    decreases depth, 2
  {
    var moves := GenerateMoves(board, aiRole);
    if |moves| == 0 {
      return -100000, clock;
    }
    MovesForOnBoard(board, aiRole);
    score, clockOut := MaxLoop(board, moves, depth, alpha, beta, aiRole, ev, expired, clock);
    ValueOfNode(board, depth, true, aiRole, ev, moves);
  }

  /** The loop of the maximizing branch over a non-empty list of moves:
      fail-soft against the greatest child value. */
  method MaxLoop(board: Board, moves: seq<Move>, depth: int, alpha: ExtInt, beta: ExtInt,
                 aiRole: Role, ev: Evaluators, expired: nat -> bool, clock: nat)
    returns (score: int, clockOut: nat)
    requires depth > 0 && |moves| > 0
    requires forall j :: 0 <= j < |moves| ==> OnBoard(moves[j])
    ensures clock <= clockOut
    ensures Lt(alpha, beta) && NoTimeout(expired, clock, clockOut) ==>
      var values := ChildValues(board, moves, depth, false, aiRole, ev);
      FailSoft(score, MaxOf(values, |values|), alpha, beta)
    decreases depth, 1
  {
    clockOut := clock;
    var maxEval: ExtInt := NegInf;
    ghost var values := ChildValues(board, moves, depth, false, aiRole, ev);
    var a := alpha;
    var i := 0;
    while i < |moves|
      invariant 0 <= i <= |moves| && clock <= clockOut
      invariant a == MaxE(alpha, maxEval) && (i == 0 <==> maxEval == NegInf) && maxEval != PosInf
      invariant i > 0 && Lt(alpha, beta) && NoTimeout(expired, clock, clockOut) ==>
        FailSoft(maxEval.n, MaxOf(values, i), alpha, beta) && Lt(a, beta)
      decreases |moves| - i
    {
      ghost var before := clockOut;
      var s, c := SearchChild(board, moves, i, depth, a, beta, false, aiRole, ev, expired, clockOut);
      clockOut := c;
      if Lt(alpha, beta) && NoTimeout(expired, clock, clockOut) {
        NoTimeoutSplit(expired, clock, before, clockOut);
        MaxLoopStep(alpha, beta, values, i, maxEval, s);
      }
      MaxShift(alpha, maxEval, s);
      maxEval := MaxE(maxEval, Fin(s));
      a := MaxE(a, Fin(s));
      i := i + 1;
      if Le(beta, a) {
        break;
      }
    }
    score := maxEval.n;
  }

  /** The minimizing branch: the opponent's moves, each searched with the
      lowered beta, stopping once beta <= alpha; no moves score 100000. */
  method MinimizingNode(board: Board, depth: int, alpha: ExtInt, beta: ExtInt,
                        aiRole: Role, ev: Evaluators, expired: nat -> bool, clock: nat)
    returns (score: int, clockOut: nat)
    requires depth > 0 && !CheckGameOver(board).gameOver
    ensures clock <= clockOut
    ensures Lt(alpha, beta) && NoTimeout(expired, clock, clockOut) ==>
      FailSoft(score, Value(board, depth, false, aiRole, ev), alpha, beta)
    decreases depth, 2
  {
    var opponentRole := Opponent(aiRole);
    var moves := GenerateMoves(board, opponentRole);
    if |moves| == 0 {
      return 100000, clock;
    }
    MovesForOnBoard(board, opponentRole);
    score, clockOut := MinLoop(board, moves, depth, alpha, beta, aiRole, ev, expired, clock);
    ValueOfNode(board, depth, false, aiRole, ev, moves);
  }

  /** The loop of the minimizing branch: fail-soft against the least
      child value. */
  method MinLoop(board: Board, moves: seq<Move>, depth: int, alpha: ExtInt, beta: ExtInt,
                 aiRole: Role, ev: Evaluators, expired: nat -> bool, clock: nat)
    returns (score: int, clockOut: nat)
    requires depth > 0 && |moves| > 0
    requires forall j :: 0 <= j < |moves| ==> OnBoard(moves[j])
    ensures clock <= clockOut
    ensures Lt(alpha, beta) && NoTimeout(expired, clock, clockOut) ==>
      var values := ChildValues(board, moves, depth, true, aiRole, ev);
      FailSoft(score, MinOf(values, |values|), alpha, beta)
    decreases depth, 1
  {
    clockOut := clock;
    var minEval: ExtInt := PosInf;
    ghost var values := ChildValues(board, moves, depth, true, aiRole, ev);
    var b := beta;
    var i := 0;
    while i < |moves|
      invariant 0 <= i <= |moves| && clock <= clockOut
      invariant b == MinE(beta, minEval) && (i == 0 <==> minEval == PosInf) && minEval != NegInf
      invariant i > 0 && Lt(alpha, beta) && NoTimeout(expired, clock, clockOut) ==>
        FailSoft(minEval.n, MinOf(values, i), alpha, beta) && Lt(alpha, b)
      decreases |moves| - i
    {
      ghost var before := clockOut;
      var s, c := SearchChild(board, moves, i, depth, alpha, b, true, aiRole, ev, expired, clockOut);
      clockOut := c;
      if Lt(alpha, beta) && NoTimeout(expired, clock, clockOut) {
        NoTimeoutSplit(expired, clock, before, clockOut);
        MinLoopStep(alpha, beta, values, i, minEval, s);
      }
      MinShift(beta, minEval, s);
      minEval := MinE(minEval, Fin(s));
      b := MinE(b, Fin(s));
      i := i + 1;
      if Le(b, alpha) {
        break;
      }
    }
    score := minEval.n;
  }

  /** isDangerousForWolf: after the move, some hunter can capture the
      piece on the destination. */
  predicate Dangerous(board: Board, move: Move)
  {
    && OnBoard(move)
    && var nextBoard := ApplyMove(board, move);
       exists h :: 0 <= h < 25 && nextBoard[h] == HUNTER && CanSnipe(nextBoard, h, move.to)
  }

  /** A move is dangerous exactly when the moved piece can be captured
      afterwards by a jump from one of the four capture offsets. */
  lemma DangerousIff(board: Board, move: Move)
    requires OnBoard(move)
    ensures Dangerous(board, move)
        <==> exists k :: 0 <= k < |Directions| && CanSnipe(ApplyMove(board, move), move.to - Directions[k], move.to)
  {
    var next := ApplyMove(board, move);
    if Dangerous(board, move) {
      var h :| 0 <= h < 25 && next[h] == HUNTER && CanSnipe(next, h, move.to);
      var k :| 0 <= k < |Directions| && Directions[k] == move.to - h;
      assert move.to - Directions[k] == h;
    }
    if exists k :: 0 <= k < |Directions| && CanSnipe(next, move.to - Directions[k], move.to) {
      var k :| 0 <= k < |Directions| && CanSnipe(next, move.to - Directions[k], move.to);
      CanSnipeShape(next, move.to - Directions[k], move.to);
    }
  }

  /** isDangerousForWolf as the source runs it: collect the hunters of the
      new board, then test each for a capture of the destination. */
  method IsDangerousForWolf(board: Board, move: Move) returns (dangerous: bool)
    requires OnBoard(move)
    ensures dangerous == Dangerous(board, move)
  {
    var nextBoard := ApplyMove(board, move);
    var hunters: seq<int> := [];
    for i := 0 to 25
      invariant forall h :: h in hunters <==> 0 <= h < i && nextBoard[h] == HUNTER
    {
      if nextBoard[i] == HUNTER {
        hunters := hunters + [i];
      }
    }
    for k := 0 to |hunters|
      invariant forall j :: 0 <= j < k ==> !CanSnipe(nextBoard, hunters[j], move.to)
    {
      if CanSnipe(nextBoard, hunters[k], move.to) {
        assert hunters[k] in hunters;
        return true;
      }
    }
    dangerous := false;
    forall h | 0 <= h < 25 && nextBoard[h] == HUNTER ensures !CanSnipe(nextBoard, h, move.to) {
      assert h in hunters;
    }
  }

  /** The moves that are not dangerous, in their order. */
  function SafeMoves(board: Board, moves: seq<Move>): seq<Move>
  {
    if moves == [] then []
    else
      var last := moves[|moves| - 1];
      SafeMoves(board, moves[..|moves| - 1]) + (if Dangerous(board, last) then [] else [last])
  }

  lemma {:induction false} SafeMovesMembers(board: Board, moves: seq<Move>)
    ensures forall m :: m in SafeMoves(board, moves) <==> m in moves && !Dangerous(board, m)
  {
    if moves != [] {
      var n := |moves| - 1;
      SafeMovesMembers(board, moves[..n]);
      assert moves == moves[..n] + [moves[n]];
    }
  }

  /** `allMoves.filter(m => !isDangerousForWolf(board, m))`. */
  method FilterSafeMoves(board: Board, allMoves: seq<Move>) returns (filtered: seq<Move>)
    requires forall i :: 0 <= i < |allMoves| ==> OnBoard(allMoves[i])
    ensures filtered == SafeMoves(board, allMoves)
  {
    filtered := [];
    for i := 0 to |allMoves|
      invariant filtered == SafeMoves(board, allMoves[..i])
    {
      var dangerous := IsDangerousForWolf(board, allMoves[i]);
      assert allMoves[..i + 1][..i] == allMoves[..i];
      if !dangerous {
        filtered := filtered + [allMoves[i]];
      }
    }
    assert allMoves[..|allMoves|] == allMoves;
  }

  lemma OnBoardMembers(moves: seq<Move>)
    requires forall i :: 0 <= i < |moves| ==> OnBoard(moves[i])
    ensures forall m :: m in moves ==> OnBoard(m)
  {
  }

  /** The root candidates: for the wolves the safe moves, or every move
      when none is safe; for the hunters every move. There is a candidate
      whenever there is a move, and every candidate is on the board. */
  function Candidates(board: Board, aiRole: Role): (cands: seq<Move>)
    ensures |cands| == 0 <==> |MovesFor(board, aiRole)| == 0
    ensures forall i :: 0 <= i < |cands| ==> OnBoard(cands[i])
  {
    var allMoves := MovesFor(board, aiRole);
    MovesForOnBoard(board, aiRole);
    SafeMovesMembers(board, allMoves);
    OnBoardMembers(allMoves);
    var filtered := if aiRole == Role.Wolf then SafeMoves(board, allMoves) else allMoves;
    if |filtered| == 0 then allMoves else filtered
  }

  /** The candidates are generated moves, and a wolf candidate is
      dangerous only when every wolf move is. */
  lemma CandidatesShape(board: Board, aiRole: Role)
    ensures forall m :: m in Candidates(board, aiRole) ==> m in MovesFor(board, aiRole)
    ensures aiRole == Role.Wolf && (exists m :: m in MovesFor(board, aiRole) && !Dangerous(board, m)) ==>
      forall m :: m in Candidates(board, aiRole) ==> !Dangerous(board, m)
  {
    var allMoves := MovesFor(board, aiRole);
    SafeMovesMembers(board, allMoves);
    if aiRole == Role.Wolf && exists m :: m in allMoves && !Dangerous(board, m) {
      var m :| m in allMoves && !Dangerous(board, m);
      assert m in SafeMoves(board, allMoves);
    }
  }

  /** The index of the first greatest value among the first `k`: it is
      at least every value there, and every earlier value is strictly
      smaller, so ties keep the earliest. */
  function FirstMax(values: seq<int>, k: nat): (b: nat)
    requires 1 <= k <= |values|
    ensures b < k
    ensures forall j :: 0 <= j < k ==> values[j] <= values[b]
    ensures forall j :: 0 <= j < b ==> values[j] < values[b]
  {
    if k == 1 then 0
    else
      var b := FirstMax(values, k - 1);
      if values[k - 1] > values[b] then k - 1 else b
  }

  /** One iteration of the root loop, on values alone: a candidate searched
      with window (best so far, +infinity) replaces the best exactly when
      its exact value is strictly greater, and then the score is that value. */
  lemma RootStep(values: seq<int>, i: nat, bestScore: ExtInt, score: int)
    requires i < |values|
    requires i == 0 ==> bestScore == NegInf
    requires i > 0 ==> bestScore == Fin(values[FirstMax(values, i)])
    requires FailSoft(score, values[i], bestScore, PosInf)
    ensures Lt(bestScore, Fin(score)) ==> FirstMax(values, i + 1) == i && score == values[i]
    ensures !Lt(bestScore, Fin(score)) ==> i > 0 && FirstMax(values, i + 1) == FirstMax(values, i)
  {
  }

  /** The root loop's state after `i` candidates: the best move is the
      first candidate of greatest exact value among them, with that value. */
  ghost predicate BestSoFar(values: seq<int>, cands: seq<Move>, i: nat, bestMove: Move, bestScore: ExtInt)
  {
    i == 0 ||
    (i <= |values| && i <= |cands| &&
     var b := FirstMax(values, i);
     bestMove == cands[b] && bestScore == Fin(values[b]))
  }

  /** One pass of the root loop after a time test at `clock` that found
      time left: search the `i`-th candidate with the opponent to move and
      the window (currentAlpha, +infinity), and keep it when it scores
      strictly more than the best so far. Without a timeout the best stays
      the first candidate of greatest exact value among the first `i + 1`. */
  method SearchCandidate(board: Board, cands: seq<Move>, i: nat, maxDepth: int, aiRole: Role, ev: Evaluators,
                         bestMove: Move, bestScore: ExtInt, expired: nat -> bool, clock: nat, ghost values: seq<int>)
    returns (newMove: Move, newScore: ExtInt, clockOut: nat)
    requires i < |cands|
    requires forall j :: 0 <= j < |cands| ==> OnBoard(cands[j])
    requires i == 0 <==> bestScore == NegInf
    requires !expired(clock)
    requires values == ChildValues(board, cands, maxDepth, false, aiRole, ev)
    ensures clock < clockOut
    ensures newScore != NegInf
    ensures newMove == bestMove || newMove == cands[i]
    ensures NoTimeout(expired, clock, clockOut) ==>
      BestSoFar(values, cands, i, bestMove, bestScore) ==> BestSoFar(values, cands, i + 1, newMove, newScore)
  {
    var currentAlpha := bestScore;
    var currentBeta := PosInf;
    var score;
    score, clockOut := SearchChild(board, cands, i, maxDepth, currentAlpha, currentBeta, false, aiRole, ev, expired, clock + 1);
    if NoTimeout(expired, clock, clockOut) && BestSoFar(values, cands, i, bestMove, bestScore) {
      RootStep(values, i, bestScore, score);
    }
    newMove, newScore := bestMove, bestScore;
    if Lt(bestScore, Fin(score)) {
      newScore := Fin(score);
      newMove := cands[i];
    }
  }

  /** The root loop: search each candidate in order, keep the first
      strictly best, and stop at the first time test that reports a
      timeout. `values` are the candidates' exact values, named once by
      the caller so that the loop's proof does not unfold them. */
  method SearchRoot(board: Board, cands: seq<Move>, maxDepth: int, aiRole: Role, ev: Evaluators,
                    expired: nat -> bool, clock: nat, ghost values: seq<int>)
    returns (bestMove: Move, bestScore: ExtInt, clockOut: nat)
    requires |cands| > 0
    requires forall i :: 0 <= i < |cands| ==> OnBoard(cands[i])
    requires values == ChildValues(board, cands, maxDepth, false, aiRole, ev)
    ensures bestMove in cands
    ensures clock <= clockOut
    ensures NoTimeout(expired, clock, clockOut) ==>
      BestSoFar(values, cands, |cands|, bestMove, bestScore)
    ensures expired(clock) ==> bestMove == cands[0] && bestScore == NegInf
  {
    bestMove := cands[0];
    bestScore := NegInf;
    clockOut := clock;
    var i := 0;
    while i < |cands|
      invariant 0 <= i <= |cands| && clock <= clockOut
      invariant bestMove in cands
      invariant i == 0 <==> bestScore == NegInf
      invariant NoTimeout(expired, clock, clockOut) ==> BestSoFar(values, cands, i, bestMove, bestScore)
      invariant expired(clock) ==> i == 0 && clockOut == clock && bestMove == cands[0]
      decreases |cands| - i
    {
      if expired(clockOut) {
        NoTimeoutMeaning(expired, clock, clockOut + 1, clockOut);
        clockOut := clockOut + 1;
        break;
      }
      ghost var previousClock := clockOut;
      bestMove, bestScore, clockOut := SearchCandidate(board, cands, i, maxDepth, aiRole, ev,
                                                       bestMove, bestScore, expired, clockOut, values);
      NoTimeoutSplit(expired, clock, previousClock, clockOut);
      i := i + 1;
    }
  }

  /** onmessage without the messaging: no move (null) when the side has
      none; otherwise a candidate, which without a timeout is the first
      candidate of greatest exact value, reported with that value. */
  method ChooseMove(board: Board, maxDepth: int, aiRole: Role, ev: Evaluators,
                    expired: nat -> bool, clock: nat)
    returns (result: Option<Move>, bestScore: ExtInt, clockOut: nat)
    ensures result.None? <==> |MovesFor(board, aiRole)| == 0
    ensures result.Some? ==> result.value in Candidates(board, aiRole) && result.value in MovesFor(board, aiRole)
    ensures result.Some? && NoTimeout(expired, clock, clockOut) ==>
      var cands := Candidates(board, aiRole);
      var values := ChildValues(board, cands, maxDepth, false, aiRole, ev);
      var b := FirstMax(values, |cands|);
      result.value == cands[b] && bestScore == Fin(values[b])
    ensures result.Some? && expired(clock) ==>
      result.value == Candidates(board, aiRole)[0] && bestScore == NegInf
  {
    clockOut := clock;
    var allMoves := GenerateMoves(board, aiRole);
    if |allMoves| == 0 {
      return None, NegInf, clockOut;
    }
    MovesForOnBoard(board, aiRole);
    var filteredMoves := allMoves;
    if aiRole == Role.Wolf {
      filteredMoves := FilterSafeMoves(board, allMoves);
    }
    if |filteredMoves| == 0 {
      filteredMoves := allMoves;
    }
    assert filteredMoves == Candidates(board, aiRole);
    CandidatesShape(board, aiRole);
    var bestMove;
    ghost var values := ChildValues(board, filteredMoves, maxDepth, false, aiRole, ev);
    bestMove, bestScore, clockOut := SearchRoot(board, filteredMoves, maxDepth, aiRole, ev, expired, clock, values);
    result := Some(bestMove);
  }
}
