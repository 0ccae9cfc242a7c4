/** src/lib/aiMoves.ts: the move lists the search explores, and a move
    ordering (captures first, then destinations nearer the centre). */
module AiMoves {
  import opened Types
  import opened Grid
  import opened Moves
  import opened Snipe

  /** A move. The source leaves `isSnipe` unset on wolf moves; unset reads
      as false everywhere it is tested, so it is `false` here. */
  datatype Move = Move(from: int, to: int, isSnipe: bool)

  predicate OnBoard(m: Move)
  {
    IsValidPosition(m.from) && IsValidPosition(m.to)
  }

  /** One move from `from` to each of `targets`, in order. */
  function MovesTo(from: int, targets: seq<int>, isSnipe: bool): (moves: seq<Move>)
    ensures |moves| == |targets|
    ensures forall k :: 0 <= k < |targets| ==> moves[k] == Move(from, targets[k], isSnipe)
  {
    if targets == [] then []
    else [Move(from, targets[0], isSnipe)] + MovesTo(from, targets[1..], isSnipe)
  }

  lemma MovesToAppend(from: int, targets: seq<int>, k: nat, isSnipe: bool)
    requires k < |targets|
    ensures MovesTo(from, targets[..k + 1], isSnipe)
         == MovesTo(from, targets[..k], isSnipe) + [Move(from, targets[k], isSnipe)]
  {
  }

  lemma MovesToMember(from: int, targets: seq<int>, isSnipe: bool, m: Move)
    ensures m in MovesTo(from, targets, isSnipe)
        <==> m.from == from && m.isSnipe == isSnipe && m.to in targets
  {
    var moves := MovesTo(from, targets, isSnipe);
    if m.from == from && m.isSnipe == isSnipe && m.to in targets {
      var k :| 0 <= k < |targets| && targets[k] == m.to;
      assert moves[k] == m;
    }
  }

  lemma DistinctMovesTo(from: int, targets: seq<int>, isSnipe: bool)
    requires Distinct(targets)
    ensures Distinct(MovesTo(from, targets, isSnipe))
  {
  }

  /** Joining two duplicate-free lists with no common element. */
  lemma DistinctConcat<T>(a: seq<T>, b: seq<T>)
    requires Distinct(a) && Distinct(b)
    requires forall x :: x in a ==> x !in b
    ensures Distinct(a + b)
  {
    forall i, j | 0 <= i < j < |a + b| ensures (a + b)[i] != (a + b)[j] {
      if i < |a| && j >= |a| {
        assert (a + b)[i] in a;
        assert (a + b)[j] in b;
      }
    }
  }

  /** Joining two origin-ordered lists whose origins do not interleave. */
  lemma OriginOrderedConcat(a: seq<Move>, b: seq<Move>)
    requires OriginOrdered(a) && OriginOrdered(b)
    requires forall x, y :: x in a && y in b ==> x.from < y.from
    ensures OriginOrdered(a + b)
  {
    forall i, j | 0 <= i < j < |a + b| && i < |a| && j >= |a|
      ensures (a + b)[i].from < (a + b)[j].from
    {
      assert (a + b)[i] in a;
      assert (a + b)[j] in b;
    }
  }

  /** Wolf steps of the wolves on cells `0 .. n-1`, cell by cell. */
  function WolfMovesUpTo(board: Board, n: nat): seq<Move>
    requires n <= 25
  {
    if n == 0 then []
    else
      WolfMovesUpTo(board, n - 1)
      + (if board[n - 1] == WOLF then MovesTo(n - 1, ValidMoves(board, n - 1), false) else [])
  }

  /** generateWolfMoves, as a value: every step of every wolf, from cell 0
      upward, each wolf's steps in the order of `ValidMoves`. */
  function WolfMoves(board: Board): seq<Move>
  {
    WolfMovesUpTo(board, 25)
  }

  /** A move list ordered by origin, in which one origin's steps come
      before its captures. */
  predicate OriginOrdered(moves: seq<Move>)
  {
    forall i, j :: 0 <= i < j < |moves| ==>
      moves[i].from < moves[j].from
      || (moves[i].from == moves[j].from && (!moves[i].isSnipe || moves[j].isSnipe))
  }

  lemma {:induction false} WolfMovesUpToShape(board: Board, n: nat)
    requires n <= 25
    ensures forall m :: m in WolfMovesUpTo(board, n) ==>
      0 <= m.from < n && !m.isSnipe && board[m.from] == WOLF && m.to in ValidMoves(board, m.from)
    ensures Distinct(WolfMovesUpTo(board, n))
    ensures OriginOrdered(WolfMovesUpTo(board, n))
  {
    if n > 0 {
      WolfMovesUpToShape(board, n - 1);
      var w := n - 1;
      var before := WolfMovesUpTo(board, w);
      if board[w] == WOLF {
        var targets := ValidMoves(board, w);
        var tail := MovesTo(w, targets, false);
        assert WolfMovesUpTo(board, n) == before + tail;
        forall m | m in tail ensures m.from == w && !m.isSnipe && m.to in targets {
          MovesToMember(w, targets, false, m);
        }
        ValidMovesExact(board, w, 0);
        DistinctMovesTo(w, targets, false);
        DistinctConcat(before, tail);
        OriginOrderedConcat(before, tail);
      } else {
        assert WolfMovesUpTo(board, n) == before + [];
      }
    }
  }

  /** Each step of a wolf left of cell `n` is listed. */
  lemma {:induction false} WolfListed(board: Board, n: nat, w: int, t: int)
    requires 0 <= w < n <= 25 && board[w] == WOLF && t in ValidMoves(board, w)
    ensures Move(w, t, false) in WolfMovesUpTo(board, n)
  {
    var before := WolfMovesUpTo(board, n - 1);
    if w == n - 1 {
      var tail := MovesTo(w, ValidMoves(board, w), false);
      assert WolfMovesUpTo(board, n) == before + tail;
      MovesToMember(w, ValidMoves(board, w), false, Move(w, t, false));
    } else {
      WolfListed(board, n - 1, w, t);
      var tail := if board[n - 1] == WOLF then MovesTo(n - 1, ValidMoves(board, n - 1), false) else [];
      assert WolfMovesUpTo(board, n) == before + tail;
    }
  }

  /** Every (wolf, empty neighbour) pair is listed exactly once, and the
      list runs by ascending origin. */
  lemma WolfMovesExact(board: Board, m: Move)
    ensures m in WolfMoves(board)
        <==> !m.isSnipe && IsValidPosition(m.from) && board[m.from] == WOLF && CanMove(board, m.from, m.to)
    ensures Distinct(WolfMoves(board))
    ensures forall i, j :: 0 <= i < j < |WolfMoves(board)| ==> WolfMoves(board)[i].from <= WolfMoves(board)[j].from
  {
    WolfMovesUpToShape(board, 25);
    if IsValidPosition(m.from) {
      ValidMovesExact(board, m.from, m.to);
      if !m.isSnipe && board[m.from] == WOLF && CanMove(board, m.from, m.to) {
        WolfListed(board, 25, m.from, m.to);
      }
    }
  }

  /** The inner `for ... of` loop of both generators: push one move from
      `from` to each target, in order. */
  method PushMoves(moves: seq<Move>, from: int, targets: seq<int>, isSnipe: bool)
    returns (pushed: seq<Move>)
    ensures pushed == moves + MovesTo(from, targets, isSnipe)
  {
    pushed := moves;
    for k := 0 to |targets|
      invariant pushed == moves + MovesTo(from, targets[..k], isSnipe)
    {
      MovesToAppend(from, targets, k, isSnipe);
      pushed := pushed + [Move(from, targets[k], isSnipe)];
    }
    assert targets[..|targets|] == targets;
  }

  /** generateWolfMoves as the source runs it: nested loops appending. */
  method GenerateWolfMoves(board: Board) returns (moves: seq<Move>)
    ensures moves == WolfMoves(board)
  {
    moves := [];
    for i := 0 to 25
      invariant moves == WolfMovesUpTo(board, i)
    {
      if board[i] == WOLF {
        var validMoves := ValidMoves(board, i);
        moves := PushMoves(moves, i, validMoves, false);
      }
    }
  }

  /** Hunter steps then captures of the hunters on cells `0 .. n-1`. */
  function HunterMovesUpTo(board: Board, n: nat): seq<Move>
    requires n <= 25
  {
    if n == 0 then []
    else
      var h := n - 1;
      HunterMovesUpTo(board, h)
      + (if board[h] == HUNTER then HunterMovesFrom(board, h) else [])
  }

  /** generateHunterMoves, as a value. */
  function HunterMoves(board: Board): seq<Move>
  {
    HunterMovesUpTo(board, 25)
  }

  /** One hunter's steps followed by its captures. */
  function HunterMovesFrom(board: Board, h: int): seq<Move>
  {
    MovesTo(h, ValidMoves(board, h), false) + MovesTo(h, PossibleSnipes(board, h), true)
  }

  lemma HunterMovesFromShape(board: Board, h: int)
    requires IsValidPosition(h)
    ensures forall m :: m in HunterMovesFrom(board, h) ==>
      (m.from == h && if m.isSnipe then m.to in PossibleSnipes(board, h) else m.to in ValidMoves(board, h))
    ensures forall t :: t in ValidMoves(board, h) ==> Move(h, t, false) in HunterMovesFrom(board, h)
    ensures forall t :: t in PossibleSnipes(board, h) ==> Move(h, t, true) in HunterMovesFrom(board, h)
    ensures Distinct(HunterMovesFrom(board, h))
    ensures OriginOrdered(HunterMovesFrom(board, h))
  {
    var stepTargets := ValidMoves(board, h);
    var snipeTargets := PossibleSnipes(board, h);
    var steps: seq<Move> := MovesTo(h, stepTargets, false);
    var snipes: seq<Move> := MovesTo(h, snipeTargets, true);
    assert HunterMovesFrom(board, h) == steps + snipes;
    forall m | m in steps ensures m.from == h && !m.isSnipe && m.to in stepTargets {
      MovesToMember(h, stepTargets, false, m);
    }
    forall m | m in snipes ensures m.from == h && m.isSnipe && m.to in snipeTargets {
      MovesToMember(h, snipeTargets, true, m);
    }
    forall t | t in stepTargets ensures Move(h, t, false) in steps {
      MovesToMember(h, stepTargets, false, Move(h, t, false));
    }
    forall t | t in snipeTargets ensures Move(h, t, true) in snipes {
      MovesToMember(h, snipeTargets, true, Move(h, t, true));
    }
    ValidMovesExact(board, h, 0);
    PossibleSnipesExact(board, h, 0);
    DistinctMovesTo(h, stepTargets, false);
    DistinctMovesTo(h, snipeTargets, true);
    DistinctConcat(steps, snipes);
    forall i, j | 0 <= i < j < |steps + snipes|
      ensures (steps + snipes)[i].from == h
      ensures !(steps + snipes)[i].isSnipe || (steps + snipes)[j].isSnipe
    {
      assert (steps + snipes)[i] in steps || (steps + snipes)[i] in snipes;
      if j < |steps| {
        assert (steps + snipes)[j] in steps;
      } else {
        assert (steps + snipes)[j] in snipes;
      }
    }
  }

  /** Each listed hunter move is a step or a capture of a hunter left of
      cell `n`. */
  lemma {:induction false} HunterMovesUpToSound(board: Board, n: nat)
    requires n <= 25
    ensures forall m :: m in HunterMovesUpTo(board, n) ==>
      && 0 <= m.from < n && board[m.from] == HUNTER
      && (if m.isSnipe then m.to in PossibleSnipes(board, m.from) else m.to in ValidMoves(board, m.from))
  {
    if n > 0 {
      HunterMovesUpToSound(board, n - 1);
      var h := n - 1;
      if board[h] == HUNTER {
        assert HunterMovesUpTo(board, n) == HunterMovesUpTo(board, h) + HunterMovesFrom(board, h);
        HunterMovesFromShape(board, h);
      } else {
        assert HunterMovesUpTo(board, n) == HunterMovesUpTo(board, h) + [];
      }
    }
  }

  /** A step target or a capture target of `h` gives a move of `h`. */
  lemma ListedFrom(board: Board, h: int, t: int, isSnipe: bool)
    requires isSnipe ==> t in PossibleSnipes(board, h)
    requires !isSnipe ==> t in ValidMoves(board, h)
    ensures Move(h, t, isSnipe) in HunterMovesFrom(board, h)
  {
    var steps := MovesTo(h, ValidMoves(board, h), false);
    var snipes := MovesTo(h, PossibleSnipes(board, h), true);
    if isSnipe {
      MovesToMember(h, PossibleSnipes(board, h), true, Move(h, t, true));
      assert Move(h, t, true) in snipes;
    } else {
      MovesToMember(h, ValidMoves(board, h), false, Move(h, t, false));
      assert Move(h, t, false) in steps;
    }
  }

  /** Each move of a hunter left of cell `n` is listed. */
  lemma {:induction false} HunterListed(board: Board, n: nat, g: int, m: Move)
    requires 0 <= g < n <= 25 && board[g] == HUNTER && m in HunterMovesFrom(board, g)
    ensures m in HunterMovesUpTo(board, n)
  {
    var before := HunterMovesUpTo(board, n - 1);
    if g < n - 1 {
      HunterListed(board, n - 1, g, m);
      var tail := if board[n - 1] == HUNTER then HunterMovesFrom(board, n - 1) else [];
      assert HunterMovesUpTo(board, n) == before + tail;
    } else {
      assert HunterMovesUpTo(board, n) == before + HunterMovesFrom(board, g);
    }
  }

  /** No move is listed twice, and the list is origin-ordered. */
  lemma {:induction false} HunterMovesUpToOrdered(board: Board, n: nat)
    requires n <= 25
    ensures Distinct(HunterMovesUpTo(board, n))
    ensures OriginOrdered(HunterMovesUpTo(board, n))
  {
    if n > 0 {
      HunterMovesUpToOrdered(board, n - 1);
      var h := n - 1;
      var before := HunterMovesUpTo(board, h);
      if board[h] == HUNTER {
        var tail := HunterMovesFrom(board, h);
        assert HunterMovesUpTo(board, n) == before + tail;
        HunterMovesUpToSound(board, h);
        HunterMovesFromShape(board, h);
        assert forall x :: x in before ==> x.from < h;
        assert forall y :: y in tail ==> y.from == h;
        DistinctConcat(before, tail);
        OriginOrderedConcat(before, tail);
      } else {
        assert HunterMovesUpTo(board, n) == before + [];
      }
    }
  }

  /** A listed capture satisfies `CanSnipe`; a listed step goes from a
      hunter to an empty adjacent cell. Every such move is listed, once;
      hunters come in ascending order, each with its steps before its
      captures. */
  lemma HunterMovesExact(board: Board, m: Move)
    ensures m in HunterMoves(board)
        <==> IsValidPosition(m.from) && board[m.from] == HUNTER
             && (if m.isSnipe then CanSnipe(board, m.from, m.to) else CanMove(board, m.from, m.to))
    ensures Distinct(HunterMoves(board))
    ensures OriginOrdered(HunterMoves(board))
  {
    HunterMovesUpToSound(board, 25);
    HunterMovesUpToOrdered(board, 25);
    if IsValidPosition(m.from) {
      ValidMovesExact(board, m.from, m.to);
      PossibleSnipesExact(board, m.from, m.to);
      if board[m.from] == HUNTER && (if m.isSnipe then CanSnipe(board, m.from, m.to) else CanMove(board, m.from, m.to)) {
        ListedFrom(board, m.from, m.to, m.isSnipe);
        HunterListed(board, 25, m.from, m);
      }
    }
  }

  /** generateHunterMoves as the source runs it. */
  method GenerateHunterMoves(board: Board) returns (moves: seq<Move>)
    ensures moves == HunterMoves(board)
  {
    moves := [];
    for i := 0 to 25
      invariant moves == HunterMovesUpTo(board, i)
    {
      if board[i] == HUNTER {
        ghost var before := moves;
        moves := PushHunterMoves(board, i, moves);
        assert HunterMovesUpTo(board, i + 1) == before + HunterMovesFrom(board, i);
      } else {
        assert HunterMovesUpTo(board, i + 1) == moves + [];
      }
    }
  }

  /** The body of the outer loop for one hunter: its steps, then its
      captures, appended to `moves`. */
  method PushHunterMoves(board: Board, i: int, moves: seq<Move>) returns (pushed: seq<Move>)
    ensures pushed == moves + HunterMovesFrom(board, i)
  {
    var validMoves := ValidMoves(board, i);
    pushed := PushMoves(moves, i, validMoves, false);
    var snipes := GetPossibleSnipes(board, i);
    pushed := PushMoves(pushed, i, snipes, true);
    ghost var steps := MovesTo(i, validMoves, false);
    ghost var captures := MovesTo(i, snipes, true);
    assert (moves + steps) + captures == moves + (steps + captures);
  }

  /** distanceToCenter: Manhattan distance to cell 12. */
  function DistanceToCenter(pos: int): (d: nat)
    ensures IsValidPosition(pos) ==> d <= 4
    ensures IsValidPosition(pos) ==> (d == 0 <==> pos == 12)
  {
    RowColDecompose(if IsValidPosition(pos) then pos else 0);
    Abs(Row(pos) - 2) + Abs(Col(pos) - 2)
  }

  /** The sort comparator of orderMoves is negative: captures before
      steps, then the destination nearer the centre first. */
  predicate Before(a: Move, b: Move)
  {
    (a.isSnipe && !b.isSnipe)
    || (a.isSnipe == b.isSnipe && DistanceToCenter(a.to) < DistanceToCenter(b.to))
  }

  predicate Sorted(moves: seq<Move>)
  {
    forall i, j :: 0 <= i < j < |moves| ==> !Before(moves[j], moves[i])
  }

  /** Insert `m` before the first element that does not come strictly
      before it, which keeps equal elements in their original order. */
  function Insert(m: Move, sorted: seq<Move>): (r: seq<Move>)
    ensures multiset(r) == multiset(sorted) + multiset{m}
  {
    if sorted == [] || !Before(sorted[0], m) then [m] + sorted
    else
      assert sorted == [sorted[0]] + sorted[1..];
      [sorted[0]] + Insert(m, sorted[1..])
  }

  /** The comparator orders by (capture first, distance): a total preorder. */
  lemma BeforeOrder(a: Move, b: Move, c: Move)
    ensures !Before(a, a)
    ensures Before(a, b) ==> !Before(b, a)
    ensures !Before(b, a) && !Before(c, b) ==> !Before(c, a)
  {
  }

  lemma {:induction false} InsertSorted(m: Move, sorted: seq<Move>)
    requires Sorted(sorted)
    ensures Sorted(Insert(m, sorted))
  {
    if sorted != [] && Before(sorted[0], m) {
      var rest := Insert(m, sorted[1..]);
      InsertSorted(m, sorted[1..]);
      forall x | x in rest ensures !Before(x, sorted[0]) {
        assert x in multiset(rest);
        if x != m {
          assert x in sorted[1..];
        }
      }
    } else if sorted != [] {
      forall j | 0 <= j < |sorted| ensures !Before(sorted[j], m) {
        BeforeOrder(m, sorted[0], sorted[j]);
      }
    }
  }

  /** orderMoves: a stably sorted copy of the list (the argument, a value,
      is untouched). */
  function OrderMoves(moves: seq<Move>): (r: seq<Move>)
    ensures multiset(r) == multiset(moves)
    ensures Sorted(r)
  {
    if moves == [] then []
    else
      assert moves == [moves[0]] + moves[1..];
      var rest := OrderMoves(moves[1..]);
      InsertSorted(moves[0], rest);
      Insert(moves[0], rest)
  }

  /** The ordered list is a permutation of its input with every capture
      before every step, and within captures and within steps the
      distance to the centre never decreases. */
  lemma OrderMovesGroups(moves: seq<Move>)
    ensures var r := OrderMoves(moves);
      && (forall i, j :: 0 <= i < j < |r| && r[j].isSnipe ==> r[i].isSnipe)
      && (forall i, j :: 0 <= i < j < |r| && r[i].isSnipe == r[j].isSnipe
                         ==> DistanceToCenter(r[i].to) <= DistanceToCenter(r[j].to))
  {
  }
}
