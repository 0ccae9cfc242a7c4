/** src/lib/evaluation.ts: the static board score, seen from the wolves.
    Wolf count, wolf spread, hunter mobility, how far down the wolves have
    come and how many wolves stand next to a hunter are added together. */
module Evaluation {
  import opened Types
  import opened Grid
  import opened Moves
  import opened Snipe

  /** A number of the source language, restricted to what the score can
      be: a finite value (kept exact) or NaN, which the average row of an
      empty wolf list produces. */
  datatype Number = NaN | Num(value: real)

  /** manhattanDistance: row difference plus column difference. */
  function ManhattanDistance(pos1: int, pos2: int): nat
  {
    Abs(Row(pos1) - Row(pos2)) + Abs(Col(pos1) - Col(pos2))
  }

  /** The distance is a metric on the board, at most 8, and it is 1
      exactly for adjacent cells. */
  lemma ManhattanMetric(p: int, q: int, r: int)
    ensures ManhattanDistance(p, q) == ManhattanDistance(q, p)
    ensures ManhattanDistance(p, r) <= ManhattanDistance(p, q) + ManhattanDistance(q, r)
    ensures ManhattanDistance(p, q) == 1 <==> IsAdjacent(p, q)
    ensures IsValidPosition(p) && IsValidPosition(q) ==>
      ManhattanDistance(p, q) <= 8 && (ManhattanDistance(p, q) == 0 <==> p == q)
  {
    if IsValidPosition(p) && IsValidPosition(q) {
      SameCellIffSameRowAndCol(p, q);
    }
  }

  /** The cells `0 .. n-1` holding `c`, ascending (the `wolves` and
      `hunters` lists). */
  function Positions(board: Board, c: Cell, n: nat): seq<int>
    requires n <= 25
  {
    if n == 0 then []
    else Positions(board, c, n - 1) + (if board[n - 1] == c then [n - 1] else [])
  }

  /** The list holds exactly the cells below `n` holding `c`, in strictly
      ascending order, and is as long as their count. */
  lemma {:induction false} PositionsExact(board: Board, c: Cell, n: nat)
    requires n <= 25
    ensures forall p :: p in Positions(board, c, n) <==> 0 <= p < n && board[p] == c
    ensures forall i, j :: 0 <= i < j < |Positions(board, c, n)|
                           ==> Positions(board, c, n)[i] < Positions(board, c, n)[j]
    ensures |Positions(board, c, n)| == Count(board[..n], c)
  {
    if n > 0 {
      PositionsExact(board, c, n - 1);
      assert board[..n][..n - 1] == board[..n - 1];
      var prev := Positions(board, c, n - 1);
      var ps := Positions(board, c, n);
      forall i, j | 0 <= i < j < |ps| ensures ps[i] < ps[j] {
        if j == |prev| {
          assert ps[i] in prev;
        }
      }
    }
  }

  /** The pieces of one kind: as many as the count, all on the board, in
      strictly ascending order. */
  lemma PiecePositions(board: Board, c: Cell)
    ensures |Positions(board, c, 25)| == Count(board, c)
    ensures forall i :: 0 <= i < |Positions(board, c, 25)| ==> IsValidPosition(Positions(board, c, 25)[i])
    ensures forall i, j :: 0 <= i < j < |Positions(board, c, 25)|
                           ==> Positions(board, c, 25)[i] < Positions(board, c, 25)[j]
  {
    var ps := Positions(board, c, 25);
    PositionsExact(board, c, 25);
    assert board[..25] == board;
    forall i | 0 <= i < |ps| ensures IsValidPosition(ps[i]) {
      assert ps[i] in ps;
    }
  }

  /** Distances from `ps[i]` to `ps[i+1] .. ps[j-1]`: the inner loop of the
      spread term. */
  function DistancesFrom(ps: seq<int>, i: nat, j: nat): nat
    requires i < j <= |ps|
    decreases j
  {
    if j == i + 1 then 0 else DistancesFrom(ps, i, j - 1) + ManhattanDistance(ps[i], ps[j - 1])
  }

  /** Distances of all pairs whose first element is among the first `n`. */
  function PairDistances(ps: seq<int>, n: nat): nat
    requires n <= |ps|
  {
    if n == 0 then 0 else PairDistances(ps, n - 1) + DistancesFrom(ps, n - 1, |ps|)
  }

  /** Mobility of the first `n` hunters: steps plus twice the captures. */
  function HunterMobility(board: Board, hs: seq<int>, n: nat): nat
    requires n <= |hs|
  {
    if n == 0 then 0
    else HunterMobility(board, hs, n - 1)
         + |ValidMoves(board, hs[n - 1])| + 2 * |PossibleSnipes(board, hs[n - 1])|
  }

  /** Sum of the rows of the first `n` positions (the `reduce`). */
  function RowSum(ps: seq<int>, n: nat): int
    requires n <= |ps|
  {
    if n == 0 then 0 else RowSum(ps, n - 1) + Row(ps[n - 1])
  }

  /** Hunters among the first `n` of `hs` adjacent to the wolf `w`. */
  function AdjacentHunters(w: int, hs: seq<int>, n: nat): nat
    requires n <= |hs|
  {
    if n == 0 then 0 else AdjacentHunters(w, hs, n - 1) + (if IsAdjacent(w, hs[n - 1]) then 1 else 0)
  }

  /** Adjacent (wolf, hunter) pairs over the first `n` wolves. */
  function TrapPairs(ws: seq<int>, hs: seq<int>, n: nat): nat
    requires n <= |ws|
  {
    if n == 0 then 0 else TrapPairs(ws, hs, n - 1) + AdjacentHunters(ws[n - 1], hs, |hs|)
  }

  /** The score evaluateBoard computes, term by term: 1000 per wolf, minus
      10 per unit of pairwise wolf distance, minus 5 per unit of hunter
      mobility, plus 3 times the average wolf row, plus 15 per adjacent
      (wolf, hunter) pair. Without wolves the average is 0/0 and the whole
      sum is NaN. */
  function BoardScore(board: Board): Number
  {
    var ws := Positions(board, WOLF, 25);
    var hs := Positions(board, HUNTER, 25);
    if |ws| == 0 then NaN
    else Num((1000 * |ws| - 10 * PairDistances(ws, |ws|) - 5 * HunterMobility(board, hs, |hs|)) as real
             + (RowSum(ws, |ws|) as real / |ws| as real) * 3.0
             + (15 * TrapPairs(ws, hs, |ws|)) as real)
  }

  /** The local getValidMoves of the evaluation: four bounds tests, each
      followed by an emptiness test of the neighbour. */
  function LocalValidMoves(board: Board, pos: int): seq<int>
  {
    var row := Row(pos);
    var col := Col(pos);
    (if row > 0 && Holds(board, pos - 5, EMPTY) then [pos - 5] else [])
    + (if row < 4 && Holds(board, pos + 5, EMPTY) then [pos + 5] else [])
    + (if col > 0 && Holds(board, pos - 1, EMPTY) then [pos - 1] else [])
    + (if col < 4 && Holds(board, pos + 1, EMPTY) then [pos + 1] else [])
  }

  /** On a valid cell the local copy lists the same steps, in the same
      order, as getValidMoves of the move rules. */
  lemma LocalValidMovesAgree(board: Board, pos: int)
    requires IsValidPosition(pos)
    ensures LocalValidMoves(board, pos) == ValidMoves(board, pos)
  {
    NeighboursAdjacent(pos);
    FilterFour(board, pos, Row(pos) > 0, Row(pos) < 4, Col(pos) > 0, Col(pos) < 4);
  }

  /** Filtering the four listed neighbours by the step rule keeps, in order,
      those that are empty. */
  lemma FilterFour(board: Board, pos: int, up: bool, down: bool, left: bool, right: bool)
    requires up ==> IsAdjacent(pos, pos - 5)
    requires down ==> IsAdjacent(pos, pos + 5)
    requires left ==> IsAdjacent(pos, pos - 1)
    requires right ==> IsAdjacent(pos, pos + 1)
    ensures Filter((if up then [pos - 5] else []) + (if down then [pos + 5] else [])
                   + (if left then [pos - 1] else []) + (if right then [pos + 1] else []),
                   to => CanMove(board, pos, to))
         == (if up && Holds(board, pos - 5, EMPTY) then [pos - 5] else [])
            + (if down && Holds(board, pos + 5, EMPTY) then [pos + 5] else [])
            + (if left && Holds(board, pos - 1, EMPTY) then [pos - 1] else [])
            + (if right && Holds(board, pos + 1, EMPTY) then [pos + 1] else [])
  {
    var f := to => CanMove(board, pos, to);
    var a: seq<int> := if up then [pos - 5] else [];
    var b: seq<int> := if down then [pos + 5] else [];
    var c: seq<int> := if left then [pos - 1] else [];
    var d: seq<int> := if right then [pos + 1] else [];
    FilterConcat(a + b + c, d, f);
    FilterConcat(a + b, c, f);
    FilterConcat(a, b, f);
    FilterNeighbour(board, pos, up, pos - 5);
    FilterNeighbour(board, pos, down, pos + 5);
    FilterNeighbour(board, pos, left, pos - 1);
    FilterNeighbour(board, pos, right, pos + 1);
  }

  /** The four candidate neighbours, each under its bounds test, are on
      the board and adjacent. */
  lemma NeighboursAdjacent(pos: int)
    requires IsValidPosition(pos)
    ensures Row(pos) > 0 ==> IsValidPosition(pos - 5) && IsAdjacent(pos, pos - 5)
    ensures Row(pos) < 4 ==> IsValidPosition(pos + 5) && IsAdjacent(pos, pos + 5)
    ensures Col(pos) > 0 ==> IsValidPosition(pos - 1) && IsAdjacent(pos, pos - 1)
    ensures Col(pos) < 4 ==> IsValidPosition(pos + 1) && IsAdjacent(pos, pos + 1)
  {
    RowColDecompose(pos);
  }

  /** Filtering a neighbour listed under `cond` by the step rule keeps it
      exactly when it is empty. */
  lemma FilterNeighbour(board: Board, pos: int, cond: bool, q: int)
    requires cond ==> IsAdjacent(pos, q)
    ensures Filter(if cond then [q] else [], to => CanMove(board, pos, to))
         == (if cond && Holds(board, q, EMPTY) then [q] else [])
  {
    if cond {
      assert [q][1..] == [];
    }
  }

  /** The local getPossibleSnipes: the same four offsets, a bounds test on
      the target, then the hunter, wolf and empty-middle tests inline. The
      index sum is even for every offset, so the middle is a whole cell. */
  method LocalPossibleSnipes(board: Board, hunterPos: int) returns (snipeTargets: seq<int>)
    ensures snipeTargets == PossibleSnipes(board, hunterPos)
  {
    snipeTargets := [];
    for i := 0 to |Directions|
      invariant snipeTargets == SnipesUpTo(board, hunterPos, i)
    {
      var targetPos := hunterPos + Directions[i];
      if targetPos >= 0 && targetPos < 25 {
        var midPos := (hunterPos + targetPos) / 2;
        assert targetPos - hunterPos in Directions;
        if Holds(board, hunterPos, HUNTER) && Holds(board, targetPos, WOLF) && Holds(board, midPos, EMPTY) {
          snipeTargets := snipeTargets + [targetPos];
        }
      }
    }
  }

  /** The first loop of evaluateBoard: the wolf and hunter cells. */
  method CollectPieces(board: Board) returns (wolves: seq<int>, hunters: seq<int>)
    ensures wolves == Positions(board, WOLF, 25)
    ensures hunters == Positions(board, HUNTER, 25)
  {
    wolves := [];
    hunters := [];
    for i := 0 to 25
      invariant wolves == Positions(board, WOLF, i)
      invariant hunters == Positions(board, HUNTER, i)
    {
      if board[i] == WOLF {
        wolves := wolves + [i];
      }
      if board[i] == HUNTER {
        hunters := hunters + [i];
      }
    }
  }

  /** The spread loop: minus the distance of every pair. */
  method Compactness(wolves: seq<int>) returns (wolfCompactness: int)
    ensures wolfCompactness == -(PairDistances(wolves, |wolves|) as int)
  {
    wolfCompactness := 0;
    for i := 0 to |wolves|
      invariant wolfCompactness == -(PairDistances(wolves, i) as int)
    {
      for j := i + 1 to |wolves|
        invariant wolfCompactness == -(PairDistances(wolves, i) + DistancesFrom(wolves, i, j)) as int
      {
        var dist := ManhattanDistance(wolves[i], wolves[j]);
        wolfCompactness := wolfCompactness - dist;
      }
    }
  }

  /** The mobility loop over the hunters, with the local helpers. */
  method Mobility(board: Board, hunters: seq<int>) returns (hunterMobility: int)
    requires forall k :: 0 <= k < |hunters| ==> IsValidPosition(hunters[k])
    ensures hunterMobility == HunterMobility(board, hunters, |hunters|)
  {
    hunterMobility := 0;
    for k := 0 to |hunters|
      invariant hunterMobility == HunterMobility(board, hunters, k)
    {
      var hunter := hunters[k];
      LocalValidMovesAgree(board, hunter);
      var validMoves := LocalValidMoves(board, hunter);
      var snipes := LocalPossibleSnipes(board, hunter);
      hunterMobility := hunterMobility + |validMoves| + |snipes| * 2;
    }
  }

  /** The `reduce` adding up the wolf rows. */
  method SumRows(wolves: seq<int>) returns (sum: int)
    ensures sum == RowSum(wolves, |wolves|)
  {
    sum := 0;
    for k := 0 to |wolves|
      invariant sum == RowSum(wolves, k)
    {
      sum := sum + wolves[k] / 5;
    }
  }

  /** The trap loop: 15 for every adjacent (wolf, hunter) pair. */
  method TrapPotential(wolves: seq<int>, hunters: seq<int>) returns (trapPotential: int)
    ensures trapPotential == 15 * TrapPairs(wolves, hunters, |wolves|)
  {
    trapPotential := 0;
    for a := 0 to |wolves|
      invariant trapPotential == 15 * TrapPairs(wolves, hunters, a)
    {
      for b := 0 to |hunters|
        invariant trapPotential == 15 * (TrapPairs(wolves, hunters, a) + AdjacentHunters(wolves[a], hunters, b))
      {
        if IsAdjacent(wolves[a], hunters[b]) {
          trapPotential := trapPotential + 15;
        }
      }
    }
  }

  /** evaluateBoard as the source runs it: collect the pieces, then one
      loop per term, then the sum. */
  method EvaluateBoard(board: Board) returns (score: Number)
    ensures score == BoardScore(board)
  {
    var wolves, hunters := CollectPieces(board);
    PiecePositions(board, HUNTER);

    var wolfCountScore := |wolves| * 1000;
    var wolfCompactness := Compactness(wolves);
    wolfCompactness := wolfCompactness * 10;
    var hunterMobility := Mobility(board, hunters);
    hunterMobility := hunterMobility * 5;
    var rowSum := SumRows(wolves);
    var trapPotential := TrapPotential(wolves, hunters);

    if |wolves| == 0 {
      score := NaN;
    } else {
      var wolfAvgRow := rowSum as real / |wolves| as real;
      var advancementScore := wolfAvgRow * 3.0;
      score := Num((wolfCountScore + wolfCompactness - hunterMobility) as real
                   + advancementScore + trapPotential as real);
    }
  }

  /** The score is NaN exactly when no wolf is left. */
  lemma ScoreNaNIffNoWolves(board: Board)
    ensures BoardScore(board).NaN? <==> Count(board, WOLF) == 0
  {
    PositionsExact(board, WOLF, 25);
    assert board[..25] == board;
  }

  /** Pairwise distances of ascending valid cells are positive for every
      pair, so the spread term is zero exactly with at most one wolf. */
  lemma {:induction false} PairDistancesZeroIff(ps: seq<int>)
    requires forall i :: 0 <= i < |ps| ==> IsValidPosition(ps[i])
    requires forall i, j :: 0 <= i < j < |ps| ==> ps[i] < ps[j]
    ensures PairDistances(ps, |ps|) == 0 <==> |ps| <= 1
  {
    if |ps| >= 2 {
      PairDistancesAtLeastFirstRow(ps, |ps|);
      DistancesFromAtLeastFirst(ps, |ps|);
      ManhattanMetric(ps[0], ps[1], ps[1]);
    } else if |ps| == 1 {
      assert PairDistances(ps, 1) == PairDistances(ps, 0) + DistancesFrom(ps, 0, 1);
    }
  }

  lemma {:induction false} PairDistancesAtLeastFirstRow(ps: seq<int>, n: nat)
    requires 1 <= n <= |ps|
    ensures PairDistances(ps, n) >= DistancesFrom(ps, 0, |ps|)
  {
    if n > 1 {
      PairDistancesAtLeastFirstRow(ps, n - 1);
    }
  }

  lemma {:induction false} DistancesFromAtLeastFirst(ps: seq<int>, j: nat)
    requires 2 <= j <= |ps|
    ensures DistancesFrom(ps, 0, j) >= ManhattanDistance(ps[0], ps[1])
  {
    if j > 2 {
      DistancesFromAtLeastFirst(ps, j - 1);
    }
  }

  /** Every hunter contributes at most 4 steps and 4 captures, so the
      mobility sum is at most 12 per hunter. */
  lemma {:induction false} HunterMobilityBound(board: Board, hs: seq<int>, n: nat)
    requires n <= |hs|
    ensures HunterMobility(board, hs, n) <= 12 * n
  {
    if n > 0 {
      HunterMobilityBound(board, hs, n - 1);
    }
  }

  /** The rows of valid cells add up to between 0 and 4 per cell. */
  lemma {:induction false} RowSumBound(ps: seq<int>, n: nat)
    requires n <= |ps|
    requires forall i :: 0 <= i < |ps| ==> IsValidPosition(ps[i])
    ensures 0 <= RowSum(ps, n) <= 4 * n
  {
    if n > 0 {
      RowSumBound(ps, n - 1);
    }
  }

  /** Each wolf stands next to at most as many hunters as there are. */
  lemma {:induction false} TrapPairsBound(ws: seq<int>, hs: seq<int>, n: nat)
    requires n <= |ws|
    ensures TrapPairs(ws, hs, n) <= n * |hs|
  {
    if n > 0 {
      TrapPairsBound(ws, hs, n - 1);
      AdjacentHuntersBound(ws[n - 1], hs, |hs|);
      assert (n - 1) * |hs| + |hs| == n * |hs|;
    }
  }

  lemma {:induction false} AdjacentHuntersBound(w: int, hs: seq<int>, n: nat)
    requires n <= |hs|
    ensures AdjacentHunters(w, hs, n) <= n
  {
    if n > 0 {
      AdjacentHuntersBound(w, hs, n - 1);
    }
  }

  /** Wolves among the first `n` of `ws` adjacent to the hunter `h`. */
  function AdjacentWolves(h: int, ws: seq<int>, n: nat): nat
    requires n <= |ws|
  {
    if n == 0 then 0 else AdjacentWolves(h, ws, n - 1) + (if IsAdjacent(ws[n - 1], h) then 1 else 0)
  }

  /** The adjacent (wolf, hunter) pairs counted hunter by hunter: over the
      first `m` hunters, among the first `n` wolves. */
  function PairsByHunter(ws: seq<int>, hs: seq<int>, n: nat, m: nat): nat
    requires n <= |ws| && m <= |hs|
  {
    if m == 0 then 0 else PairsByHunter(ws, hs, n, m - 1) + AdjacentWolves(hs[m - 1], ws, n)
  }

  /** Adding the `n`-th wolf adds, hunter by hunter, that wolf's adjacent
      hunters. */
  lemma {:induction false} PairsByHunterStep(ws: seq<int>, hs: seq<int>, n: nat, m: nat)
    requires 0 < n <= |ws| && m <= |hs|
    ensures PairsByHunter(ws, hs, n, m) == PairsByHunter(ws, hs, n - 1, m) + AdjacentHunters(ws[n - 1], hs, m)
  {
    if m > 0 {
      PairsByHunterStep(ws, hs, n, m - 1);
    }
  }

  lemma {:induction false} PairsByHunterNoWolves(ws: seq<int>, hs: seq<int>, m: nat)
    requires m <= |hs|
    ensures PairsByHunter(ws, hs, 0, m) == 0
  {
    if m > 0 {
      PairsByHunterNoWolves(ws, hs, m - 1);
    }
  }

  /** Counting the pairs wolf by wolf (as the source's loops do) or hunter
      by hunter gives the same number. */
  lemma {:induction false} TrapPairsByHunter(ws: seq<int>, hs: seq<int>, n: nat)
    requires n <= |ws|
    ensures TrapPairs(ws, hs, n) == PairsByHunter(ws, hs, n, |hs|)
  {
    if n == 0 {
      PairsByHunterNoWolves(ws, hs, |hs|);
    } else {
      TrapPairsByHunter(ws, hs, n - 1);
      PairsByHunterStep(ws, hs, n, |hs|);
    }
  }

  /** Distinct wolves adjacent to `h` all lie in `cells`, so there are at
      most as many of them as cells. */
  lemma {:induction false} AdjacentWolvesWithin(h: int, ws: seq<int>, n: nat, cells: set<int>)
    requires n <= |ws|
    requires forall i, j :: 0 <= i < j < |ws| ==> ws[i] < ws[j]
    requires forall i :: 0 <= i < n && IsAdjacent(ws[i], h) ==> ws[i] in cells
    ensures AdjacentWolves(h, ws, n) <= |cells|
  {
    if n > 0 {
      if IsAdjacent(ws[n - 1], h) {
        AdjacentWolvesWithin(h, ws, n - 1, cells - {ws[n - 1]});
      } else {
        AdjacentWolvesWithin(h, ws, n - 1, cells);
      }
    }
  }

  /** A hunter has at most four wolves next to it. */
  lemma AdjacentWolvesAtMostFour(h: int, ws: seq<int>)
    requires IsValidPosition(h)
    requires forall i :: 0 <= i < |ws| ==> IsValidPosition(ws[i])
    requires forall i, j :: 0 <= i < j < |ws| ==> ws[i] < ws[j]
    ensures AdjacentWolves(h, ws, |ws|) <= 4
  {
    var cells := {h - 5, h + 5, h - 1, h + 1};
    forall i | 0 <= i < |ws| && IsAdjacent(ws[i], h)
      ensures ws[i] in cells
    {
      AdjacentSymmetricIrreflexive(ws[i], h);
      AdjacentIffOffset(h, ws[i]);
    }
    AdjacentWolvesWithin(h, ws, |ws|, cells);
  }

  lemma {:induction false} PairsByHunterBound(ws: seq<int>, hs: seq<int>, m: nat)
    requires m <= |hs|
    requires forall i :: 0 <= i < |ws| ==> IsValidPosition(ws[i])
    requires forall i :: 0 <= i < |hs| ==> IsValidPosition(hs[i])
    requires forall i, j :: 0 <= i < j < |ws| ==> ws[i] < ws[j]
    ensures PairsByHunter(ws, hs, |ws|, m) <= 4 * m
  {
    if m > 0 {
      PairsByHunterBound(ws, hs, m - 1);
      AdjacentWolvesAtMostFour(hs[m - 1], ws);
    }
  }

  /** The average wolf row is between 0 and 4, so the advancement term
      lies between 0 and 12. */
  lemma AdvancementBound(rowSum: int, n: nat)
    requires n > 0 && 0 <= rowSum <= 4 * n
    ensures 0.0 <= (rowSum as real / n as real) * 3.0 <= 12.0
  {
    QuotientBound(rowSum as real, n as real, 4.0);
  }

  lemma QuotientBound(x: real, y: real, k: real)
    requires y > 0.0 && 0.0 <= x <= k * y
    ensures 0.0 <= x / y <= k
  {
    var q := x / y;
    assert q * y == x;
    if q > k {
      assert (q - k) * y > 0.0;
    }
  }

  /** The terms of the score in terms of the board: the count term is 1000
      per wolf, the spread term is never positive and is zero with at most
      one wolf, mobility costs between 0 and 60 per hunter, advancement
      adds between 0 and 12, the trap term adds between 0 and 15 per
      (wolf, hunter) pair and at most 60 per hunter. */
  lemma ScoreTerms(board: Board)
    ensures var ws := Positions(board, WOLF, 25);
      var hs := Positions(board, HUNTER, 25);
      && |ws| == Count(board, WOLF) && |hs| == Count(board, HUNTER)
      && (PairDistances(ws, |ws|) == 0 <==> |ws| <= 1)
      && 5 * HunterMobility(board, hs, |hs|) <= 60 * |hs|
      && (|ws| > 0 ==> 0.0 <= (RowSum(ws, |ws|) as real / |ws| as real) * 3.0 <= 12.0)
      && 0 <= 15 * TrapPairs(ws, hs, |ws|) <= 15 * (|ws| * |hs|)
      && 15 * TrapPairs(ws, hs, |ws|) <= 60 * |hs|
  {
    var ws := Positions(board, WOLF, 25);
    var hs := Positions(board, HUNTER, 25);
    PiecePositions(board, WOLF);
    PiecePositions(board, HUNTER);
    PairDistancesZeroIff(ws);
    HunterMobilityBound(board, hs, |hs|);
    RowSumBound(ws, |ws|);
    if |ws| > 0 {
      AdvancementBound(RowSum(ws, |ws|), |ws|);
    }
    TrapPairsBound(ws, hs, |ws|);
    TrapPairsByHunter(ws, hs, |ws|);
    PairsByHunterBound(ws, hs, |hs|);
  }

  /** On the starting board: fifteen wolves, three hunters, and a finite
      score. */
  lemma InitialScoreFinite()
    ensures BoardScore(InitialBoard()).Num?
  {
    InitialCounts();
    ScoreNaNIffNoWolves(InitialBoard());
  }
}
