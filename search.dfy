/**
 The adversarial search engine: the terminal scores, plain minimax as the
 reference value of a position, the alpha-beta search over the shared board
 and the choice of the best move for X.
 */
module Search {

  import opened Wrappers
  import opened Evaluator
  import opened Board

  /** Integer stand-ins for -infinity and +infinity, outside every score. */
  const NegInf: int := -2
  const PosInf: int := 2

  /** The `scores` table: X wins 1, O wins -1, a tie 0. */
  function Score(o: Outcome): (r: int)
    requires !o.Ongoing?
    ensures -1 <= r <= 1
    ensures r == 1 <==> o == Won(X)
    ensures r == -1 <==> o == Won(O)
    ensures r == 0 <==> o == Tie
  {
    match o
    case Won(X) => 1
    case Won(O) => -1
    case Tie => 0
  }

  function Max(a: int, b: int): int { if a >= b then a else b }

  function Min(a: int, b: int): int { if a <= b then a else b }

  /** The side to move: X when maximising, O when minimising. */
  function Mover(maximizing: bool): Player { if maximizing then X else O }

  /**
   The running maximum (or minimum) of `acc` and the elements of `vs` from
   position `i` on, scanned left to right.
   */
  function ExtremeFrom(maximizing: bool, vs: seq<int>, i: nat, acc: int): (r: int)
    requires i <= |vs|
    ensures r == acc || exists k :: i <= k < |vs| && vs[k] == r
    ensures if maximizing then acc <= r else r <= acc
    ensures forall k :: i <= k < |vs| ==> if maximizing then vs[k] <= r else r <= vs[k]
    decreases |vs| - i
  {
    if i == |vs| then acc
    else ExtremeFrom(maximizing, vs, i + 1, if maximizing then Max(acc, vs[i]) else Min(acc, vs[i]))
  }

  /**
   The maximum (or minimum) of `vs`; the sentinel -inf (or +inf) when `vs`
   is empty. It is one of the elements and bounds all of them.
   */
  function Extreme(maximizing: bool, vs: seq<int>): (r: int)
    ensures vs == [] ==> r == if maximizing then NegInf else PosInf
    ensures vs != [] ==> r in vs
    ensures forall k :: 0 <= k < |vs| ==> if maximizing then vs[k] <= r else r <= vs[k]
  {
    if vs == [] then (if maximizing then NegInf else PosInf)
    else ExtremeFrom(maximizing, vs, 1, vs[0])
  }

  /**
   Plain minimax without pruning: the score of a terminal grid, otherwise the
   best value over all available moves for the side to move.
   */
  ghost function MinimaxValue(g: Grid, maximizing: bool): (v: int)
    ensures -1 <= v <= 1
    decreases EmptyCount(g), 1
  {
    var o := CheckWinner(g);
    if o != Ongoing then Score(o)
    else
      CheckWinnerOngoing(g);
      MovesNoneIffFull(g);
      Extreme(maximizing, ChildValues(g, maximizing, Moves(g)))
  }

  /** The plain minimax values of the grids reached by playing each of `ms`, in order. */
  ghost function ChildValues(g: Grid, maximizing: bool, ms: seq<Coord>): (vs: seq<int>)
    requires forall k :: 0 <= k < |ms| ==> At(g, ms[k]) == Empty
    ensures |vs| == |ms|
    ensures forall k :: 0 <= k < |vs| ==> -1 <= vs[k] <= 1
    decreases EmptyCount(g), 0, |ms|
  {
    if ms == [] then []
    else
      PlaceFillsOne(g, ms[0], Mover(maximizing));
      [MinimaxValue(Place(g, ms[0], Mover(maximizing)), !maximizing)] + ChildValues(g, maximizing, ms[1..])
  }

  /** Element `k` of ChildValues is the value of the grid after move `ms[k]`. */
  lemma {:induction false} ChildValueAt(g: Grid, maximizing: bool, ms: seq<Coord>, k: nat)
    requires forall j :: 0 <= j < |ms| ==> At(g, ms[j]) == Empty
    requires k < |ms|
    ensures ChildValues(g, maximizing, ms)[k] == MinimaxValue(Place(g, ms[k], Mover(maximizing)), !maximizing)
  {
    if k > 0 {
      ChildValueAt(g, maximizing, ms[1..], k - 1);
    }
  }

  /** A terminal grid is worth its score. */
  lemma MinimaxTerminal(g: Grid, maximizing: bool)
    requires CheckWinner(g) != Ongoing
    ensures MinimaxValue(g, maximizing) == Score(CheckWinner(g))
  {
  }

  /** An ongoing grid is worth the best of its children, of which there is at least one. */
  lemma MinimaxOngoing(g: Grid, maximizing: bool)
    requires CheckWinner(g) == Ongoing
    ensures Moves(g) != []
    ensures MinimaxValue(g, maximizing) == Extreme(maximizing, ChildValues(g, maximizing, Moves(g)))
  {
    CheckWinnerOngoing(g);
    MovesNoneIffFull(g);
  }

  /**
   The fail-soft alpha-beta contract: a result at or below alpha is an upper
   bound of the true value, one strictly inside the window is the true value,
   one at or above beta is a lower bound.
   */
  predicate FailSoft(r: int, v: int, alpha: int, beta: int)
  {
    && (r <= alpha ==> v <= r)
    && (alpha < r < beta ==> v == r)
    && (beta <= r ==> r <= v)
  }

  /** Raising an upper bound of `vs[..i]` that also bounds `vs[i]` bounds `vs[..i+1]`. */
  lemma UpperBoundExtends(vs: seq<int>, i: nat, prev: int, best: int)
    requires i < |vs|
    requires forall j :: 0 <= j < i ==> vs[j] <= prev
    requires prev <= best && vs[i] <= best
    ensures forall j :: 0 <= j < i + 1 ==> vs[j] <= best
  {
  }

  /** Lowering a lower bound of `vs[..i]` that also bounds `vs[i]` bounds `vs[..i+1]`. */
  lemma LowerBoundExtends(vs: seq<int>, i: nat, prev: int, best: int)
    requires i < |vs|
    requires forall j :: 0 <= j < i ==> prev <= vs[j]
    requires best <= prev && best <= vs[i]
    ensures forall j :: 0 <= j < i + 1 ==> best <= vs[j]
  {
  }

  /**
   One iteration of the maximising loop, on plain integers: `best` and the
   raised bound `a` before the iteration, the searched score `s` and the true
   value `v` of the move, related by the fail-soft contract.
   */
  lemma MaxStep(alpha: int, beta: int, a: int, best: int, s: int, v: int)
    requires (best == NegInf && a == alpha) || (-1 <= best <= 1 && a == Max(alpha, best))
    requires alpha < beta ==> a < beta
    requires -1 <= s <= 1 && -1 <= v <= 1
    requires a < beta ==> FailSoft(s, v, a, beta)
    ensures -1 <= Max(s, best) <= 1 && Max(a, Max(s, best)) == Max(alpha, Max(s, best))
    ensures alpha < beta && Max(a, Max(s, best)) < beta ==> v <= Max(s, best)
    ensures alpha < beta && Max(a, Max(s, best)) < beta && best < Max(s, best) && alpha < Max(s, best) ==> v == Max(s, best)
    ensures alpha < beta && beta <= Max(a, Max(s, best)) ==> beta <= Max(s, best) <= v
  {
  }

  /** One iteration of the minimising loop, the mirror image of MaxStep. */
  lemma MinStep(alpha: int, beta: int, b: int, best: int, s: int, v: int)
    requires (best == PosInf && b == beta) || (-1 <= best <= 1 && b == Min(beta, best))
    requires alpha < beta ==> alpha < b
    requires -1 <= s <= 1 && -1 <= v <= 1
    requires alpha < b ==> FailSoft(s, v, alpha, b)
    ensures -1 <= Min(s, best) <= 1 && Min(b, Min(s, best)) == Min(beta, Min(s, best))
    ensures alpha < beta && alpha < Min(b, Min(s, best)) ==> Min(s, best) <= v
    ensures alpha < beta && alpha < Min(b, Min(s, best)) && Min(s, best) < best && Min(s, best) < beta ==> v == Min(s, best)
    ensures alpha < beta && Min(b, Min(s, best)) <= alpha ==> v <= Min(s, best) <= alpha
  {
  }

  /**
   `minimax` with alpha-beta pruning over the shared board: every move is
   applied, searched and undone before the best score is updated, so the
   board is left as found; the result is a score, is the score of a terminal
   board, and is tied to plain minimax by the fail-soft bounds, which with
   the full window (-inf, +inf) make it exact.
   */
  method Minimax(board: array<Cell>, maximizing: bool, alpha: int, beta: int) returns (score: int)
    requires board.Length == 9
    modifies board
    ensures board[..] == old(board[..])
    ensures -1 <= score <= 1
    ensures CheckWinner(old(board[..])) != Ongoing ==> score == Score(CheckWinner(old(board[..])))
    ensures alpha < beta ==> FailSoft(score, MinimaxValue(old(board[..]), maximizing), alpha, beta)
    ensures alpha == NegInf && beta == PosInf ==> score == MinimaxValue(old(board[..]), maximizing)
    decreases EmptyCount(board[..]), 2
  {
    ghost var g: Grid := board[..];
    var result := CheckWinner(board[..]);
    if result != Ongoing {
      MinimaxTerminal(g, maximizing);
      return Score(result);
    }
    MinimaxOngoing(g, maximizing);
    var moves := GetAvailableMoves(board);
    if maximizing {
      score := SearchMax(board, moves, alpha, beta);
    } else {
      score := SearchMin(board, moves, alpha, beta);
    }
  }

  /**
   The maximising branch of `minimax`: X tries each move in turn, keeping the
   best score and raising alpha to it, and stops as soon as alpha reaches
   beta.
   */
  method SearchMax(board: array<Cell>, moves: seq<Coord>, alpha: int, beta: int) returns (score: int)
    requires board.Length == 9 && moves == Moves(board[..]) && moves != []
    modifies board
    ensures board[..] == old(board[..])
    ensures -1 <= score <= 1
    ensures alpha < beta ==> FailSoft(score, Extreme(true, ChildValues(old(board[..]), true, moves)), alpha, beta)
    decreases EmptyCount(board[..]), 1
  {
    ghost var g: Grid := board[..];
    ghost var vs := ChildValues(g, true, moves);
    var best := NegInf;
    var a := alpha;
    for i := 0 to |moves|
      invariant board[..] == g
      invariant i == 0 ==> best == NegInf && a == alpha
      invariant i > 0 ==> -1 <= best <= 1 && a == Max(alpha, best)
      invariant alpha < beta ==> a < beta
      invariant forall j :: 0 <= j < i ==> vs[j] <= best
      invariant i > 0 && alpha < best ==> exists j :: 0 <= j < i && vs[j] == best
    {
      ghost var v := vs[i];
      ChildValueAt(g, true, moves, i);
      var s := PlayAndSearch(board, moves[i], true, a, beta);
      MaxStep(alpha, beta, a, best, s, v);
      var prev := best;
      best := Max(s, best);
      a := Max(a, best);
      if a >= beta {
        break;
      }
      UpperBoundExtends(vs, i, prev, best);
      assert best > prev && alpha < best ==> vs[i] == best;
    }
    score := best;
  }

  /**
   The minimising branch of `minimax`: O tries each move in turn, keeping the
   lowest score and lowering beta to it, and stops as soon as beta reaches
   alpha.
   */
  method SearchMin(board: array<Cell>, moves: seq<Coord>, alpha: int, beta: int) returns (score: int)
    requires board.Length == 9 && moves == Moves(board[..]) && moves != []
    modifies board
    ensures board[..] == old(board[..])
    ensures -1 <= score <= 1
    ensures alpha < beta ==> FailSoft(score, Extreme(false, ChildValues(old(board[..]), false, moves)), alpha, beta)
    decreases EmptyCount(board[..]), 1
  {
    ghost var g: Grid := board[..];
    ghost var vs := ChildValues(g, false, moves);
    var best := PosInf;
    var b := beta;
    for i := 0 to |moves|
      invariant board[..] == g
      invariant i == 0 ==> best == PosInf && b == beta
      invariant i > 0 ==> -1 <= best <= 1 && b == Min(beta, best)
      invariant alpha < beta ==> alpha < b
      invariant forall j :: 0 <= j < i ==> best <= vs[j]
      invariant i > 0 && best < beta ==> exists j :: 0 <= j < i && vs[j] == best
    {
      ghost var v := vs[i];
      ChildValueAt(g, false, moves, i);
      var s := PlayAndSearch(board, moves[i], false, alpha, b);
      MinStep(alpha, beta, b, best, s, v);
      var prev := best;
      best := Min(s, best);
      b := Min(b, best);
      if alpha >= b {
        break;
      }
      LowerBoundExtends(vs, i, prev, best);
      assert best < prev && best < beta ==> vs[i] == best;
    }
    score := best;
  }

  /**
   One step of the search loops: the side to move plays the empty cell `c`,
   the opponent's reply is searched in the window (alpha, beta), and the cell
   is emptied again, leaving the board as found.
   */
  method PlayAndSearch(board: array<Cell>, c: Coord, maximizing: bool, alpha: int, beta: int) returns (s: int)
    requires board.Length == 9 && At(board[..], c) == Empty
    modifies board
    ensures board[..] == old(board[..])
    ensures -1 <= s <= 1
    ensures alpha < beta ==> FailSoft(s, MinimaxValue(Place(old(board[..]), c, Mover(maximizing)), !maximizing), alpha, beta)
    ensures alpha == NegInf && beta == PosInf ==> s == MinimaxValue(Place(old(board[..]), c, Mover(maximizing)), !maximizing)
    decreases EmptyCount(board[..]), 0
  {
    ghost var g: Grid := board[..];
    assert EmptyCount(Place(g, c, Mover(maximizing))) < EmptyCount(g);
    var placed := MakeMove(board, c.row, c.col, Mover(maximizing));
    s := Minimax(board, !maximizing, alpha, beta);
    board[3 * c.row + c.col] := Empty;  // undo the move
    UndoRestores(g, c, Mover(maximizing));
  }

  /**
   Move `k` of the available moves of `g` is the one `find_best_move` keeps:
   no move scores higher for X, and every earlier move scores strictly lower.
   */
  ghost predicate FirstBest(g: Grid, k: int)
  {
    var vs := ChildValues(g, true, Moves(g));
    && 0 <= k < |vs|
    && (forall j :: 0 <= j < |vs| ==> vs[j] <= vs[k])
    && (forall j :: 0 <= j < k ==> vs[j] < vs[k])
  }

  /**
   `find_best_move`: None exactly when no move is available, otherwise the
   earliest available move (row-major) whose minimax value is the maximum;
   the board is left as found.
   */
  method FindBestMove(board: array<Cell>) returns (best: Option<Coord>)
    requires board.Length == 9
    modifies board
    ensures board[..] == old(board[..])
    ensures best.None? <==> Moves(old(board[..])) == []
    ensures best.Some? ==> exists k :: FirstBest(old(board[..]), k) && best.value == Moves(old(board[..]))[k]
  {
    ghost var g: Grid := board[..];
    var moves := GetAvailableMoves(board);
    ghost var vs := ChildValues(g, true, moves);
    best := None;
    var bestScore := NegInf;
    ghost var k := 0;
    for i := 0 to |moves|
      invariant 0 <= k <= i
      invariant board[..] == g
      invariant i == 0 ==> best.None? && bestScore == NegInf
      invariant i > 0 ==> 0 <= k < i && best == Some(moves[k]) && bestScore == vs[k]
      invariant forall j :: 0 <= j < i ==> vs[j] <= bestScore
      invariant forall j :: 0 <= j < k ==> vs[j] < bestScore
    {
      ChildValueAt(g, true, moves, i);
      var moveScore := PlayAndSearch(board, moves[i], true, NegInf, PosInf);
      ghost var prev := bestScore;
      if moveScore > bestScore {
        bestScore := moveScore;
        best := Some(moves[i]);
        k := i;
      }
      UpperBoundExtends(vs, i, prev, bestScore);
    }
    assert best.Some? ==> FirstBest(g, k);
  }
}
