/**
 The board and outcome evaluator of the tic-tac-toe engine: the cell marks,
 the 3x3 grid, the eight winning lines, the list of available moves and the
 classification of a board as won, tied or still ongoing.

 A grid is the row-major sequence of its nine cells: the cell in row `r` and
 column `c` is at index `3 * r + c`.
 */
module Evaluator {

  import opened Wrappers

  /** The two marks; X is the maximiser, O the minimiser. */
  datatype Player = X | O

  /** A cell is empty (' ') or holds one player's mark. */
  datatype Cell = Empty | Mark(player: Player)

  type Index = i: int | 0 <= i < 3

  /** A (row, col) pair addressing one cell. */
  datatype Coord = Coord(row: Index, col: Index)

  type Grid = g: seq<Cell> | |g| == 9
    witness [Empty, Empty, Empty, Empty, Empty, Empty, Empty, Empty, Empty]

  /** The outcome of `check_winner`: a winning mark, 'Tie', or None (ongoing). */
  datatype Outcome = Won(winner: Player) | Tie | Ongoing

  /** Row-major position of a coordinate. */
  function Flat(c: Coord): nat
  {
    3 * c.row + c.col
  }

  /** The coordinate at row-major position `i`. */
  function CoordAt(i: nat): (c: Coord)
    requires i < 9
    ensures Flat(c) == i
  {
    if i < 3 then Coord(0, i) else if i < 6 then Coord(1, i - 3) else Coord(2, i - 6)
  }

  function At(g: Grid, c: Coord): Cell
  {
    g[Flat(c)]
  }

  /** A row-major cell position. */
  type Pos = i: int | 0 <= i < 9

  /**
   The eight lines in scan order, as row-major positions: the rows, the
   columns, the main diagonal, then the anti-diagonal.
   */
  const Lines: seq<(Pos, Pos, Pos)> := [
    (0, 1, 2), (3, 4, 5), (6, 7, 8),
    (0, 3, 6), (1, 4, 7), (2, 5, 8),
    (0, 4, 8), (2, 4, 6)
  ]

  /** Line `k` holds three equal marks. */
  predicate Complete(g: Grid, k: nat)
    requires k < |Lines|
  {
    var (a, b, c) := Lines[k];
    g[a] != Empty && g[a] == g[b] == g[c]
  }

  /** The mark on the first cell of line `k`, which is the one `check_winner` returns. */
  function LineOwner(g: Grid, k: nat): Cell
    requires k < |Lines|
  {
    g[Lines[k].0]
  }

  /** Line `k` is complete and no earlier line in scan order is. */
  ghost predicate FirstComplete(g: Grid, k: nat)
  {
    k < |Lines| && Complete(g, k) && forall j :: 0 <= j < k ==> !Complete(g, j)
  }

  ghost predicate NoLineComplete(g: Grid)
  {
    forall k :: 0 <= k < |Lines| ==> !Complete(g, k)
  }

  /** No cell is empty. */
  predicate Full(g: Grid)
  {
    Empty !in g
  }

  /** The scan of the lines from position `k` on, stopping at the first complete one. */
  function FirstCompleteLine(g: Grid, k: nat): (r: Option<nat>)
    requires k <= |Lines|
    ensures r.Some? ==> k <= r.value < |Lines| && Complete(g, r.value)
    ensures r.Some? ==> forall j :: k <= j < r.value ==> !Complete(g, j)
    ensures r.None? ==> forall j :: k <= j < |Lines| ==> !Complete(g, j)
    decreases |Lines| - k
  {
    if k == |Lines| then None
    else if Complete(g, k) then Some(k)
    else FirstCompleteLine(g, k + 1)
  }

  /**
   `check_winner`: the owner of the first complete line in scan order; else
   Tie when the grid is full; else Ongoing (None). What this means is stated
   case by case by the lemmas below.
   */
  function CheckWinner(g: Grid): Outcome
  {
    match FirstCompleteLine(g, 0)
    case Some(k) => Won(LineOwner(g, k).player)
    case None => if Full(g) then Tie else Ongoing
  }

  /** A winner is reported exactly when some line is complete. */
  lemma CheckWinnerWon(g: Grid)
    ensures CheckWinner(g).Won? <==> exists k :: 0 <= k < |Lines| && Complete(g, k)
  {
  }

  /** The reported winner owns the first complete line in scan order. */
  lemma CheckWinnerFirst(g: Grid)
    requires CheckWinner(g).Won?
    ensures exists k :: FirstComplete(g, k) && LineOwner(g, k) == Mark(CheckWinner(g).winner)
  {
  }

  /** 'Tie' exactly when no line is complete and no cell is empty. */
  lemma CheckWinnerTie(g: Grid)
    ensures CheckWinner(g) == Tie <==> NoLineComplete(g) && Full(g)
  {
  }

  /** None (ongoing) exactly when no line is complete and some cell is empty. */
  lemma CheckWinnerOngoing(g: Grid)
    ensures CheckWinner(g) == Ongoing <==> NoLineComplete(g) && !Full(g)
  {
  }

  /** If every complete line belongs to `p` and there is one, `p` is the winner. */
  lemma WinnerOfAgreeingLines(g: Grid, k: nat, p: Player)
    requires k < |Lines| && Complete(g, k)
    requires forall j :: 0 <= j < |Lines| && Complete(g, j) ==> LineOwner(g, j) == Mark(p)
    ensures CheckWinner(g) == Won(p)
  {
    CheckWinnerWon(g);
    CheckWinnerFirst(g);
  }

  /** The empty cells among the first `n` positions, in row-major order. */
  function MovesBelow(g: Grid, n: nat): (ms: seq<Coord>)
    requires n <= 9
    ensures forall k :: 0 <= k < |ms| ==> Flat(ms[k]) < n && At(g, ms[k]) == Empty
    ensures |ms| <= n
  {
    if n == 0 then []
    else MovesBelow(g, n - 1) + (if g[n - 1] == Empty then [CoordAt(n - 1)] else [])
  }

  /** The listing below position `n` is strictly increasing in row-major order. */
  lemma {:induction false} MovesBelowOrdered(g: Grid, n: nat)
    requires n <= 9
    ensures forall j, k :: 0 <= j < k < |MovesBelow(g, n)| ==> Flat(MovesBelow(g, n)[j]) < Flat(MovesBelow(g, n)[k])
  {
    if n > 0 {
      MovesBelowOrdered(g, n - 1);
    }
  }

  /** Every empty cell below position `n` is listed. */
  lemma {:induction false} MovesBelowComplete(g: Grid, n: nat, c: Coord)
    requires n <= 9 && Flat(c) < n && At(g, c) == Empty
    ensures c in MovesBelow(g, n)
  {
    if Flat(c) < n - 1 {
      MovesBelowComplete(g, n - 1, c);
    } else {
      assert CoordAt(n - 1) == c;
    }
  }

  /** No cell below position `n` is empty exactly when none is listed. */
  lemma {:induction false} MovesBelowNone(g: Grid, n: nat)
    requires n <= 9
    ensures MovesBelow(g, n) == [] <==> forall i :: 0 <= i < n ==> g[i] != Empty
  {
    if n > 0 {
      MovesBelowNone(g, n - 1);
    }
  }

  /** `get_available_moves` as a function: the empty cells in row-major order. */
  function Moves(g: Grid): (ms: seq<Coord>)
    ensures forall k :: 0 <= k < |ms| ==> At(g, ms[k]) == Empty
  {
    MovesBelow(g, 9)
  }

  /** The available moves are strictly increasing in row-major order, so each appears once. */
  lemma MovesOrdered(g: Grid)
    ensures forall j, k :: 0 <= j < k < |Moves(g)| ==> Flat(Moves(g)[j]) < Flat(Moves(g)[k])
  {
    MovesBelowOrdered(g, 9);
  }

  /** There is no available move exactly when the grid is full. */
  lemma MovesNoneIffFull(g: Grid)
    ensures Moves(g) == [] <==> Full(g)
  {
    MovesBelowNone(g, 9);
  }

  /** The available moves are exactly the empty cells. */
  lemma MovesExact(g: Grid, c: Coord)
    ensures c in Moves(g) <==> At(g, c) == Empty
  {
    if At(g, c) == Empty {
      MovesBelowComplete(g, 9, c);
    }
  }

  /** The grid after `p` marks cell `c`: that cell changes, the other eight do not. */
  function Place(g: Grid, c: Coord, p: Player): (r: Grid)
    ensures At(r, c) == Mark(p)
    ensures forall d {:trigger At(r, d)} :: d != c ==> At(r, d) == At(g, d)
  {
    g[Flat(c) := Mark(p)]
  }

  /** Writing Empty back into a cell just marked restores the grid. */
  lemma UndoRestores(g: Grid, c: Coord, p: Player)
    requires At(g, c) == Empty
    ensures Place(g, c, p)[Flat(c) := Empty] == g
  {
  }

  /** The number of empty cells, which bounds how long a game can go on. */
  function EmptyCount(g: Grid): nat
  {
    multiset(g)[Empty]
  }

  /** Marking an empty cell leaves one empty cell fewer. */
  lemma PlaceFillsOne(g: Grid, c: Coord, p: Player)
    requires At(g, c) == Empty
    ensures EmptyCount(Place(g, c, p)) == EmptyCount(g) - 1
  {
  }

  lemma {:induction false} PlaceShrinksMovesBelow(g: Grid, c: Coord, p: Player, n: nat)
    requires n <= 9 && At(g, c) == Empty
    ensures |MovesBelow(Place(g, c, p), n)| == |MovesBelow(g, n)| - (if Flat(c) < n then 1 else 0)
  {
    if n > 0 {
      PlaceShrinksMovesBelow(g, c, p, n - 1);
    }
  }

  /** Marking an empty cell removes exactly one available move. */
  lemma PlaceShrinksMoves(g: Grid, c: Coord, p: Player)
    requires At(g, c) == Empty
    ensures |Moves(Place(g, c, p))| == |Moves(g)| - 1
  {
    PlaceShrinksMovesBelow(g, c, p, 9);
  }
}
