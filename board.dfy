/**
 The two board operations that touch the shared mutable board: listing the
 empty cells and placing a mark. The board is an array of nine cells in
 row-major order; its contents `board[..]` is the grid of the evaluator.
 */
module Board {

  import opened Evaluator

  /** `get_available_moves`: the empty cells, collected row by row, column by column. */
  method GetAvailableMoves(board: array<Cell>) returns (moves: seq<Coord>)
    requires board.Length == 9
    ensures moves == Moves(board[..])
  {
    ghost var g: Grid := board[..];
    moves := [];
    for row := 0 to 3
      invariant moves == MovesBelow(g, 3 * row)
    {
      for col := 0 to 3
        invariant moves == MovesBelow(g, 3 * row + col)
      {
        if board[3 * row + col] == Empty {
          moves := moves + [Coord(row, col)];
        }
      }
    }
  }

  /**
   `make_move`: on an empty cell, writes the player's mark there and reports
   success; on an occupied cell, reports failure and changes nothing.
   */
  method MakeMove(board: array<Cell>, row: Index, col: Index, player: Player) returns (ok: bool)
    requires board.Length == 9
    modifies board
    ensures ok <==> At(old(board[..]), Coord(row, col)) == Empty
    ensures board[..] == if ok then Place(old(board[..]), Coord(row, col), player) else old(board[..])
  {
    if board[3 * row + col] == Empty {
      board[3 * row + col] := Mark(player);
      ok := true;
    } else {
      ok := false;
    }
  }
}
