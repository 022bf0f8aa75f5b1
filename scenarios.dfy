/**
 Concrete positions, each given to the engine, with a proof that the engine
 produces the outcome the game rules dictate.
 */
module Scenarios {

  import opened Wrappers
  import opened Evaluator
  import opened Board
  import opened Search

  /** The position X X . / O O . / . . . as a grid. */
  function TwoInARow(): Grid
  {
    [Mark(X), Mark(X), Empty, Mark(O), Mark(O), Empty, Empty, Empty, Empty]
  }

  /** (0, 2) is available, and no available move comes before it. */
  lemma TwoInARowFirstMove()
    ensures Moves(TwoInARow()) != [] && Moves(TwoInARow())[0] == Coord(0, 2)
  {
    var g := TwoInARow();
    MovesExact(g, Coord(0, 2));
    MovesOrdered(g);
    var ms := Moves(g);
    var m :| 0 <= m < |ms| && ms[m] == Coord(0, 2);
    assert Flat(ms[0]) <= 2;
  }

  /** Playing (0, 2) completes the top row, which is worth 1 to X. */
  lemma TwoInARowFirstMoveWins()
    requires Moves(TwoInARow()) != [] && Moves(TwoInARow())[0] == Coord(0, 2)
    ensures ChildValues(TwoInARow(), true, Moves(TwoInARow()))[0] == 1
  {
    var g := TwoInARow();
    var won := Place(g, Coord(0, 2), X);
    assert Complete(won, 0) && LineOwner(won, 0) == Mark(X);
    assert CheckWinner(won) == Won(X);
    MinimaxTerminal(won, false);
    ChildValueAt(g, true, Moves(g), 0);
  }

  /**
   X X .
   O O .
   . . .
   X to move takes the top-right corner, the first available move and an
   immediate win.
   */
  method ImmediateWin() returns (best: Option<Coord>)
    ensures best == Some(Coord(0, 2))
  {
    var board := new Cell[9] [Mark(X), Mark(X), Empty, Mark(O), Mark(O), Empty, Empty, Empty, Empty];
    assert board[..] == TwoInARow();
    best := FindBestMove(board);
    TwoInARowFirstMove();
    TwoInARowFirstMoveWins();
    // No move scores above 1, and every move before the chosen one scores
    // strictly less than it, so the chosen one is the first.
    ghost var k :| FirstBest(TwoInARow(), k) && best.value == Moves(TwoInARow())[k];
    assert k == 0;
  }


  /** The position O O . / X X . / . . . as a grid. */
  function TwoThreats(): Grid
  {
    [Mark(O), Mark(O), Empty, Mark(X), Mark(X), Empty, Empty, Empty, Empty]
  }

  /** X to move is worth 1 as soon as one of its moves leads to a position worth 1. */
  lemma MaxReachesWin(g: Grid, c: Coord)
    requires CheckWinner(g) == Ongoing && At(g, c) == Empty
    requires MinimaxValue(Place(g, c, X), false) == 1
    ensures MinimaxValue(g, true) == 1
  {
    MinimaxOngoing(g, true);
    MovesExact(g, c);
    var ms := Moves(g);
    var k :| 0 <= k < |ms| && ms[k] == c;
    ChildValueAt(g, true, ms, k);
  }

  /** O to move is worth 1 when every reply of O leads to a position worth 1. */
  lemma MinCannotEscape(g: Grid)
    requires CheckWinner(g) == Ongoing
    requires forall c :: At(g, c) == Empty ==> MinimaxValue(Place(g, c, O), true) == 1
    ensures MinimaxValue(g, false) == 1
  {
    MinimaxOngoing(g, false);
    var ms := Moves(g);
    var vs := ChildValues(g, false, ms);
    forall k | 0 <= k < |vs| ensures vs[k] == 1 {
      ChildValueAt(g, false, ms, k);
    }
  }

  /** A move that completes a line for X is worth 1. */
  lemma WinningMove(g: Grid, c: Coord)
    requires At(g, c) == Empty && CheckWinner(Place(g, c, X)) == Won(X)
    ensures MinimaxValue(Place(g, c, X), false) == 1
  {
    MinimaxTerminal(Place(g, c, X), false);
  }

  /**
   After X takes (0, 2) on O O . / X X . / . . ., X threatens row 1 at (1, 2)
   and the anti-diagonal at (2, 0); O can block only one, so the position is
   worth 1.
   */
  lemma CornerForksThreats()
    ensures MinimaxValue(Place(TwoThreats(), Coord(0, 2), X), false) == 1
  {
    var h := Place(TwoThreats(), Coord(0, 2), X);
    assert h == [Mark(O), Mark(O), Mark(X), Mark(X), Mark(X), Empty, Empty, Empty, Empty];
    assert CheckWinner(h) == Ongoing;
    forall c | At(h, c) == Empty ensures MinimaxValue(Place(h, c, O), true) == 1 {
      var h2 := Place(h, c, O);
      assert Flat(c) in {5, 6, 7, 8};
      if Flat(c) == 5 {
        // O blocks row 1; X completes the anti-diagonal.
        assert h2 == [Mark(O), Mark(O), Mark(X), Mark(X), Mark(X), Mark(O), Empty, Empty, Empty];
        assert CheckWinner(h2) == Ongoing;
        var w := Place(h2, Coord(2, 0), X);
        assert !Complete(w, 0);
        assert CheckWinner(w) == Won(X);
        WinningMove(h2, Coord(2, 0));
        MaxReachesWin(h2, Coord(2, 0));
      } else {
        // O leaves row 1 open; X completes it.
        var w := Place(h2, Coord(1, 2), X);
        assert CheckWinner(h2) == Ongoing;
        assert Complete(w, 1);
        assert CheckWinner(w) == Won(X);
        WinningMove(h2, Coord(1, 2));
        MaxReachesWin(h2, Coord(1, 2));
      }
    }
    MinCannotEscape(h);
  }

  /** (0, 2) is available on O O . / X X . / . . ., and no available move comes before it. */
  lemma TwoThreatsFirstMove()
    ensures Moves(TwoThreats()) != [] && Moves(TwoThreats())[0] == Coord(0, 2)
  {
    var g := TwoThreats();
    MovesExact(g, Coord(0, 2));
    MovesOrdered(g);
    var ms := Moves(g);
    var m :| 0 <= m < |ms| && ms[m] == Coord(0, 2);
    assert Flat(ms[0]) <= 2;
  }

  /**
   O O .
   X X .
   . . .
   X to move could win at once at (1, 2), but (0, 2) blocks O's top row and
   forks two threats, so it too is worth 1; being the first available move,
   it is the one chosen.
   */
  method BlockAndFork() returns (best: Option<Coord>)
    ensures best == Some(Coord(0, 2))
  {
    var board := new Cell[9] [Mark(O), Mark(O), Empty, Mark(X), Mark(X), Empty, Empty, Empty, Empty];
    assert board[..] == TwoThreats();
    best := FindBestMove(board);
    TwoThreatsFirstMove();
    CornerForksThreats();
    ChildValueAt(TwoThreats(), true, Moves(TwoThreats()), 0);
    ghost var k :| FirstBest(TwoThreats(), k) && best.value == Moves(TwoThreats())[k];
    assert k == 0;
  }

  /**
   X O X
   X O O
   O X X
   A full board with no line is a tie, and leaves no move to choose.
   */
  method FullBoardTie() returns (outcome: Outcome, best: Option<Coord>)
    ensures outcome == Tie
    ensures best == None
  {
    var board := new Cell[9] [Mark(X), Mark(O), Mark(X), Mark(X), Mark(O), Mark(O), Mark(O), Mark(X), Mark(X)];
    outcome := CheckWinner(board[..]);
    MovesNoneIffFull(board[..]);
    best := FindBestMove(board);
  }

  /**
   O O O
   X X .
   X . .
   A board O has already won is terminal: minimax returns O's score at once.
   */
  method WonBoardScore() returns (score: int)
    ensures score == -1
  {
    var board := new Cell[9] [Mark(O), Mark(O), Mark(O), Mark(X), Mark(X), Empty, Mark(X), Empty, Empty];
    assert CheckWinner(board[..]) == Won(O);
    score := Minimax(board, true, NegInf, PosInf);
  }
}
