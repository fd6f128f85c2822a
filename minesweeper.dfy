/** The Minesweeper engine: a board of squares that share the running of
    the game.  A square reveals itself and, when it is a non-mine with no
    adjacent mines, asks the board to clear all around it; the board's
    "clear all around" (the chord) reveals neighbours, which may again
    cascade.  Rendering, icons, labels and Swing/JavaFX timers are not
    modelled; the board's random source is a sequence of draws that the
    caller supplies.
 */
module Minesweeper {
  import opened Neighbourhood

  /** The mouse button of a click on a square. */
  datatype Button = Left | Middle | Right

  /** One tile of the board. */
  class MineSquare {
    /** Row of this square on its board. */
    const xcoord: int
    /** Column of this square on its board. */
    const ycoord: int
    /** The board this square is part of. */
    const board: MinesweeperBoard
    var revealed: bool
    var isMine: bool
    var flagged: bool
    /** The number of mines among the in-bounds Moore neighbours. */
    var number: int
    var interactable: bool

    function Position(): Pos {
      (xcoord, ycoord)
    }

    /** A fresh square: hidden, no mine, no flag, accepting clicks. */
    constructor (x: int, y: int, theBoard: MinesweeperBoard)
      ensures xcoord == x && ycoord == y && board == theBoard
      ensures !revealed && !isMine && !flagged && interactable && number == 0
    {
      xcoord, ycoord, board := x, y, theBoard;
      revealed, isMine, flagged := false, false, false;
      number := 0;
      interactable := true;
    }

    method SetNumber(n: int)
      modifies this`number
      ensures number == n
    {
      number := n;
    }

    /** Makes this square a mine; setting it twice is the same as once. */
    method SetMine()
      modifies this`isMine
      ensures isMine
    {
      isMine := true;
    }

    method SetInteractable(b: bool)
      modifies this`interactable
      ensures interactable == b
    {
      interactable := b;
    }

    /** Flags a hidden, unflagged square and moves the board's counter of
        unflagged mines down by one; otherwise does nothing.  The board code
        moves the counter up instead; that is FlagAsWritten. */
    method Flag()
      requires this in board.Squares
      modifies this`flagged, board`currentNumMines
      ensures old(!revealed && !flagged) ==> flagged && board.currentNumMines == old(board.currentNumMines) - 1
      ensures old(revealed || flagged) ==> flagged == old(flagged) && board.currentNumMines == old(board.currentNumMines)
      ensures board.FlaggedSquares() == if flagged then old(board.FlaggedSquares()) + {this} else old(board.FlaggedSquares())
      // the counter plus the flags on the board is unchanged
      ensures board.currentNumMines + |board.FlaggedSquares()| == old(board.currentNumMines + |board.FlaggedSquares()|)
    {
      if !revealed && !flagged {
        flagged := true;
        assert board.FlaggedSquares() == old(board.FlaggedSquares()) + {this};
        board.DecrementMineCount();
      } else if flagged {
        assert old(board.FlaggedSquares()) + {this} == old(board.FlaggedSquares());
      }
    }

    /** Flag as the board code has it: the counter moves up with each flag,
        so it counts the flags on top of the mines instead of the mines
        left unflagged. */
    method FlagAsWritten()
      requires this in board.Squares
      modifies this`flagged, board`currentNumMines
      ensures old(!revealed && !flagged) ==> flagged && board.currentNumMines == old(board.currentNumMines) + 1
      ensures old(revealed || flagged) ==> flagged == old(flagged) && board.currentNumMines == old(board.currentNumMines)
      ensures board.FlaggedSquares() == if flagged then old(board.FlaggedSquares()) + {this} else old(board.FlaggedSquares())
      ensures board.currentNumMines - |board.FlaggedSquares()| == old(board.currentNumMines - |board.FlaggedSquares()|)
    {
      if !revealed && !flagged {
        flagged := true;
        assert board.FlaggedSquares() == old(board.FlaggedSquares()) + {this};
        board.IncrementMineCount();
      } else if flagged {
        assert old(board.FlaggedSquares()) + {this} == old(board.FlaggedSquares());
      }
    }

    /** Unflags a hidden, flagged square and moves the counter of unflagged
        mines up by one; otherwise does nothing.  This is the guard the
        method's documentation states; the code tests `!flagged` instead
        (UnflagAsWritten), and moves the counter down. */
    method Unflag()
      requires this in board.Squares
      modifies this`flagged, board`currentNumMines
      ensures old(!revealed && flagged) ==> !flagged && board.currentNumMines == old(board.currentNumMines) + 1
      ensures old(revealed || !flagged) ==> flagged == old(flagged) && board.currentNumMines == old(board.currentNumMines)
      ensures board.FlaggedSquares() == if flagged then old(board.FlaggedSquares()) else old(board.FlaggedSquares()) - {this}
      // the counter plus the flags on the board is unchanged
      ensures board.currentNumMines + |board.FlaggedSquares()| == old(board.currentNumMines + |board.FlaggedSquares()|)
    {
      if !revealed && flagged {
        flagged := false;
        assert board.FlaggedSquares() == old(board.FlaggedSquares()) - {this};
        board.IncrementMineCount();
      } else if !flagged {
        assert old(board.FlaggedSquares()) - {this} == old(board.FlaggedSquares());
      }
    }

    /** Unflag with the guard the board code actually tests: hidden and NOT
        flagged.  No flag is ever removed, and on a hidden unflagged square
        the counter moves down with no flag to account for it. */
    method UnflagAsWritten()
      requires this in board.Squares
      modifies this`flagged, board`currentNumMines
      ensures flagged == old(flagged) && board.FlaggedSquares() == old(board.FlaggedSquares())
      ensures old(!revealed && !flagged) ==> board.currentNumMines == old(board.currentNumMines) - 1
      ensures old(revealed || flagged) ==> board.currentNumMines == old(board.currentNumMines)
    {
      if !revealed && !flagged {
        flagged := false;
        board.DecrementMineCount();
      }
    }

    /** Reveals this square.  A mine does not cascade (the call that would end
        the game is disabled in the board code).  A non-mine whose number is 0
        asks the board to clear all around it: that back-call is the flood fill.
        It terminates because every nested reveal targets a hidden square. */
    method SetRevealed()
      requires board.Valid() && this in board.Squares
      modifies set s | s in board.Squares :: s`revealed
      decreases |board.Unrevealed()|, if revealed then 7 else 0
      ensures revealed
      ensures old(board.RevealedSquares()) <= board.RevealedSquares()
      // the cascade never reveals a flagged square (only this one may be flagged)
      ensures forall s :: s in board.RevealedSquares() - old(board.RevealedSquares()) && s != this ==> !s.flagged
      // a mine or a numbered square reveals only itself
      ensures isMine || number != 0 ==> board.RevealedSquares() == old(board.RevealedSquares()) + {this}
      // a zero square leaves no hidden, unflagged neighbour
      ensures !isMine && number == 0 ==> board.Settled(this)
      // every zero square the cascade uncovers was expanded in turn
      ensures forall s :: s in board.RevealedSquares() - old(board.RevealedSquares()) && board.Cascades(s) ==> board.Settled(s)
      // with correct numbers, the cascade uncovers no mine: only this square can be one
      ensures board.NoMineBesideZero() ==>
        forall s :: s in board.RevealedSquares() - old(board.RevealedSquares()) && s.isMine ==> s == this
      // every square it reveals is reached from this one through a chain of zero squares it uncovered
      ensures board.ReachedFrom({this}, board.RevealedSquares() - old(board.RevealedSquares()))
    {
      ghost var before := board.RevealedSquares();
      ghost var hidden := board.Unrevealed();
      revealed := true;
      assert board.RevealedSquares() == before + {this};
      assert board.Unrevealed() == hidden - {this};
      if isMine {
        // the board code has the call that fails the game commented out
        board.SeedAlone(this);
      } else if number == 0 {
        ghost var start := board.RevealedSquares();
        board.ClearAllAround(this);
        board.SeedReaches(this, before, start, board.RevealedSquares());
      } else {
        board.SeedAlone(this);
      }
    }

    /** The board's squareClicked on this hidden square, seen from the
        square: it is revealed with the cascade from it, and no flag changes. */
    method Reveal()
      requires board.Valid() && this in board.Squares && !revealed
      modifies set s | s in board.Squares :: s`revealed
      ensures revealed && board.FlaggedSquares() == old(board.FlaggedSquares())
      ensures board.RevealedFrom(this, old(board.RevealedSquares()))
    {
      board.SquareClicked(this);
    }

    /** The board's clearAllAround on this square, seen from the square: a
        refused chord changes nothing, an honoured one settles the square,
        what it reveals is a sound cascade from the square's neighbours, and
        no flag changes. */
    method Chord()
      requires board.Valid() && this in board.Squares
      modifies set s | s in board.Squares :: s`revealed
      ensures board.FlaggedSquares() == old(board.FlaggedSquares())
      ensures board.ChordAllowed(this) ==> board.Settled(this)
      ensures !board.ChordAllowed(this) ==> board.RevealedSquares() == old(board.RevealedSquares())
      ensures board.ChordedFrom(this, old(board.RevealedSquares()))
    {
      board.ClearAllAround(this);
    }

    /** The button dispatch of a click.  `doubleClick` says whether this left
        click is the second of a double click (the timing is the caller's). */
    method MouseClicked(button: Button, doubleClick: bool)
      requires board.Valid() && this in board.Squares
      modifies set s | s in board.Squares :: s`revealed, this`flagged, board`currentNumMines
      // a square that is not interactable ignores every click
      ensures !interactable ==>
        board.RevealedSquares() == old(board.RevealedSquares()) && flagged == old(flagged) &&
        board.currentNumMines == old(board.currentNumMines)
      // a right click on a hidden square toggles its flag
      ensures interactable && !old(revealed) && button == Right ==>
        flagged == !old(flagged) && board.RevealedSquares() == old(board.RevealedSquares()) &&
        board.currentNumMines == old(board.currentNumMines) + (if flagged then -1 else 1)
      // a left click on a hidden square reveals it, and the cascade from it
      ensures interactable && !old(revealed) && button == Left ==>
        revealed && flagged == old(flagged) && board.currentNumMines == old(board.currentNumMines) &&
        board.RevealedFrom(this, old(board.RevealedSquares()))
      // a middle click or a double click on a revealed square is a chord
      ensures interactable && old(revealed) && (button == Middle || (button == Left && doubleClick)) ==>
        flagged == old(flagged) && board.currentNumMines == old(board.currentNumMines) &&
        (board.ChordAllowed(this) ==> board.Settled(this)) &&
        (!board.ChordAllowed(this) ==> board.RevealedSquares() == old(board.RevealedSquares())) &&
        board.ChordedFrom(this, old(board.RevealedSquares()))
      // every other click changes nothing
      ensures interactable && ((old(revealed) && (button == Right || (button == Left && !doubleClick))) ||
                               (!old(revealed) && button == Middle)) ==>
        board.RevealedSquares() == old(board.RevealedSquares()) && flagged == old(flagged) &&
        board.currentNumMines == old(board.currentNumMines)
      // whatever the click, the counter moves against the number of flags on the board
      ensures board.currentNumMines + |board.FlaggedSquares()| == old(board.currentNumMines + |board.FlaggedSquares()|)
    {
      if interactable {
        if !revealed && button == Right {
          if flagged {
            Unflag();
          } else {
            Flag();
          }
        } else if button == Left {
          if !revealed {
            Reveal();
          } else if doubleClick {
            Chord();
          }
          // a first click on a revealed square only arms the double-click timer
        } else if revealed && button == Middle {
          Chord();
        }
      }
    }
  }

  /** The board: a boardHeight x boardWidth grid of squares, the mine
      counter shown to the player and the elapsed time. */
  class MinesweeperBoard {
    var board: array2<MineSquare?>
    const boardHeight: nat
    const boardWidth: nat
    const numMines: nat
    /** The counter the board shows as the number of mines. */
    var currentNumMines: int
    var time: int
    /** The squares of the current board. */
    ghost var Squares: set<MineSquare>

    /** Square (i, j) exists, stores coordinates (i, j) and belongs to this
        board, and Squares holds exactly the squares of the grid. */
    ghost predicate Valid()
      reads `board, `Squares, board
    {
      board.Length0 == boardHeight && board.Length1 == boardWidth &&
      (forall i, j :: 0 <= i < boardHeight && 0 <= j < boardWidth ==>
        board[i, j] != null && board[i, j] in Squares && board[i, j].xcoord == i && board[i, j].ycoord == j) &&
      (forall s :: s in Squares ==>
        s.board == this && 0 <= s.xcoord < boardHeight && 0 <= s.ycoord < boardWidth && board[s.xcoord, s.ycoord] == s)
    }

    ghost function RevealedSquares(): set<MineSquare>
      reads `Squares, set s | s in Squares :: s`revealed
    {
      set s | s in Squares && s.revealed
    }

    ghost function Unrevealed(): set<MineSquare>
      reads `Squares, set s | s in Squares :: s`revealed
    {
      Squares - RevealedSquares()
    }

    ghost function FlaggedSquares(): set<MineSquare>
      reads `Squares, set s | s in Squares :: s`flagged
    {
      set s | s in Squares && s.flagged
    }

    ghost function MineSquares(): set<MineSquare>
      reads `Squares, set s | s in Squares :: s`isMine
    {
      set s | s in Squares && s.isMine
    }

    ghost function Positions(S: set<MineSquare>): set<Pos> {
      set s | s in S :: s.Position()
    }

    /** The numbers of all squares agree with the mines placed. */
    ghost predicate NumbersCorrect()
      reads `Squares, set s | s in Squares :: s`isMine, set s | s in Squares :: s`number
    {
      forall s :: s in Squares ==>
        s.number == AdjacentCount(boardHeight, boardWidth, s.Position(), Positions(MineSquares()))
    }

    /** s is a non-mine with no adjacent mine: revealing it cascades. */
    ghost predicate Cascades(s: MineSquare)
      reads s`isMine, s`number
    {
      !s.isMine && s.number == 0
    }

    /** s is a Moore neighbour of a square in newly that cascades: it was
        reached by the flood fill through one of those squares. */
    ghost predicate FedBy(s: MineSquare, newly: set<MineSquare>)
      reads set t | t in newly :: t`isMine, set t | t in newly :: t`number
    {
      exists t :: t in newly && Cascades(t) && Adjacent(t.Position(), s.Position())
    }

    /** C is closed under the cascade within N: every square of N beside a
        cascading square of C is in C. */
    ghost predicate ClosedIn(C: set<MineSquare>, N: set<MineSquare>)
      reads set t | t in C :: t`isMine, set t | t in C :: t`number
    {
      forall t, u {:trigger Adjacent(t.Position(), u.Position())} :: t in C && Cascades(t) && u in N && Adjacent(t.Position(), u.Position()) ==> u in C
    }

    /** Every square of N is reached from the seeds A by a chain of squares
        of N, each beside a cascading one before it: the only part of N that
        holds A and is closed under the cascade is N itself. */
    ghost predicate ReachedFrom(A: set<MineSquare>, N: set<MineSquare>)
      reads set t | t in N :: t`isMine, set t | t in N :: t`number
    {
      forall C {:trigger ClosedIn(C, N)} :: A <= C <= N && ClosedIn(C, N) ==> C == N
    }

    /** The squares of N beside x. */
    ghost function Beside(x: MineSquare, N: set<MineSquare>): set<MineSquare> {
      set u | u in N && Adjacent(x.Position(), u.Position())
    }

    /** A chord that reveals nothing reaches nothing. */
    lemma NothingReached(x: MineSquare, R: set<MineSquare>, before: set<MineSquare>)
      requires R == before
      ensures ReachedFrom(Beside(x, R - before), R - before)
    {
      assert R - before == {};
    }

    /** What revealing x did since the squares in before were revealed:
        the revealed set only grew, no flagged square but x was revealed,
        every zero square uncovered is settled, and everything revealed is
        reached from x. */
    ghost predicate RevealedFrom(x: MineSquare, before: set<MineSquare>)
      reads `Squares, set t | t in Squares :: t`revealed, set t | t in Squares :: t`flagged,
        set t | t in Squares :: t`isMine, set t | t in Squares :: t`number
    {
      before <= RevealedSquares() &&
      (forall s :: s in RevealedSquares() - before && s != x ==> !s.flagged) &&
      (forall s :: s in RevealedSquares() - before && Cascades(s) ==> Settled(s)) &&
      ReachedFrom({x}, RevealedSquares() - before)
    }

    /** What a chord on x did since the squares in before were revealed:
        the revealed set only grew, no flagged square was revealed, every
        zero square uncovered is settled, and everything revealed is reached
        from the revealed neighbours of x. */
    ghost predicate ChordedFrom(x: MineSquare, before: set<MineSquare>)
      reads `Squares, set t | t in Squares :: t`revealed, set t | t in Squares :: t`flagged,
        set t | t in Squares :: t`isMine, set t | t in Squares :: t`number
    {
      before <= RevealedSquares() &&
      (forall s :: s in RevealedSquares() - before ==> !s.flagged) &&
      (forall s :: s in RevealedSquares() - before && Cascades(s) ==> Settled(s)) &&
      ReachedFrom(Beside(x, RevealedSquares() - before), RevealedSquares() - before)
    }

    /** A square that reveals only itself reaches itself. */
    lemma SeedAlone(x: MineSquare)
      ensures ReachedFrom({x}, {x})
    {
    }

    /** What a zero square x reveals: itself, taking the revealed squares
        from before to start, then the chord around it, taking them from
        start to R and reaching its squares from those beside x. */
    lemma SeedReaches(x: MineSquare, before: set<MineSquare>, start: set<MineSquare>, R: set<MineSquare>)
      requires Cascades(x) && start == before + {x} && start <= R
      requires ReachedFrom(Beside(x, R - start), R - start)
      ensures ReachedFrom({x}, R - before)
    {
      if x !in before {
        var M := R - start;
        assert R - before == M + {x};
        forall C | {x} <= C <= M + {x} && ClosedIn(C, M + {x})
          ensures C == M + {x}
        {
          var D := C - {x};
          assert Beside(x, M) <= D;
          assert ClosedIn(D, M);
        }
      }
    }

    /** A chord that has reached A from the squares beside sender and then
        reveals y, a neighbour of sender, together with the squares B reached
        from y, has reached A + B from the squares beside sender. */
    lemma ReachGrows(sender: MineSquare, A: set<MineSquare>, B: set<MineSquare>, y: MineSquare)
      requires ReachedFrom(Beside(sender, A), A)
      requires B == {} || (y in B && Adjacent(sender.Position(), y.Position()) && ReachedFrom({y}, B))
      ensures ReachedFrom(Beside(sender, A + B), A + B)
    {
      forall C | Beside(sender, A + B) <= C <= A + B && ClosedIn(C, A + B)
        ensures C == A + B
      {
        assert Beside(sender, A) <= C * A;
        assert ClosedIn(C * A, A);
        if B != {} {
          assert {y} <= C * B;
          assert ClosedIn(C * B, B);
        }
      }
    }

    /** Reachability gives the one-step form: every square of N outside the
        seeds is beside a cascading square of N. */
    lemma ReachedIsFed(A: set<MineSquare>, N: set<MineSquare>)
      requires A <= N && ReachedFrom(A, N)
      ensures forall s :: s in N && s !in A ==> FedBy(s, N)
    {
      var C := A + set s | s in N && FedBy(s, N);
      assert ClosedIn(C, N);
    }

    /** No neighbour of s is hidden and unflagged. */
    ghost predicate Settled(s: MineSquare)
      reads `Squares, set t | t in Squares :: t`revealed, set t | t in Squares :: t`flagged
    {
      forall t :: t in Squares && Adjacent(s.Position(), t.Position()) ==> t.revealed || t.flagged
    }

    /** The chord on s is honoured: its flagged-neighbour count equals its
        number, or its number is 0. */
    ghost predicate ChordAllowed(s: MineSquare)
      reads `Squares, set t | t in Squares :: t`flagged, s`number
    {
      s.number == 0 || AdjacentCount(boardHeight, boardWidth, s.Position(), Positions(FlaggedSquares())) == s.number
    }

    /** No square numbered 0 has a mine among its neighbours. */
    ghost predicate NoMineBesideZero()
      reads `Squares, set t | t in Squares :: t`isMine, set t | t in Squares :: t`number
    {
      forall s, t :: s in Squares && t in Squares && s.number == 0 && Adjacent(s.Position(), t.Position()) ==> !t.isMine
    }

    /** Correct numbers put no mine beside a square numbered 0. */
    lemma ZeroIsSafe()
      requires Valid() && NumbersCorrect()
      ensures NoMineBesideZero()
    {
      forall s, t | s in Squares && t in Squares && s.number == 0 && Adjacent(s.Position(), t.Position())
        ensures !t.isMine
      {
        PositionAt(MineSquares(), t.Position());
        NoneMarkedAround(boardHeight, boardWidth, s.Position(), Positions(MineSquares()), t.Position());
      }
    }

    /** Every flag is on a mine. */
    ghost predicate FlagsOnMines()
      reads `Squares, set t | t in Squares :: t`flagged, set t | t in Squares :: t`isMine
    {
      FlaggedSquares() <= MineSquares()
    }

    /** No unflagged neighbour of s is a mine. */
    ghost predicate NeighboursSafe(s: MineSquare)
      reads `Squares, set t | t in Squares :: t`flagged, set t | t in Squares :: t`isMine
    {
      forall t :: t in Squares && Adjacent(s.Position(), t.Position()) && !t.flagged ==> !t.isMine
    }

    /** A chord the board honours is safe when the numbers are correct and
        the square's number is 0 or all flags lie on mines. */
    lemma ChordIsSafe(s: MineSquare)
      requires Valid() && s in Squares && NumbersCorrect() && ChordAllowed(s)
      requires s.number == 0 || FlagsOnMines()
      ensures NeighboursSafe(s)
    {
      var mines, flags := Positions(MineSquares()), Positions(FlaggedSquares());
      forall t | t in Squares && Adjacent(s.Position(), t.Position()) && !t.flagged
        ensures !t.isMine
      {
        PositionAt(MineSquares(), t.Position());
        if s.number == 0 {
          NoneMarkedAround(boardHeight, boardWidth, s.Position(), mines, t.Position());
        } else {
          PositionAt(FlaggedSquares(), t.Position());
          FlagsCoverMines(boardHeight, boardWidth, s.Position(), mines, flags, t.Position());
        }
      }
    }

    lemma PositionAt(S: set<MineSquare>, p: Pos)
      requires Valid() && S <= Squares
      ensures p in Positions(S) <==> InBounds(boardHeight, boardWidth, p) && board[p.0, p.1] in S
    {
      if InBounds(boardHeight, boardWidth, p) && board[p.0, p.1] in S {
        assert board[p.0, p.1].Position() == p;
      }
    }

    /** Distinct squares of a valid board sit at distinct positions. */
    lemma {:induction false} PositionsSize(S: set<MineSquare>)
      requires Valid() && S <= Squares
      ensures |Positions(S)| == |S|
      decreases |S|
    {
      if S != {} {
        var x :| x in S;
        PositionsSize(S - {x});
        assert Positions(S) == Positions(S - {x}) + {x.Position()};
        assert x.Position() !in Positions(S - {x});
      }
    }

    /** A valid board holds exactly boardHeight * boardWidth squares. */
    lemma SquaresCount()
      requires Valid()
      ensures |Squares| == boardHeight * boardWidth
    {
      PositionsSize(Squares);
      forall p | p in Cells(boardHeight, boardWidth)
        ensures p in Positions(Squares)
      {
        assert board[p.0, p.1].Position() == p;
      }
      assert Positions(Squares) == Cells(boardHeight, boardWidth);
      CellsSize(boardHeight, boardWidth);
    }

    /** A board of the given size whose game has begun, as the application's
        start-up does: the counter starts at the number of mines. */
    constructor (height: nat, width: nat, mines: nat, draws: seq<Pos>)
      requires forall k :: 0 <= k < |draws| ==> InBounds(height, width, draws[k])
      ensures boardHeight == height && boardWidth == width && numMines == mines
      ensures Valid() && NumbersCorrect() && currentNumMines == mines && time == 0
      ensures Untouched()
      // the counter starts at the number of mines left unflagged
      ensures currentNumMines + |FlaggedSquares()| == numMines
      ensures |MineSquares()| <= numMines
      ensures Positions(MineSquares()) <= Drawn(draws)
      ensures |MineSquares()| == numMines <==> numMines <= |Drawn(draws)|
      ensures |MineSquares()| < numMines ==> Positions(MineSquares()) == Drawn(draws)
    {
      boardHeight, boardWidth, numMines := height, width, mines;
      currentNumMines := mines;
      time := 0;
      board := new MineSquare?[0, 0];
      Squares := {};
      new;
      var placed := NewGame(draws);
      assert FlaggedSquares() == {};
    }

    /** Starts a new game: a fresh grid, mines placed by rejection sampling
        over the supplied draws, and every square's number.  The time is reset,
        the mine counter is not.  `placed` is false when the draws ran out
        before all mines were placed (the board code would keep drawing). */
    method NewGame(draws: seq<Pos>) returns (placed: bool)
      requires forall k :: 0 <= k < |draws| ==> InBounds(boardHeight, boardWidth, draws[k])
      modifies `board, `Squares, `time
      ensures Valid() && fresh(board) && fresh(Squares) && NumbersCorrect()
      ensures Untouched()
      ensures |MineSquares()| <= numMines
      ensures placed <==> |MineSquares()| == numMines
      ensures placed ==> numMines <= boardHeight * boardWidth
      // the mines sit at drawn positions; placement completes exactly when the draws
      // hold numMines distinct positions, and otherwise every drawn position is a mine
      ensures Positions(MineSquares()) <= Drawn(draws)
      ensures !placed ==> Positions(MineSquares()) == Drawn(draws)
      ensures placed <==> numMines <= |Drawn(draws)|
      ensures time == 0 && currentNumMines == old(currentNumMines)
    {
      BuildBoard();
      placed := Populate(draws);
      ghost var mines := MineSquares();
      time := 0;
      assert MineSquares() == mines;
    }

    /** A new game that also sets the counter back to the number of mines,
        as start-up does: the fresh grid holds no flag, so the counter again
        holds the mines not yet flagged.  NewGame itself keeps the counter. */
    method Restart(draws: seq<Pos>) returns (placed: bool)
      requires forall k :: 0 <= k < |draws| ==> InBounds(boardHeight, boardWidth, draws[k])
      modifies `board, `Squares, `time, `currentNumMines
      ensures Valid() && fresh(board) && fresh(Squares) && NumbersCorrect() && Untouched()
      ensures placed <==> |MineSquares()| == numMines
      ensures Positions(MineSquares()) <= Drawn(draws)
      ensures placed <==> numMines <= |Drawn(draws)|
      ensures time == 0
      // the counter holds the mines not yet flagged
      ensures currentNumMines + |FlaggedSquares()| == numMines
    {
      placed := NewGame(draws);
      ghost var mines := MineSquares();
      currentNumMines := numMines;
      assert MineSquares() == mines;
      assert FlaggedSquares() == {};
    }

    /** The two passes of a new game over a fresh grid: mines first, then
        every square's number. */
    method Populate(draws: seq<Pos>) returns (placed: bool)
      requires Valid() && Untouched() && MineSquares() == {}
      requires forall k :: 0 <= k < |draws| ==> InBounds(boardHeight, boardWidth, draws[k])
      modifies set s | s in Squares :: s`isMine, set s | s in Squares :: s`number
      ensures NumbersCorrect()
      ensures |MineSquares()| <= numMines
      ensures placed <==> |MineSquares()| == numMines
      ensures placed ==> numMines <= boardHeight * boardWidth
      // the mines sit at drawn positions; placement completes exactly when the draws
      // hold numMines distinct positions, and otherwise every drawn position is a mine
      ensures Positions(MineSquares()) <= Drawn(draws)
      ensures !placed ==> Positions(MineSquares()) == Drawn(draws)
      ensures placed <==> numMines <= |Drawn(draws)|
    {
      placed := PlaceMines(draws);
      DrawsCount(draws, placed);
      ghost var mines := MineSquares();
      SquaresCount();
      SetNumbers();
      assert MineSquares() == mines;
    }

    /** The grid of fresh squares: square (i, j) has coordinates (i, j). */
    method BuildBoard()
      modifies `board, `Squares
      ensures Valid() && fresh(board) && fresh(Squares)
      ensures Untouched() && MineSquares() == {}
    {
      var grid := new MineSquare?[boardHeight, boardWidth];
      for i := 0 to boardHeight
        invariant forall i', j' :: 0 <= i' < i && 0 <= j' < boardWidth ==>
          fresh(grid[i', j']) && Pristine(grid[i', j']) && grid[i', j'].Position() == (i', j')
      {
        for j := 0 to boardWidth
          invariant forall i', j' :: 0 <= i' <= i && 0 <= j' < boardWidth && (i' < i || j' < j) ==>
            fresh(grid[i', j']) && Pristine(grid[i', j']) && grid[i', j'].Position() == (i', j')
        {
          grid[i, j] := new MineSquare(i, j, this);
        }
      }
      board := grid;
      Squares := set i, j | 0 <= i < boardHeight && 0 <= j < boardWidth :: grid[i, j];
    }

    /** No square is revealed or flagged, and every square accepts clicks:
        the board as a game begins. */
    ghost predicate Untouched()
      reads `Squares, set s | s in Squares :: s`revealed, set s | s in Squares :: s`flagged,
        set s | s in Squares :: s`interactable
    {
      forall s :: s in Squares ==> !s.revealed && !s.flagged && s.interactable
    }

    /** s is a square of this board as it is created: hidden, no mine, no
        flag, accepting clicks. */
    ghost predicate Pristine(s: MineSquare?)
      reads s
    {
      s != null && s.board == this &&
      !s.revealed && !s.isMine && !s.flagged && s.interactable && s.number == 0
    }

    /** Places numMines mines: for each, draw positions until one is not yet
        a mine, then make it a mine. */
    method PlaceMines(draws: seq<Pos>) returns (placed: bool)
      requires Valid() && MineSquares() == {}
      requires forall k :: 0 <= k < |draws| ==> InBounds(boardHeight, boardWidth, draws[k])
      modifies set s | s in Squares :: s`isMine
      ensures |MineSquares()| <= numMines
      ensures placed <==> |MineSquares()| == numMines
      ensures placed ==> numMines <= |Squares|
      // every mine is at a drawn position, and when the draws run out every drawn position is a mine
      ensures forall s :: s in MineSquares() ==> s.Position() in draws
      ensures !placed ==> forall k :: 0 <= k < |draws| ==> draws[k] in Positions(MineSquares())
    {
      var d := 0;
      for k := 0 to numMines
        invariant 0 <= d <= |draws|
        invariant |MineSquares()| == k
        invariant forall s :: s in MineSquares() ==> s.Position() in draws[..d]
        invariant forall k' :: 0 <= k' < d ==> board[draws[k'].0, draws[k'].1].isMine
      {
        var randomSquare, next := PlaceOne(draws, d);
        if randomSquare == null {
          DrawsAllMines(draws);
          return false;
        }
        PrefixGrows(draws, d, next);
        d := next;
        assert randomSquare.Position() == draws[..d][d - 1];
      }
      SubsetSize(MineSquares(), Squares);
      assert draws[..d] <= draws;
      return true;
    }

    /** One round of the placement: draw until a square is not a mine, then
        make it one.  A null square means the draws ran out. */
    method PlaceOne(draws: seq<Pos>, d: nat) returns (randomSquare: MineSquare?, next: nat)
      requires Valid() && d <= |draws|
      requires forall k :: 0 <= k < |draws| ==> 0 <= draws[k].0 < boardHeight && 0 <= draws[k].1 < boardWidth
      requires forall k :: 0 <= k < d ==> board[draws[k].0, draws[k].1].isMine
      modifies set s | s in Squares :: s`isMine
      ensures d <= next <= |draws|
      ensures forall k :: 0 <= k < next ==> board[draws[k].0, draws[k].1].isMine
      ensures randomSquare == null ==> next == |draws| && MineSquares() == old(MineSquares())
      ensures randomSquare != null ==>
        d < next && randomSquare !in old(MineSquares()) && MineSquares() == old(MineSquares()) + {randomSquare} &&
        randomSquare.Position() == draws[next - 1]
    {
      randomSquare, next := DrawSquare(draws, d);
      if randomSquare != null {
        ghost var mines := MineSquares();
        randomSquare.SetMine();
        assert MineSquares() == mines + {randomSquare};
      }
    }

    /** One round of the placement's do-while: draw positions from d on until
        one holds no mine.  A null square means the draws ran out, each of
        them a mine; otherwise the square drawn last is not a mine, and every
        square drawn before it is. */
    method DrawSquare(draws: seq<Pos>, d: nat) returns (randomSquare: MineSquare?, next: nat)
      requires Valid() && d <= |draws|
      requires forall k :: 0 <= k < |draws| ==> 0 <= draws[k].0 < boardHeight && 0 <= draws[k].1 < boardWidth
      requires forall k :: 0 <= k < d ==> board[draws[k].0, draws[k].1].isMine
      ensures d <= next <= |draws|
      ensures randomSquare == null ==> next == |draws| && forall k :: 0 <= k < |draws| ==> board[draws[k].0, draws[k].1].isMine
      ensures randomSquare != null ==>
        d < next && randomSquare == board[draws[next - 1].0, draws[next - 1].1] && !randomSquare.isMine &&
        randomSquare in Squares && forall k :: 0 <= k < next - 1 ==> board[draws[k].0, draws[k].1].isMine
    {
      if d == |draws| {
        return null, d;
      }
      randomSquare := board[draws[d].0, draws[d].1];
      next := d + 1;
      while randomSquare.isMine
        invariant d < next <= |draws| && randomSquare == board[draws[next - 1].0, draws[next - 1].1]
        invariant forall k :: 0 <= k < next - 1 ==> board[draws[k].0, draws[k].1].isMine
        decreases |draws| - next
      {
        if next == |draws| {
          return null, next;
        }
        randomSquare := board[draws[next].0, draws[next].1];
        next := next + 1;
      }
    }

    /** A position among the first d draws is among the first e >= d. */
    lemma PrefixGrows(draws: seq<Pos>, d: nat, e: nat)
      requires d <= e <= |draws|
      ensures forall p :: p in draws[..d] ==> p in draws[..e]
    {
      assert draws[..d] == draws[..e][..d];
    }

    /** What the placement leaves, counted: its mines sit at distinct drawn
        positions, so it completes exactly when the draws hold numMines
        distinct positions. */
    lemma DrawsCount(draws: seq<Pos>, placed: bool)
      requires Valid()
      requires placed <==> |MineSquares()| == numMines
      requires forall s :: s in MineSquares() ==> s.Position() in draws
      requires !placed ==> forall k :: 0 <= k < |draws| ==> draws[k] in Positions(MineSquares())
      requires |MineSquares()| <= numMines
      ensures Positions(MineSquares()) <= Drawn(draws)
      ensures !placed ==> Positions(MineSquares()) == Drawn(draws)
      ensures placed <==> numMines <= |Drawn(draws)|
    {
      var mines := Positions(MineSquares());
      forall p | p in mines
        ensures p in Drawn(draws)
      {
        var s :| s in MineSquares() && s.Position() == p;
        var k :| 0 <= k < |draws| && draws[k] == p;
      }
      PositionsSize(MineSquares());
      SubsetSize(mines, Drawn(draws));
      if !placed {
        assert Drawn(draws) <= mines;
      }
    }

    /** When every drawn square is a mine, every drawn position is a mine's. */
    lemma DrawsAllMines(draws: seq<Pos>)
      requires Valid()
      requires forall k :: 0 <= k < |draws| ==> 0 <= draws[k].0 < boardHeight && 0 <= draws[k].1 < boardWidth
      requires forall k :: 0 <= k < |draws| ==> board[draws[k].0, draws[k].1].isMine
      ensures forall k :: 0 <= k < |draws| ==> draws[k] in Positions(MineSquares())
    {
      forall k | 0 <= k < |draws|
        ensures draws[k] in Positions(MineSquares())
      {
        PositionAt(MineSquares(), draws[k]);
      }
    }

    /** Sets every square's number to its adjacent-mine count. */
    method SetNumbers()
      requires Valid()
      modifies set s | s in Squares :: s`number
      ensures NumbersCorrect()
      ensures forall s :: s in Squares ==> 0 <= s.number <= 8
    {
      ghost var mines := Positions(MineSquares());
      for i := 0 to boardHeight
        invariant Positions(MineSquares()) == mines
        invariant forall s :: s in Squares && s.xcoord < i ==>
          s.number == AdjacentCount(boardHeight, boardWidth, s.Position(), mines)
      {
        SetRowNumbers(i, mines);
      }
    }

    /** Sets the numbers of row i, left to right. */
    method SetRowNumbers(i: nat, ghost mines: set<Pos>)
      requires Valid() && i < boardHeight && mines == Positions(MineSquares())
      modifies set s | s in Squares && s.xcoord == i :: s`number
      ensures Positions(MineSquares()) == mines
      ensures forall s :: s in Squares && s.xcoord == i ==>
        s.number == AdjacentCount(boardHeight, boardWidth, s.Position(), mines)
    {
      for j := 0 to boardWidth
        invariant Positions(MineSquares()) == mines
        invariant forall s :: s in Squares && s.xcoord == i && s.ycoord < j ==>
          s.number == AdjacentCount(boardHeight, boardWidth, s.Position(), mines)
      {
        var mineCount := MinesAround(i, j);
        board[i, j].SetNumber(mineCount);
      }
    }

    /** The number of mines among the in-bounds Moore neighbours of (i, j):
        the eight neighbours are tested in the board code's order, each only
        when it lies on the board. */
    method MinesAround(i: int, j: int) returns (mineCount: nat)
      requires Valid() && InBounds(boardHeight, boardWidth, (i, j))
      ensures mineCount == AdjacentCount(boardHeight, boardWidth, (i, j), Positions(MineSquares()))
    {
      ghost var marked := Positions(MineSquares());
      mineCount := 0;
      for k := 0 to |Offsets|
        invariant mineCount == CountOver(boardHeight, boardWidth, (i, j), marked, Offsets[..k])
      {
        var q := Shift((i, j), Offsets[k]);
        assert Offsets[..k + 1] == Offsets[..k] + [Offsets[k]];
        CountOverSnoc(boardHeight, boardWidth, (i, j), marked, Offsets[..k], Offsets[k]);
        if InBounds(boardHeight, boardWidth, q) {
          PositionAt(MineSquares(), q);
        }
        if InBounds(boardHeight, boardWidth, q) && board[q.0, q.1].isMine {
          mineCount := mineCount + 1;
        }
      }
      assert Offsets[..|Offsets|] == Offsets;
    }

    /** The number of flagged squares among the in-bounds Moore neighbours of
        (i, j), tested in the same order.  Row bounds are checked against the
        height and column bounds against the width, and the east neighbour is
        included. */
    method FlaggedAround(i: int, j: int) returns (minesAround: nat)
      requires Valid() && InBounds(boardHeight, boardWidth, (i, j))
      ensures minesAround == AdjacentCount(boardHeight, boardWidth, (i, j), Positions(FlaggedSquares()))
    {
      ghost var marked := Positions(FlaggedSquares());
      minesAround := 0;
      for k := 0 to |Offsets|
        invariant minesAround == CountOver(boardHeight, boardWidth, (i, j), marked, Offsets[..k])
      {
        var q := Shift((i, j), Offsets[k]);
        assert Offsets[..k + 1] == Offsets[..k] + [Offsets[k]];
        CountOverSnoc(boardHeight, boardWidth, (i, j), marked, Offsets[..k], Offsets[k]);
        if InBounds(boardHeight, boardWidth, q) {
          PositionAt(FlaggedSquares(), q);
        }
        if InBounds(boardHeight, boardWidth, q) && board[q.0, q.1].flagged {
          minesAround := minesAround + 1;
        }
      }
      assert Offsets[..|Offsets|] == Offsets;
    }

    /** A click on a hidden square reveals it; on a revealed one, nothing. */
    method SquareClicked(sender: MineSquare)
      requires Valid() && sender in Squares
      modifies set s | s in Squares :: s`revealed
      ensures old(sender.revealed) ==> RevealedSquares() == old(RevealedSquares())
      ensures sender.revealed && old(RevealedSquares()) <= RevealedSquares()
      ensures forall s :: s in RevealedSquares() - old(RevealedSquares()) && s != sender ==> !s.flagged
      ensures forall s :: s in RevealedSquares() - old(RevealedSquares()) && Cascades(s) ==> Settled(s)
      ensures NoMineBesideZero() ==> forall s :: s in RevealedSquares() - old(RevealedSquares()) && s.isMine ==> s == sender
      ensures ReachedFrom({sender}, RevealedSquares() - old(RevealedSquares()))
    {
      if sender.revealed {
        return;
      }
      sender.SetRevealed();
    }

    /** Counts the flags around the sender and, when that count equals its
        number or its number is 0, reveals every neighbour that is neither
        flagged nor revealed. */
    method ClearAllAround(sender: MineSquare)
      requires Valid() && sender in Squares
      modifies set s | s in Squares :: s`revealed
      decreases |Unrevealed()|, 6
      ensures old(RevealedSquares()) <= RevealedSquares()
      ensures forall s :: s in RevealedSquares() - old(RevealedSquares()) ==> !s.flagged
      ensures !ChordAllowed(sender) ==> RevealedSquares() == old(RevealedSquares())
      ensures ChordAllowed(sender) ==> Settled(sender)
      ensures forall s :: s in RevealedSquares() - old(RevealedSquares()) && Cascades(s) ==> Settled(s)
      // a chord on a zero square, or one whose flags all lie on mines, uncovers no mine
      ensures NoMineBesideZero() && (sender.number == 0 || NeighboursSafe(sender)) ==>
        forall s :: s in RevealedSquares() - old(RevealedSquares()) ==> !s.isMine
      // it reveals only what the cascade reaches from the sender's neighbours
      ensures ReachedFrom(Beside(sender, RevealedSquares() - old(RevealedSquares())), RevealedSquares() - old(RevealedSquares()))
    {
      var minesAround := FlaggedAround(sender.xcoord, sender.ycoord);
      assert RevealedSquares() == old(RevealedSquares());
      ghost var allowed := ChordAllowed(sender);
      if minesAround == sender.number || sender.number == 0 {
        RevealNeighbours(sender);
        assert ChordAllowed(sender) == allowed;
      } else {
        NothingReached(sender, RevealedSquares(), old(RevealedSquares()));
      }
    }

    /** The second half of the chord: each of the eight neighbours, in the
        board code's order and bounded by the true height and width, is
        revealed when it is neither flagged nor revealed. */
    method RevealNeighbours(sender: MineSquare)
      requires Valid() && sender in Squares
      modifies set s | s in Squares :: s`revealed
      decreases |Unrevealed()|, 5
      ensures old(RevealedSquares()) <= RevealedSquares()
      ensures forall s :: s in RevealedSquares() - old(RevealedSquares()) ==> !s.flagged
      ensures Settled(sender)
      ensures forall s :: s in RevealedSquares() - old(RevealedSquares()) && Cascades(s) ==> Settled(s)
      ensures NoMineBesideZero() && NeighboursSafe(sender) ==>
        forall s :: s in RevealedSquares() - old(RevealedSquares()) ==> !s.isMine
      ensures ReachedFrom(Beside(sender, RevealedSquares() - old(RevealedSquares())), RevealedSquares() - old(RevealedSquares()))
    {
      for k := 0 to |Offsets|
        invariant Unrevealed() <= old(Unrevealed())
        invariant ChordProgress(sender, old(RevealedSquares()), k)
      {
        SubsetSize(Unrevealed(), old(Unrevealed()));
        RevealStep(sender, old(RevealedSquares()), k);
      }
      ChordComplete(sender, old(RevealedSquares()));
    }

    /** Once all eight offsets are handled, no neighbour of sender is hidden
        and unflagged. */
    lemma ChordComplete(sender: MineSquare, before: set<MineSquare>)
      requires Valid() && sender in Squares
      requires ChordProgress(sender, before, |Offsets|)
      ensures Settled(sender)
    {
      assert Offsets[..|Offsets|] == Offsets;
      forall t | t in Squares && Adjacent(sender.Position(), t.Position())
        ensures t.revealed || t.flagged
      {
        assert t in Around(sender, |Offsets|);
      }
    }

    /** Against the squares revealed before some reveal began: it only grew
        the revealed set, revealed no flagged square, and expanded every zero
        square it uncovered. */
    ghost predicate CascadeSound(before: set<MineSquare>)
      reads `Squares, set t | t in Squares :: t`revealed, set t | t in Squares :: t`flagged,
        set t | t in Squares :: t`isMine, set t | t in Squares :: t`number
    {
      before <= RevealedSquares() &&
      (forall s :: s in RevealedSquares() - before ==> !s.flagged) &&
      (forall s :: s in RevealedSquares() - before && Cascades(s) ==> Settled(s))
    }

    /** The squares at the first k offsets from sender. */
    ghost function Around(sender: MineSquare, k: int): set<MineSquare>
      requires 0 <= k <= |Offsets|
      reads `Squares
    {
      set u | u in Squares && (u.xcoord - sender.xcoord, u.ycoord - sender.ycoord) in Offsets[..k]
    }

    /** The squares at the first k + 1 offsets are those at the first k and
        the square at offset k, when it is on the board. */
    lemma AroundStep(sender: MineSquare, k: nat)
      requires Valid() && sender in Squares && k < |Offsets|
      ensures var q := Shift(sender.Position(), Offsets[k]);
        Around(sender, k + 1) ==
          Around(sender, k) + if InBounds(boardHeight, boardWidth, q) then {board[q.0, q.1]} else {}
    {
      assert Offsets[..k + 1] == Offsets[..k] + [Offsets[k]];
    }

    /** What the chord on sender has achieved after its first k offsets: the
        reveals so far are sound, each neighbour at those k offsets is revealed
        or flagged, and no mine was uncovered when no mine was at stake. */
    ghost predicate ChordProgress(sender: MineSquare, before: set<MineSquare>, k: int)
      requires 0 <= k <= |Offsets|
      reads `Squares, set t | t in Squares :: t`revealed, set t | t in Squares :: t`flagged,
        set t | t in Squares :: t`isMine, set t | t in Squares :: t`number
    {
      CascadeSound(before) &&
      Around(sender, k) <= RevealedSquares() + FlaggedSquares() &&
      (NoMineBesideZero() && NeighboursSafe(sender) ==> forall s :: s in RevealedSquares() - before ==> !s.isMine) &&
      Local(sender, before)
    }

    /** Every square revealed since before is reached by the cascade from
        the neighbours of sender revealed since before. */
    ghost predicate Local(sender: MineSquare, before: set<MineSquare>)
      reads `Squares, set t | t in Squares :: t`revealed, set t | t in Squares :: t`isMine,
        set t | t in Squares :: t`number
    {
      ReachedFrom(Beside(sender, RevealedSquares() - before), RevealedSquares() - before)
    }

    /** One iteration of the chord: the neighbour at offset k is revealed when
        it is hidden and unflagged, and the progress of the chord carries over. */
    method RevealStep(sender: MineSquare, ghost before: set<MineSquare>, k: nat)
      requires Valid() && sender in Squares && k < |Offsets|
      requires ChordProgress(sender, before, k)
      modifies set s | s in Squares :: s`revealed
      decreases |Unrevealed()|, 4
      ensures Unrevealed() <= old(Unrevealed())
      ensures ChordProgress(sender, before, k + 1)
    {
      var q := Shift(sender.Position(), Offsets[k]);
      ghost var start := RevealedSquares();
      ghost var safe := NoMineBesideZero() && NeighboursSafe(sender);
      RevealIfHidden(q, before);
      assert safe == (NoMineBesideZero() && NeighboursSafe(sender));
      AroundKept(sender, k, start);
      SafetyKept(sender, before, q, start);
      LocalityKept(sender, before, q, start);
    }

    /** A reveal that reaches all its new squares from q, a neighbour of
        sender, keeps the chord local; start is the revealed set before it. */
    lemma LocalityKept(sender: MineSquare, before: set<MineSquare>, q: Pos, start: set<MineSquare>)
      requires Valid() && sender in Squares && before <= start <= RevealedSquares()
      requires InBounds(boardHeight, boardWidth, q) ==> Adjacent(sender.Position(), q)
      requires ReachedFrom(Beside(sender, start - before), start - before)
      requires RevealedSquares() == start ||
        (InBounds(boardHeight, boardWidth, q) && board[q.0, q.1] in RevealedSquares() - start &&
         ReachedFrom({board[q.0, q.1]}, RevealedSquares() - start))
      ensures Local(sender, before)
    {
      var y := if InBounds(boardHeight, boardWidth, q) then board[q.0, q.1] else sender;
      ReachGrows(sender, start - before, RevealedSquares() - start, y);
      assert RevealedSquares() - before == (start - before) + (RevealedSquares() - start);
    }

    /** A reveal that settles the square at offset k extends the chord's
        progress from k to k + 1 offsets; start is the revealed set before it. */
    lemma AroundKept(sender: MineSquare, k: nat, start: set<MineSquare>)
      requires Valid() && sender in Squares && k < |Offsets|
      requires Around(sender, k) <= start + FlaggedSquares() && start <= RevealedSquares()
      requires var q := Shift(sender.Position(), Offsets[k]);
        InBounds(boardHeight, boardWidth, q) ==> board[q.0, q.1].revealed || board[q.0, q.1].flagged
      ensures Around(sender, k + 1) <= RevealedSquares() + FlaggedSquares()
    {
      AroundStep(sender, k);
    }

    /** A reveal that can uncover a mine only at q, an unflagged neighbour
        of a safe sender, keeps the chord from uncovering any mine; start is
        the revealed set before it. */
    lemma SafetyKept(sender: MineSquare, before: set<MineSquare>, q: Pos, start: set<MineSquare>)
      requires Valid() && sender in Squares
      requires InBounds(boardHeight, boardWidth, q) ==> Adjacent(sender.Position(), q)
      requires NoMineBesideZero() && NeighboursSafe(sender) ==> forall s :: s in start - before ==> !s.isMine
      requires start <= RevealedSquares()
      requires forall s :: s in RevealedSquares() - start ==> !s.flagged
      requires NoMineBesideZero() ==> forall s :: s in RevealedSquares() - start && s.isMine ==> s.Position() == q
      ensures NoMineBesideZero() && NeighboursSafe(sender) ==> forall s :: s in RevealedSquares() - before ==> !s.isMine
    {
    }

    /** The square at q, when it is on the board and neither flagged nor
        revealed, is revealed; reveals that were sound against before stay so. */
    method RevealIfHidden(q: Pos, ghost before: set<MineSquare>)
      requires Valid() && CascadeSound(before)
      modifies set s | s in Squares :: s`revealed
      decreases |Unrevealed()|, 3
      ensures old(RevealedSquares()) <= RevealedSquares()
      ensures CascadeSound(before)
      ensures InBounds(boardHeight, boardWidth, q) ==> board[q.0, q.1].revealed || board[q.0, q.1].flagged
      ensures NoMineBesideZero() ==> forall s :: s in RevealedSquares() - old(RevealedSquares()) && s.isMine ==> s.Position() == q
      // it reveals nothing, or the square at q and what the cascade reaches from it
      ensures RevealedSquares() == old(RevealedSquares()) ||
        (InBounds(boardHeight, boardWidth, q) && board[q.0, q.1] in RevealedSquares() - old(RevealedSquares()) &&
         ReachedFrom({board[q.0, q.1]}, RevealedSquares() - old(RevealedSquares())))
    {
      if InBounds(boardHeight, boardWidth, q) {
        var neighbour := board[q.0, q.1];
        if !neighbour.flagged && !neighbour.revealed {
          RevealHidden(neighbour, before);
        }
      }
    }

    /** Reveals a hidden, unflagged square; reveals that were sound against
        before stay so, because revealing only adds to what settles a square. */
    method RevealHidden(square: MineSquare, ghost before: set<MineSquare>)
      requires Valid() && CascadeSound(before)
      requires square in Squares && !square.revealed && !square.flagged
      modifies set s | s in Squares :: s`revealed
      decreases |Unrevealed()|, 2
      ensures square.revealed && old(RevealedSquares()) <= RevealedSquares()
      ensures CascadeSound(before)
      ensures NoMineBesideZero() ==> forall s :: s in RevealedSquares() - old(RevealedSquares()) && s.isMine ==> s == square
      ensures ReachedFrom({square}, RevealedSquares() - old(RevealedSquares()))
    {
      ghost var start := RevealedSquares();
      SettledAsSet(before);
      Uncover(square);
      SettledGrows(before, start);
    }

    /** Reveals a hidden square: SetRevealed's guarantees, seen from the
        board, with the square itself among the newly revealed ones. */
    method Uncover(square: MineSquare)
      requires Valid() && square in Squares && !square.revealed
      modifies set s | s in Squares :: s`revealed
      decreases |Unrevealed()|, 1
      ensures square.revealed && old(RevealedSquares()) <= RevealedSquares()
      ensures forall s :: s in RevealedSquares() - old(RevealedSquares()) && s != square ==> !s.flagged
      ensures forall s :: s in RevealedSquares() - old(RevealedSquares()) && Cascades(s) ==> Settled(s)
      ensures NoMineBesideZero() ==> forall s :: s in RevealedSquares() - old(RevealedSquares()) && s.isMine ==> s == square
      ensures ReachedFrom({square}, RevealedSquares() - old(RevealedSquares()))
    {
      square.SetRevealed();
    }

    /** No neighbour of s is outside R and unflagged: s is settled once the
        squares in R are revealed. */
    ghost predicate SettledWithin(s: MineSquare, R: set<MineSquare>)
      reads `Squares, set t | t in Squares :: t`flagged
    {
      forall t :: t in Squares && Adjacent(s.Position(), t.Position()) ==> t in R || t.flagged
    }

    /** The zero squares a sound reveal expanded are settled within the
        squares revealed now. */
    lemma SettledAsSet(before: set<MineSquare>)
      requires CascadeSound(before)
      ensures forall s :: s in RevealedSquares() - before && Cascades(s) ==> SettledWithin(s, RevealedSquares())
    {
    }

    /** Revealing more squares keeps settled every square that was settled
        within the squares revealed at start. */
    lemma SettledGrows(before: set<MineSquare>, start: set<MineSquare>)
      requires start <= RevealedSquares()
      requires forall s :: s in start - before && Cascades(s) ==> SettledWithin(s, start)
      ensures forall s :: s in start - before && Cascades(s) ==> Settled(s)
    {
    }

    /** Freezes every square.  The icons of the other mines are not modelled;
        the board code never calls this method. */
    method FailGame(sender: MineSquare)
      requires Valid()
      modifies set s | s in Squares :: s`interactable
      ensures forall s :: s in Squares ==> !s.interactable
      ensures RevealedSquares() == old(RevealedSquares()) && FlaggedSquares() == old(FlaggedSquares())
      ensures MineSquares() == old(MineSquares())
    {
      for i := 0 to boardHeight
        invariant forall s :: s in Squares && s.xcoord < i ==> !s.interactable
      {
        for j := 0 to boardWidth
          invariant forall s :: s in Squares && (s.xcoord < i || (s.xcoord == i && s.ycoord < j)) ==> !s.interactable
        {
          board[i, j].SetInteractable(false);
        }
      }
    }

    method IncrementMineCount()
      modifies `currentNumMines
      ensures currentNumMines == old(currentNumMines) + 1
    {
      currentNumMines := currentNumMines + 1;
    }

    method DecrementMineCount()
      modifies `currentNumMines
      ensures currentNumMines == old(currentNumMines) - 1
    {
      currentNumMines := currentNumMines - 1;
    }

    /** A timer event: the time goes up by one when the event comes from the
        game's time timer. */
    method ActionPerformed(fromTimeTimer: bool)
      modifies `time
      ensures time == old(time) + (if fromTimeTimer then 1 else 0)
    {
      if fromTimeTimer {
        time := time + 1;
      }
    }
  }

  /** A new game started with a flag set, as the board code has it: on a
      2 x 2 board with one mine, flagging (0, 0) and then starting a new
      game leaves the counter one below the number of unflagged mines. */
  method RestartAfterFlag() returns (b: MinesweeperBoard)
    ensures b.numMines == 1 && b.FlaggedSquares() == {}
    ensures b.currentNumMines == 0
    ensures b.currentNumMines + |b.FlaggedSquares()| == b.numMines - 1
  {
    b := new MinesweeperBoard(2, 2, 1, [(1, 1)]);
    var corner := b.board[0, 0];
    corner.Flag();
    var placed := b.NewGame([(1, 1)]);
    assert b.FlaggedSquares() == {};
  }

  /** The distinct positions among the draws. */
  function Drawn(draws: seq<Pos>): set<Pos> {
    set k | 0 <= k < |draws| :: draws[k]
  }

  lemma {:induction false} SubsetSize<T>(a: set<T>, b: set<T>)
    requires a <= b
    ensures |a| <= |b|
    decreases |b|
  {
    if a != {} {
      var x :| x in a;
      SubsetSize(a - {x}, b - {x});
    }
  }
}
