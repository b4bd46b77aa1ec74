/** The turn logic of the game loop: a click of the human (X) on an empty cell or the
    computer's (O) reply marks the grid; a win or a full grid clears it, otherwise
    the turn passes. Rendering, event polling and the mapping from pixels to cells
    are not modelled: an event arrives here already as a cell or as something else. */
module Turns {
  import opened Board
  import opened Search
  import opened Engine

  /** What one event of the game loop can be. */
  datatype Event = Click(row: int, col: int) | NoClick

  /** The player to move is at most one mark behind the other player, and not ahead. */
  predicate Balanced(g: Grid, p: Cell)
    requires IsGrid(g) && p != Empty
  {
    0 <= Count(g, Other(p)) - Count(g, p) <= 1
  }

  /** The grid and the player to move after p plays the empty cell (row, col): a line
      for p or a full grid clears the grid and leaves p to move, otherwise the turn
      passes to the other player. */
  function Play(g: Grid, row: int, col: int, p: Cell): (Grid, Cell)
    requires IsGrid(g) && InRange(row, col) && p != Empty
  {
    var h := Place(g, row, col, p);
    if Wins(h, p) || Full(h) then (EmptyGrid(), p) else (h, Other(p))
  }

  /** A move keeps the counts balanced, never leaves a full grid behind, and passes
      the turn exactly when the game goes on. */
  lemma PlayKeepsInvariant(g: Grid, row: int, col: int, p: Cell)
    requires IsGrid(g) && InRange(row, col) && p != Empty && g[row][col] == Empty
    requires Balanced(g, p)
    ensures var (h, q) := Play(g, row, col, p);
      IsGrid(h) && q != Empty && Balanced(h, q) && !Full(h) &&
      (q == Other(p) <==> !Wins(Place(g, row, col, p), p) && !Full(Place(g, row, col, p))) &&
      (q == p <==> h == EmptyGrid())
  {
    var h := Place(g, row, col, p);
    PlaceCount(g, row, col, p);
    assert !Full(EmptyGrid()) by {
      assert EmptyGrid()[0][0] == Empty;
    }
    if !Wins(h, p) && !Full(h) {
      FullIffNoEmpty(h);
      assert Other(Other(p)) == p;
      assert h != EmptyGrid() by {
        assert h[row][col] != EmptyGrid()[row][col];
      }
    }
  }

  /** The state after one event: a click of X on an empty cell is X's move, any event
      while O is to move triggers O's best move, anything else changes nothing. */
  function Next(g: Grid, p: Cell, e: Event): (Grid, Cell)
    requires IsGrid(g) && p != Empty && !Full(g)
    requires e.Click? ==> InRange(e.row, e.col)
  {
    if p == X && e.Click? then
      if g[e.row][e.col] == Empty then Play(g, e.row, e.col, X) else (g, p)
    else if p == O then
      BestMoveSpec(g);
      Play(g, BestMove(g).0, BestMove(g).1, O)
    else (g, p)
  }

  /** Every event keeps the game state sound: the grid is never full between events
      (so O always has an empty cell to play) and the counts stay balanced. The
      human's marks only ever go on an empty cell that was clicked. */
  lemma NextKeepsInvariant(g: Grid, p: Cell, e: Event)
    requires IsGrid(g) && p != Empty && !Full(g) && Balanced(g, p)
    requires e.Click? ==> InRange(e.row, e.col)
    ensures var (h, q) := Next(g, p, e);
      IsGrid(h) && q != Empty && !Full(h) && Balanced(h, q)
    ensures p == X && (Next(g, p, e) != (g, p)) ==> e.Click? && g[e.row][e.col] == Empty
  {
    if p == X && e.Click? && g[e.row][e.col] == Empty {
      PlayKeepsInvariant(g, e.row, e.col, X);
    } else if p == O {
      BestMoveSpec(g);
      PlayKeepsInvariant(g, BestMove(g).0, BestMove(g).1, O);
    }
  }

  /** The state after a sequence of events, each applied in turn. */
  function Replay(g: Grid, p: Cell, events: seq<Event>): (Grid, Cell)
    requires IsGrid(g) && p != Empty && !Full(g) && Balanced(g, p)
    requires forall i | 0 <= i < |events| :: events[i].Click? ==> InRange(events[i].row, events[i].col)
    decreases |events|
  {
    if events == [] then (g, p)
    else
      NextKeepsInvariant(g, p, events[0]);
      var (h, q) := Next(g, p, events[0]);
      Replay(h, q, events[1..])
  }

  /** The state the game loop keeps between events: the shared grid and the player
      to move. */
  class Game {
    const board: BoardState
    var player: Cell

    ghost predicate Valid()
      reads this, board, board.cells
    {
      board.Valid() && player != Empty && !Full(board.Rows()) && Balanced(board.Rows(), player)
    }

    /** A new game: an empty grid with X to move. */
    constructor ()
      ensures Valid() && fresh(board) && fresh(board.cells)
      ensures board.Rows() == EmptyGrid() && player == X
    {
      board := new BoardState();
      player := X;
      new;
      assert board.Rows()[0][0] == Empty;
    }

    /** The player to move marks the empty cell (row, col); a line for them or a full
        grid clears the grid and leaves them to move, otherwise the turn passes. */
    method Move(row: int, col: int)
      requires Valid() && InRange(row, col) && board.Rows()[row][col] == Empty
      modifies this, board.cells
      ensures Valid()
      ensures (board.Rows(), player) == Play(old(board.Rows()), row, col, old(player))
    {
      ghost var g := board.Rows();
      PlayKeepsInvariant(g, row, col, player);
      board.MarkSquare(row, col, player);
      var won := board.CheckWin(player);
      if won {
        board.Reset();
      } else {
        var full := board.IsBoardFull();
        if full {
          board.Reset();
        } else {
          player := Other(player);
        }
      }
    }

    /** One event of the game loop. */
    method Step(e: Event)
      requires Valid() && (e.Click? ==> InRange(e.row, e.col))
      modifies this, board.cells
      ensures Valid()
      ensures (board.Rows(), player) == Next(old(board.Rows()), old(player), e)
    {
      if player == X && e.Click? {
        if board.AvailableSquare(e.row, e.col) {
          Move(e.row, e.col);
        }
      } else if player == O {
        var move := board.FindBestMove();
        Move(move.0, move.1);
      }
    }

    /** The events of the game loop, handled one after the other. */
    method Run(events: seq<Event>)
      requires Valid()
      requires forall i | 0 <= i < |events| :: events[i].Click? ==> InRange(events[i].row, events[i].col)
      modifies this, board.cells
      ensures Valid()
      ensures (board.Rows(), player) == Replay(old(board.Rows()), old(player), events)
    {
      for i := 0 to |events|
        invariant Valid()
        invariant Replay(old(board.Rows()), old(player), events) == Replay(board.Rows(), player, events[i..])
      {
        Step(events[i]);
        assert events[i..][1..] == events[i + 1..];
      }
    }
  }
}
