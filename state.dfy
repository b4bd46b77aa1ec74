/** The game's one mutable grid and the operations that read and write it in place:
    marking, the queries, clearing, and the minimax search with its trial writes.
    Each operation is proved against the value-level definitions of Board and Search. */
module Engine {
  import opened Board
  import opened Search

  class BoardState {
    /** The 3x3 grid, cells[row, col]. */
    const cells: array2<Cell>

    ghost predicate Valid() {
      cells.Length0 == Size && cells.Length1 == Size
    }

    /** The grid as a value. */
    ghost function Rows(): (g: Grid)
      reads cells
      requires Valid()
      ensures IsGrid(g)
      ensures forall r, c | InRange(r, c) :: g[r][c] == cells[r, c]
    {
      [[cells[0, 0], cells[0, 1], cells[0, 2]],
       [cells[1, 0], cells[1, 1], cells[1, 2]],
       [cells[2, 0], cells[2, 1], cells[2, 2]]]
    }

    /** A grid of empty cells, as the game starts. */
    constructor ()
      ensures Valid() && fresh(cells)
      ensures Rows() == EmptyGrid()
    {
      cells := new Cell[Size, Size]((r, c) => Empty);
      new;
      GridExt(Rows(), EmptyGrid());
    }

    /** Writes player into one cell; every other cell keeps its value. */
    method MarkSquare(row: int, col: int, player: Cell)
      requires Valid() && InRange(row, col)
      modifies cells
      ensures Rows() == Place(old(Rows()), row, col, player)
    {
      cells[row, col] := player;
      GridExt(Rows(), Place(old(Rows()), row, col, player));
    }

    /** Whether the cell can still be played. */
    predicate AvailableSquare(row: int, col: int)
      requires Valid() && InRange(row, col)
      reads cells
      ensures AvailableSquare(row, col) <==> Rows()[row][col] == Empty
      ensures AvailableSquare(row, col) ==> !Full(Rows())
    {
      cells[row, col] == Empty
    }

    /** Scans the grid row by row and stops at the first empty cell. */
    method IsBoardFull() returns (full: bool)
      requires Valid()
      ensures full <==> Full(Rows())
    {
      for row := 0 to Size
        invariant forall r, c | 0 <= r < row && 0 <= c < Size :: cells[r, c] != Empty
      {
        for col := 0 to Size
          invariant forall c | 0 <= c < col :: cells[row, c] != Empty
          invariant forall r, c | 0 <= r < row && 0 <= c < Size :: cells[r, c] != Empty
        {
          if cells[row, col] == Empty {
            return false;
          }
        }
      }
      return true;
    }

    /** Checks row i and column i for i = 0, 1, 2, then the two diagonals. */
    method CheckWin(player: Cell) returns (won: bool)
      requires Valid()
      ensures won <==> Wins(Rows(), player)
    {
      for row := 0 to Size
        invariant forall i | 0 <= i < row :: !RowOf(Rows(), i, player) && !ColumnOf(Rows(), i, player)
      {
        if (forall col | 0 <= col < Size :: cells[row, col] == player) ||
           (forall col | 0 <= col < Size :: cells[col, row] == player)
        {
          assert RowOf(Rows(), row, player) || ColumnOf(Rows(), row, player);
          return true;
        }
      }
      if (forall i | 0 <= i < Size :: cells[i, i] == player) ||
         (forall i, j | 0 <= i < Size && j == Size - 1 - i :: cells[i, j] == player)
      {
        return true;
      }
      return false;
    }

    /** The clearing loop of a game reset: every cell becomes empty. */
    method Reset()
      requires Valid()
      modifies cells
      ensures Rows() == EmptyGrid()
    {
      for row := 0 to Size
        invariant forall r, c | 0 <= r < row && 0 <= c < Size :: cells[r, c] == Empty
      {
        for col := 0 to Size
          invariant forall c | 0 <= c < col :: cells[row, c] == Empty
          invariant forall r, c | 0 <= r < row && 0 <= c < Size :: cells[r, c] == Empty
        {
          cells[row, col] := Empty;
        }
      }
      GridExt(Rows(), EmptyGrid());
    }

    /** Trial move: writes player into the empty cell (row, col), searches the
        resulting grid and clears the cell again, so the grid is left as it was. */
    method Trial(row: int, col: int, player: Cell, depth: int, maximizing: bool) returns (score: int)
      requires Valid() && InRange(row, col) && player != Empty
      requires Rows()[row][col] == Empty
      modifies cells
      ensures Rows() == old(Rows())
      ensures score == Score(Place(old(Rows()), row, col, player), depth, maximizing)
      decreases Count(Rows(), Empty), 0
    {
      ghost var g := Rows();
      MarkSquare(row, col, player);
      PlaceCount(g, row, col, player);
      score := Minimax(depth, maximizing);
      MarkSquare(row, col, Empty);
      PlaceRestore(g, row, col, player);
    }

    /** One cell of a minimax step's scan: an empty cell is tried for the side to move,
        searched one ply deeper and cleared again, and its score is folded into the
        running maximum (O to move) or minimum (X to move). */
    method ScanCell(row: int, col: int, player: Cell, depth: int, maximizing: bool, best: Option<int>)
      returns (next: Option<int>)
      requires Valid() && InRange(row, col) && player == Mover(maximizing)
      requires best == Fold(Rows(), Children(Rows(), depth, maximizing), maximizing, row, col)
      modifies cells
      ensures Rows() == old(Rows())
      ensures next == Fold(old(Rows()), Children(old(Rows()), depth, maximizing), maximizing, row, col + 1)
      decreases Count(Rows(), Empty), 1
    {
      ghost var g := Rows();
      if cells[row, col] == Empty {
        var s := Trial(row, col, player, depth + 1, !maximizing);
        BestStepEmpty(g, depth, maximizing, row, col, best, s);
        next := Some(Combine(best, s, maximizing));
      } else {
        BestStepTaken(g, depth, maximizing, row, col);
        next := best;
      }
    }

    /** The two nested loops of a minimax step: every cell in row-major order goes
        through ScanCell, so the result is the fold of the children's scores over the
        whole grid. The grid is left as it was. */
    method Scan(depth: int, maximizing: bool) returns (best: Option<int>)
      requires Valid()
      modifies cells
      ensures Rows() == old(Rows())
      ensures best == Fold(old(Rows()), Children(old(Rows()), depth, maximizing), maximizing, Size, 0)
      decreases Count(Rows(), Empty), 2
    {
      ghost var g := Rows();
      var player := Mover(maximizing);
      best := None;
      for row := 0 to Size
        invariant Rows() == g
        invariant best == Fold(g, Children(g, depth, maximizing), maximizing, row, 0)
      {
        for col := 0 to Size
          invariant Rows() == g
          invariant best == Fold(g, Children(g, depth, maximizing), maximizing, row, col)
        {
          best := ScanCell(row, col, player, depth, maximizing, best);
        }
      }
    }

    /** Exhaustive minimax on the shared grid: each empty cell in row-major order is
        tried for the side to move, searched one ply deeper and cleared again. The
        result is the minimax value of the grid and the grid is left as it was. */
    method Minimax(depth: int, maximizing: bool) returns (score: int)
      requires Valid()
      modifies cells
      ensures Rows() == old(Rows())
      ensures score == Score(old(Rows()), depth, maximizing)
      decreases Count(Rows(), Empty), 3
    {
      var oWins := CheckWin(O);
      if oWins {
        return 10 - depth;
      }
      var xWins := CheckWin(X);
      if xWins {
        return depth - 10;
      }
      var full := IsBoardFull();
      if full {
        return 0;
      }
      var best := Scan(depth, maximizing);
      return best.value;
    }

    /** The computer's move: each empty cell is tried with O, scored by a search with X
        to move at depth 0 and cleared again; a strictly greater score replaces the
        current choice. The grid is left as it was. */
    method FindBestMove() returns (move: (int, int))
      requires Valid()
      modifies cells
      ensures Rows() == old(Rows())
      ensures move == BestMove(old(Rows()))
      ensures Full(old(Rows())) ==> move == (-1, -1)
      ensures !Full(old(Rows())) ==>
        InRange(move.0, move.1) && old(Rows())[move.0][move.1] == Empty &&
        (forall r, c | InRange(r, c) && old(Rows())[r][c] == Empty ::
           MoveScore(old(Rows()), r, c) <= MoveScore(old(Rows()), move.0, move.1)) &&
        (forall r, c | InRange(r, c) && old(Rows())[r][c] == Empty && Before(r, c, move.0, move.1) ::
           MoveScore(old(Rows()), r, c) < MoveScore(old(Rows()), move.0, move.1))
    {
      ghost var g := Rows();
      var best: Option<int> := None;
      move := (-1, -1);
      for row := 0 to Size
        invariant Rows() == g
        invariant (best, move) == Pick(g, MoveScores(g), row, 0)
      {
        for col := 0 to Size
          invariant Rows() == g
          invariant (best, move) == Pick(g, MoveScores(g), row, col)
        {
          if cells[row, col] == Empty {
            var s := Trial(row, col, O, 0, false);
            PickStepEmpty(g, row, col, best, move, s);
            if best.None? || s > best.value {
              best := Some(s);
              move := (row, col);
            }
          } else {
            PickStepTaken(g, row, col);
          }
        }
      }
      BestMoveSpec(g);
    }
  }
}
