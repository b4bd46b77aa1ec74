/** The value of a position under exhaustive minimax with depth-biased scores, and
    the computer's choice of move, as functions of the grid. The imperative search in
    state.dfy, which works by trial writes on the shared board, is proved to compute
    exactly these. */
module Search {
  import opened Board

  /** None plays the part of the unbounded starting value (minus or plus infinity)
      before the first candidate cell has been scored. */
  datatype Option<T> = None | Some(value: T)

  /** The computer (O) maximizes, the human (X) minimizes. */
  function Mover(maximizing: bool): (p: Cell)
    ensures p != Empty
  {
    if maximizing then O else X
  }

  /** A point the row-major scan can stop at: before cell (row, col), where col may
      be Size at the end of a row, or (Size, 0) once every cell has been visited. */
  predicate ScanPoint(row: int, col: int) {
    (0 <= row < Size && 0 <= col <= Size) || (row == Size && col == 0)
  }

  /** (r, c) comes strictly before (row, col) in row-major order. */
  predicate Before(r: int, c: int, row: int, col: int) {
    r < row || (r == row && c < col)
  }

  /** Folding one more score into the running best: max when maximizing, min otherwise. */
  function Combine(best: Option<int>, s: int, maximizing: bool): int {
    match best
    case None => s
    case Some(b) => if maximizing then (if s >= b then s else b) else (if s <= b then s else b)
  }

  /** The running maximum (or minimum) of the scores f gives to the empty cells that
      come before (row, col) in row-major order; None while no empty cell has been seen. */
  function Fold(g: Grid, f: (int, int) -> int, maximizing: bool, row: int, col: int): Option<int>
    requires IsGrid(g) && ScanPoint(row, col)
    decreases row, col
  {
    if col == 0 then
      if row == 0 then None else Fold(g, f, maximizing, row - 1, Size)
    else
      var prev := Fold(g, f, maximizing, row, col - 1);
      if g[row][col - 1] == Empty then Some(Combine(prev, f(row, col - 1), maximizing)) else prev
  }

  /** The scan has a running best exactly when it has passed an empty cell. */
  lemma {:induction false} FoldSome(g: Grid, f: (int, int) -> int, maximizing: bool, row: int, col: int)
    requires IsGrid(g) && ScanPoint(row, col)
    ensures Fold(g, f, maximizing, row, col).Some? <==>
      exists r, c | InRange(r, c) && Before(r, c, row, col) :: g[r][c] == Empty
    decreases row, col
  {
    if col == 0 {
      if row > 0 {
        FoldSome(g, f, maximizing, row - 1, Size);
        assert forall r, c | InRange(r, c) :: Before(r, c, row, 0) <==> Before(r, c, row - 1, Size);
      }
    } else {
      FoldSome(g, f, maximizing, row, col - 1);
      if g[row][col - 1] == Empty {
        assert Before(row, col - 1, row, col);
      }
    }
  }

  /** The running best is the extremum of the scores of the empty cells scanned so
      far, and one of them attains it. */
  lemma {:induction false} FoldSpec(g: Grid, f: (int, int) -> int, maximizing: bool, row: int, col: int)
    requires IsGrid(g) && ScanPoint(row, col)
    ensures Fold(g, f, maximizing, row, col).Some? ==>
      var v := Fold(g, f, maximizing, row, col).value;
      (forall r, c | InRange(r, c) && Before(r, c, row, col) && g[r][c] == Empty ::
         if maximizing then f(r, c) <= v else v <= f(r, c)) &&
      (exists r, c | InRange(r, c) && Before(r, c, row, col) && g[r][c] == Empty :: f(r, c) == v)
    decreases row, col
  {
    if col == 0 {
      if row > 0 {
        FoldSpec(g, f, maximizing, row - 1, Size);
        assert forall r, c | InRange(r, c) :: Before(r, c, row, 0) <==> Before(r, c, row - 1, Size);
      }
    } else {
      FoldSpec(g, f, maximizing, row, col - 1);
      FoldSome(g, f, maximizing, row, col - 1);
      var prev := Fold(g, f, maximizing, row, col - 1);
      if g[row][col - 1] == Empty && prev.Some? && Combine(prev, f(row, col - 1), maximizing) != f(row, col - 1) {
        var r, c :| InRange(r, c) && Before(r, c, row, col - 1) && g[r][c] == Empty && f(r, c) == prev.value;
        assert Before(r, c, row, col);
      }
    }
  }

  /** Minimax value of g with depth plies already played and the given side to move:
      10 - depth if O has a line, else depth - 10 if X has a line, else 0 on a full
      grid, and otherwise the best over the moves of the side to move. */
  function Score(g: Grid, depth: int, maximizing: bool): int
    requires IsGrid(g)
    decreases Count(g, Empty), 2
  {
    if Wins(g, O) then 10 - depth
    else if Wins(g, X) then depth - 10
    else if Full(g) then 0
    else
      FoldSome(g, Children(g, depth, maximizing), maximizing, Size, 0);
      Fold(g, Children(g, depth, maximizing), maximizing, Size, 0).value
  }

  /** The scores of the replies of the side to move, cell by cell; only the empty
      cells' scores are ever consulted. */
  function Children(g: Grid, depth: int, maximizing: bool): (int, int) -> int
    requires IsGrid(g)
    decreases Count(g, Empty), 1
  {
    (r, c) => if InRange(r, c) && g[r][c] == Empty then ChildScore(g, depth, maximizing, r, c) else 0
  }

  /** Value of playing the side to move on the empty cell (row, col). */
  function ChildScore(g: Grid, depth: int, maximizing: bool, row: int, col: int): int
    requires IsGrid(g) && InRange(row, col) && g[row][col] == Empty
    decreases Count(g, Empty), 0
  {
    PlaceCount(g, row, col, Mover(maximizing));
    Score(Place(g, row, col, Mover(maximizing)), depth + 1, !maximizing)
  }

  /** One step of the minimax scan over an empty cell: its child score is folded in. */
  lemma BestStepEmpty(g: Grid, depth: int, maximizing: bool, row: int, col: int, best: Option<int>, s: int)
    requires IsGrid(g) && InRange(row, col) && g[row][col] == Empty
    requires best == Fold(g, Children(g, depth, maximizing), maximizing, row, col)
    requires s == Score(Place(g, row, col, Mover(maximizing)), depth + 1, !maximizing)
    ensures Fold(g, Children(g, depth, maximizing), maximizing, row, col + 1) == Some(Combine(best, s, maximizing))
  {
  }

  /** One step of the minimax scan over an occupied cell: the running best is unchanged. */
  lemma BestStepTaken(g: Grid, depth: int, maximizing: bool, row: int, col: int)
    requires IsGrid(g) && InRange(row, col) && g[row][col] != Empty
    ensures Fold(g, Children(g, depth, maximizing), maximizing, row, col + 1) ==
      Fold(g, Children(g, depth, maximizing), maximizing, row, col)
  {
  }

  /** On a grid where nobody has won and a cell is empty, the score is the maximum
      (O to move) or the minimum (X to move) over all empty cells of the score after
      the side to move plays there, one ply deeper. */
  lemma ScoreOfOpenGrid(g: Grid, depth: int, maximizing: bool)
    requires IsGrid(g) && !Wins(g, O) && !Wins(g, X) && !Full(g)
    ensures forall r, c | InRange(r, c) && g[r][c] == Empty ::
      if maximizing then ChildScore(g, depth, maximizing, r, c) <= Score(g, depth, maximizing)
      else Score(g, depth, maximizing) <= ChildScore(g, depth, maximizing, r, c)
    ensures exists r, c | InRange(r, c) && g[r][c] == Empty ::
      ChildScore(g, depth, maximizing, r, c) == Score(g, depth, maximizing)
  {
    FoldSpec(g, Children(g, depth, maximizing), maximizing, Size, 0);
  }

  /** On an open grid some empty cell carries the score: the side to move's best reply. */
  lemma BestReply(g: Grid, depth: int, maximizing: bool) returns (r: int, c: int)
    requires IsGrid(g) && !Wins(g, O) && !Wins(g, X) && !Full(g)
    ensures InRange(r, c) && g[r][c] == Empty
    ensures Score(g, depth, maximizing) == Score(Place(g, r, c, Mover(maximizing)), depth + 1, !maximizing)
  {
    ScoreOfOpenGrid(g, depth, maximizing);
    r, c :| InRange(r, c) && g[r][c] == Empty && ChildScore(g, depth, maximizing, r, c) == Score(g, depth, maximizing);
  }

  /** Depth bias: when at most 10 - depth cells are empty, a positive score is an O
      win reached within the remaining plies (between 10 - depth - empties and
      10 - depth), a negative one an X win (between depth - 10 and
      depth + empties - 10), so every score lies in [depth - 10, 10 - depth]. */
  lemma {:induction false} ScoreRange(g: Grid, depth: int, maximizing: bool)
    requires IsGrid(g) && depth + Count(g, Empty) <= 10
    ensures var s := Score(g, depth, maximizing);
      (s > 0 ==> 10 - depth - Count(g, Empty) <= s <= 10 - depth) &&
      (s < 0 ==> depth - 10 <= s <= depth + Count(g, Empty) - 10) &&
      depth - 10 <= s <= 10 - depth
    decreases Count(g, Empty)
  {
    if !Wins(g, O) && !Wins(g, X) && !Full(g) {
      var r, c := BestReply(g, depth, maximizing);
      PlaceCount(g, r, c, Mover(maximizing));
      ScoreRange(Place(g, r, c, Mover(maximizing)), depth + 1, !maximizing);
    }
  }

  /** Bounds that hold at any depth: every leaf below lies between depth and
      depth + empties plies, so the score lies between the least and the greatest
      leaf score such a leaf can have. When depth <= 10 and 2 * depth + empties <= 20
      this is the range [depth - 10, 10 - depth]. */
  lemma {:induction false} ScoreBounds(g: Grid, depth: int, maximizing: bool)
    requires IsGrid(g)
    ensures var s, e := Score(g, depth, maximizing), Count(g, Empty);
      (if depth - 10 <= 10 - depth - e then depth - 10 else 10 - depth - e) <= s <=
      (if 10 - depth >= depth + e - 10 then 10 - depth else depth + e - 10)
    ensures depth <= 10 && 2 * depth + Count(g, Empty) <= 20 ==>
      depth - 10 <= Score(g, depth, maximizing) <= 10 - depth
    decreases Count(g, Empty)
  {
    if !Wins(g, O) && !Wins(g, X) && !Full(g) {
      var r, c := BestReply(g, depth, maximizing);
      PlaceCount(g, r, c, Mover(maximizing));
      ScoreBounds(Place(g, r, c, Mover(maximizing)), depth + 1, !maximizing);
    }
  }

  /** The top score 10 - depth is reached exactly when O already has a line. */
  lemma TopScore(g: Grid, depth: int, maximizing: bool)
    requires IsGrid(g) && depth + Count(g, Empty) <= 10 && depth < 10
    ensures Score(g, depth, maximizing) == 10 - depth <==> Wins(g, O)
  {
    if !Wins(g, O) && !Wins(g, X) && !Full(g) {
      var r, c := BestReply(g, depth, maximizing);
      PlaceCount(g, r, c, Mover(maximizing));
      ScoreRange(Place(g, r, c, Mover(maximizing)), depth + 1, !maximizing);
    }
  }

  /** The bottom score depth - 10 is reached exactly when X has a line and O has not. */
  lemma BottomScore(g: Grid, depth: int, maximizing: bool)
    requires IsGrid(g) && depth + Count(g, Empty) <= 10 && depth < 10
    ensures Score(g, depth, maximizing) == depth - 10 <==> !Wins(g, O) && Wins(g, X)
  {
    if !Wins(g, O) && !Wins(g, X) && !Full(g) {
      var r, c := BestReply(g, depth, maximizing);
      PlaceCount(g, r, c, Mover(maximizing));
      ScoreRange(Place(g, r, c, Mover(maximizing)), depth + 1, !maximizing);
    }
  }

  // ---------------------------------------------------------------------------
  // The computer's move

  /** The score the computer gives to playing O on (row, col): X to move, depth 0. */
  function MoveScore(g: Grid, row: int, col: int): int
    requires IsGrid(g) && InRange(row, col)
  {
    Score(Place(g, row, col, O), 0, false)
  }

  /** The score of playing O on each cell; only the empty cells' scores are consulted. */
  function MoveScores(g: Grid): (int, int) -> int
    requires IsGrid(g)
  {
    (r, c) => if InRange(r, c) then MoveScore(g, r, c) else 0
  }

  /** Best score and move once every cell before (row, col) has been scanned, each
      empty cell scored by f; a later cell replaces the current move only with a
      strictly greater score. (-1, -1) while none is found. */
  function Pick(g: Grid, f: (int, int) -> int, row: int, col: int): (Option<int>, (int, int))
    requires IsGrid(g) && ScanPoint(row, col)
    decreases row, col
  {
    if col == 0 then
      if row == 0 then (None, (-1, -1)) else Pick(g, f, row - 1, Size)
    else
      var (best, move) := Pick(g, f, row, col - 1);
      if g[row][col - 1] == Empty then
        var s := f(row, col - 1);
        if best.None? || s > best.value then (Some(s), (row, col - 1)) else (best, move)
      else (best, move)
  }

  /** The move the computer plays. */
  function BestMove(g: Grid): (int, int)
    requires IsGrid(g)
  {
    Pick(g, MoveScores(g), Size, 0).1
  }

  /** What the scan of the cells before (row, col) has established about (best, move). */
  ghost predicate PickInvariant(g: Grid, f: (int, int) -> int, row: int, col: int, best: Option<int>, move: (int, int))
    requires IsGrid(g)
  {
    (best.None? <==> forall r, c | InRange(r, c) && Before(r, c, row, col) :: g[r][c] != Empty) &&
    (best.None? ==> move == (-1, -1)) &&
    (best.Some? ==>
       InRange(move.0, move.1) && Before(move.0, move.1, row, col) && g[move.0][move.1] == Empty &&
       best.value == f(move.0, move.1) &&
       (forall r, c | InRange(r, c) && Before(r, c, row, col) && g[r][c] == Empty :: f(r, c) <= best.value) &&
       (forall r, c | InRange(r, c) && Before(r, c, move.0, move.1) && g[r][c] == Empty :: f(r, c) < best.value))
  }

  /** One step of the computer's scan over an empty cell scoring s: the cell becomes
      the choice when nothing was chosen yet or s beats the best score so far. */
  lemma PickStepEmpty(g: Grid, row: int, col: int, best: Option<int>, move: (int, int), s: int)
    requires IsGrid(g) && InRange(row, col) && g[row][col] == Empty
    requires (best, move) == Pick(g, MoveScores(g), row, col)
    requires s == Score(Place(g, row, col, O), 0, false)
    ensures Pick(g, MoveScores(g), row, col + 1) ==
      if best.None? || s > best.value then (Some(s), (row, col)) else (best, move)
  {
  }

  /** One step of the computer's scan over an occupied cell: nothing changes. */
  lemma PickStepTaken(g: Grid, row: int, col: int)
    requires IsGrid(g) && InRange(row, col) && g[row][col] != Empty
    ensures Pick(g, MoveScores(g), row, col + 1) == Pick(g, MoveScores(g), row, col)
  {
  }

  lemma {:induction false} PickSpec(g: Grid, f: (int, int) -> int, row: int, col: int)
    requires IsGrid(g) && ScanPoint(row, col)
    ensures PickInvariant(g, f, row, col, Pick(g, f, row, col).0, Pick(g, f, row, col).1)
    decreases row, col
  {
    if col == 0 {
      if row > 0 {
        PickSpec(g, f, row - 1, Size);
        assert forall r, c | InRange(r, c) :: Before(r, c, row, 0) <==> Before(r, c, row - 1, Size);
      }
    } else {
      PickSpec(g, f, row, col - 1);
      var (best, move) := Pick(g, f, row, col - 1);
      if g[row][col - 1] == Empty {
        var s := f(row, col - 1);
        if best.None? || s > best.value {
          assert Pick(g, f, row, col) == (Some(s), (row, col - 1));
        } else {
          assert Pick(g, f, row, col) == (best, move);
        }
      } else {
        assert Pick(g, f, row, col) == (best, move);
      }
    }
  }

  /** On a grid with an empty cell the computer picks an empty cell of maximal score,
      the first such in row-major order; on a full grid it answers (-1, -1). */
  lemma BestMoveSpec(g: Grid)
    requires IsGrid(g)
    ensures Full(g) ==> BestMove(g) == (-1, -1)
    ensures !Full(g) ==>
      var (row, col) := BestMove(g);
      InRange(row, col) && g[row][col] == Empty &&
      (forall r, c | InRange(r, c) && g[r][c] == Empty :: MoveScore(g, r, c) <= MoveScore(g, row, col)) &&
      (forall r, c | InRange(r, c) && g[r][c] == Empty && Before(r, c, row, col) ::
         MoveScore(g, r, c) < MoveScore(g, row, col))
  {
    PickSpec(g, MoveScores(g), Size, 0);
  }

  /** An empty cell scores 10 exactly when O completes a line by playing there. */
  lemma WinningMoveScore(g: Grid, row: int, col: int)
    requires IsGrid(g) && InRange(row, col) && g[row][col] == Empty
    ensures MoveScore(g, row, col) <= 10
    ensures MoveScore(g, row, col) == 10 <==> Wins(Place(g, row, col, O), O)
  {
    PlaceCount(g, row, col, O);
    FullIffNoEmpty(g);
    ScoreRange(Place(g, row, col, O), 0, false);
    TopScore(Place(g, row, col, O), 0, false);
  }

  /** Immediate win: if O can complete a line in one move, the computer does so, on
      the first such cell in row-major order. */
  lemma ImmediateWin(g: Grid, row: int, col: int)
    requires IsGrid(g) && InRange(row, col) && g[row][col] == Empty
    requires Wins(Place(g, row, col, O), O)
    ensures var (r, c) := BestMove(g);
      InRange(r, c) && g[r][c] == Empty && Wins(Place(g, r, c, O), O) &&
      forall r', c' | InRange(r', c') && g[r'][c'] == Empty && Before(r', c', r, c) ::
        !Wins(Place(g, r', c', O), O)
  {
    BestMoveSpec(g);
    var (r, c) := BestMove(g);
    WinningMoveScore(g, row, col);
    WinningMoveScore(g, r, c);
    forall r', c' | InRange(r', c') && g[r'][c'] == Empty
      ensures MoveScore(g, r', c') == 10 <==> Wins(Place(g, r', c', O), O)
    {
      WinningMoveScore(g, r', c');
    }
  }

  /** Playing O on (a, b) cannot give X a line it did not have. */
  lemma NoNewLineForX(g: Grid, a: int, b: int, p: Cell)
    requires IsGrid(g) && InRange(a, b) && p != X && !Wins(g, X)
    ensures !Wins(Place(g, a, b, p), X)
  {
    WinsMonotone(Place(g, a, b, p), g, X);
  }

  /** Immediate block: when O cannot win at once, nobody has a line yet and (row, col)
      is the only cell where X would complete a line, the computer plays there. */
  lemma ImmediateBlock(g: Grid, row: int, col: int)
    requires IsGrid(g) && !Wins(g, O) && !Wins(g, X)
    requires InRange(row, col) && g[row][col] == Empty && Wins(Place(g, row, col, X), X)
    requires forall r, c | InRange(r, c) && g[r][c] == Empty && Wins(Place(g, r, c, X), X) ::
      (r, c) == (row, col)
    requires forall r, c | InRange(r, c) && g[r][c] == Empty :: !Wins(Place(g, r, c, O), O)
    ensures BestMove(g) == (row, col)
  {
    FullIffNoEmpty(g);
    BlockScore(g, row, col);
    BestMoveSpec(g);
    var (r, c) := BestMove(g);
    if (r, c) != (row, col) {
      MissedBlockScore(g, row, col, r, c);
    }
  }

  /** Blocking the single threat scores above -9. */
  lemma BlockScore(g: Grid, row: int, col: int)
    requires IsGrid(g) && !Wins(g, X)
    requires InRange(row, col) && g[row][col] == Empty
    requires forall r, c | InRange(r, c) && g[r][c] == Empty && Wins(Place(g, r, c, X), X) ::
      (r, c) == (row, col)
    requires !Wins(Place(g, row, col, O), O)
    ensures MoveScore(g, row, col) > -9
  {
    var h := Place(g, row, col, O);
    NoNewLineForX(g, row, col, O);
    if !Full(h) {
      ScoreOfOpenGrid(h, 0, false);
      var r, c :| InRange(r, c) && h[r][c] == Empty && ChildScore(h, 0, false, r, c) == Score(h, 0, false);
      ReplyAfterBlock(g, row, col, r, c);
    }
  }

  /** After O blocks the single threat, no reply of X completes a line, so every
      reply scores above -9. */
  lemma ReplyAfterBlock(g: Grid, row: int, col: int, r: int, c: int)
    requires IsGrid(g) && !Wins(g, X)
    requires InRange(row, col) && g[row][col] == Empty
    requires forall r, c | InRange(r, c) && g[r][c] == Empty && Wins(Place(g, r, c, X), X) ::
      (r, c) == (row, col)
    requires !Wins(Place(g, row, col, O), O)
    requires InRange(r, c) && Place(g, row, col, O)[r][c] == Empty
    ensures ChildScore(Place(g, row, col, O), 0, false, r, c) > -9
  {
    var h := Place(g, row, col, O);
    var k := Place(h, r, c, X);
    // X holds in k its cells of g plus (r, c), which is not a threat of g.
    WinsMonotone(k, Place(g, r, c, X), X);
    // O holds the same cells in k as in h.
    WinsMonotone(k, h, O);
    PlaceCount(g, row, col, O);
    PlaceCount(h, r, c, X);
    FullIffNoEmpty(g);
    BottomScore(k, 1, true);
    ScoreRange(k, 1, true);
  }

  /** Leaving the single threat open lets X complete it: such a move scores at most -9. */
  lemma MissedBlockScore(g: Grid, row: int, col: int, a: int, b: int)
    requires IsGrid(g) && !Wins(g, X)
    requires InRange(row, col) && g[row][col] == Empty && Wins(Place(g, row, col, X), X)
    requires InRange(a, b) && g[a][b] == Empty && (a, b) != (row, col)
    requires !Wins(Place(g, a, b, O), O)
    ensures MoveScore(g, a, b) <= -9
  {
    var h := Place(g, a, b, O);
    NoNewLineForX(g, a, b, O);
    assert h[row][col] == Empty;
    ScoreOfOpenGrid(h, 0, false);
    var k := Place(h, row, col, X);
    WinsMonotone(Place(g, row, col, X), k, X);
    WinsMonotone(k, h, O);
    assert ChildScore(h, 0, false, row, col) == Score(k, 1, true);
  }
}
