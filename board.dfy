/** The 3x3 grid as a value: cells, placement, counting and the eight winning lines.
    The class in state.dfy holds the grid the game mutates; everything it promises
    is stated in terms of the definitions here. */
module Board {

  /** One grid position: ' ', 'X' or 'O' in the game. */
  datatype Cell = Empty | X | O

  /** Rows of cells, addressed g[row][col]. */
  type Grid = seq<seq<Cell>>

  const Size := 3

  predicate IsGrid(g: Grid) {
    |g| == Size && forall r | 0 <= r < Size :: |g[r]| == Size
  }

  predicate InRange(row: int, col: int) {
    0 <= row < Size && 0 <= col < Size
  }

  /** The opponent of a player. */
  function Other(p: Cell): (q: Cell)
    requires p != Empty
    ensures q != Empty && q != p
  {
    if p == X then O else X
  }

  /** The grid of a fresh game: nine empty cells. */
  function EmptyGrid(): (g: Grid)
    ensures IsGrid(g)
    ensures forall r, c | InRange(r, c) :: g[r][c] == Empty
  {
    [[Empty, Empty, Empty], [Empty, Empty, Empty], [Empty, Empty, Empty]]
  }

  /** The grid with one cell overwritten. */
  function Place(g: Grid, row: int, col: int, p: Cell): (h: Grid)
    requires IsGrid(g) && InRange(row, col)
    ensures IsGrid(h)
    ensures h[row][col] == p
    ensures forall r, c {:trigger h[r][c]} | InRange(r, c) && (r, c) != (row, col) :: h[r][c] == g[r][c]
  {
    g[row := g[row][col := p]]
  }

  /** Two grids with the same cells are the same grid. */
  lemma GridExt(g: Grid, h: Grid)
    requires IsGrid(g) && IsGrid(h)
    requires forall r, c | InRange(r, c) :: g[r][c] == h[r][c]
    ensures g == h
  {
    forall r | 0 <= r < Size
      ensures g[r] == h[r]
    {
      assert forall c | 0 <= c < Size :: g[r][c] == h[r][c];
    }
  }

  /** Writing a cell back to what it held undoes a placement. */
  lemma PlaceRestore(g: Grid, row: int, col: int, p: Cell)
    requires IsGrid(g) && InRange(row, col)
    ensures Place(Place(g, row, col, p), row, col, g[row][col]) == g
  {
    GridExt(Place(Place(g, row, col, p), row, col, g[row][col]), g);
  }

  // ---------------------------------------------------------------------------
  // Counting cells

  function CountRow(row: seq<Cell>, p: Cell): nat
    requires |row| == Size
  {
    (if row[0] == p then 1 else 0) + (if row[1] == p then 1 else 0) + (if row[2] == p then 1 else 0)
  }

  /** How many cells of the grid hold p. */
  function Count(g: Grid, p: Cell): nat
    requires IsGrid(g)
  {
    CountRow(g[0], p) + CountRow(g[1], p) + CountRow(g[2], p)
  }

  /** No empty cell remains. */
  predicate Full(g: Grid)
    requires IsGrid(g)
  {
    forall r, c | 0 <= r < Size && 0 <= c < Size :: g[r][c] != Empty
  }

  lemma {:induction false} FullIffNoEmpty(g: Grid)
    requires IsGrid(g)
    ensures Full(g) <==> Count(g, Empty) == 0
    ensures Count(g, Empty) <= 9
  {
    if !Full(g) {
      var r, c :| 0 <= r < Size && 0 <= c < Size && g[r][c] == Empty;
      assert |g[r]| == Size;
      assert CountRow(g[r], Empty) > 0;
    }
  }

  /** Placing a player on an empty cell takes one empty cell away and adds one cell
      of that player, leaving the count of the other player as it was. */
  lemma {:induction false} PlaceCount(g: Grid, row: int, col: int, p: Cell)
    requires IsGrid(g) && InRange(row, col) && g[row][col] == Empty && p != Empty
    ensures Count(Place(g, row, col, p), Empty) == Count(g, Empty) - 1
    ensures Count(Place(g, row, col, p), p) == Count(g, p) + 1
    ensures Count(Place(g, row, col, p), Other(p)) == Count(g, Other(p))
  {
    var h := Place(g, row, col, p);
    forall r | 0 <= r < Size && r != row
      ensures h[r] == g[r]
    {
      assert forall c | 0 <= c < Size :: h[r][c] == g[r][c];
    }
  }

  // ---------------------------------------------------------------------------
  // Winning lines

  /** Every cell of row r holds p. */
  predicate RowOf(g: Grid, r: int, p: Cell)
    requires IsGrid(g) && 0 <= r < Size
  {
    forall c | 0 <= c < Size :: g[r][c] == p
  }

  /** Every cell of column c holds p. */
  predicate ColumnOf(g: Grid, c: int, p: Cell)
    requires IsGrid(g) && 0 <= c < Size
  {
    forall r | 0 <= r < Size :: g[r][c] == p
  }

  /** Every cell from top-left to bottom-right holds p. */
  predicate MainDiagonalOf(g: Grid, p: Cell)
    requires IsGrid(g)
  {
    forall i | 0 <= i < Size :: g[i][i] == p
  }

  /** Every cell from top-right to bottom-left holds p. */
  predicate AntiDiagonalOf(g: Grid, p: Cell)
    requires IsGrid(g)
  {
    forall i | 0 <= i < Size :: g[i][Size - 1 - i] == p
  }

  /** p holds some row, some column or one of the two diagonals. */
  predicate Wins(g: Grid, p: Cell)
    requires IsGrid(g)
  {
    (exists r | 0 <= r < Size :: RowOf(g, r, p)) ||
    (exists c | 0 <= c < Size :: ColumnOf(g, c, p)) ||
    MainDiagonalOf(g, p) ||
    AntiDiagonalOf(g, p)
  }

  /** A line is only won by the cells p holds: a grid where p holds at least the
      cells it holds in h is won by p whenever h is. */
  lemma {:induction false} WinsMonotone(h: Grid, g: Grid, p: Cell)
    requires IsGrid(h) && IsGrid(g)
    requires forall r, c | InRange(r, c) && h[r][c] == p :: g[r][c] == p
    ensures Wins(h, p) ==> Wins(g, p)
  {
    if exists r | 0 <= r < Size :: RowOf(h, r, p) {
      var r :| 0 <= r < Size && RowOf(h, r, p);
      assert RowOf(g, r, p);
    } else if exists c | 0 <= c < Size :: ColumnOf(h, c, p) {
      var c :| 0 <= c < Size && ColumnOf(h, c, p);
      assert ColumnOf(g, c, p);
    }
  }
}
