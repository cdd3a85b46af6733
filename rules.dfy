/** The generation rule: a dead cell with exactly three live neighbours
    comes alive, a live cell with two or three live neighbours stays
    alive, every other cell is dead in the next generation. All counts
    are taken on the previous generation. */
module Rules {
  import opened Grids

  /** The successor of one cell, given its state and its number of live
      neighbours in the previous generation. */
  function NextCell(state: Cell, count: nat): (next: Cell)
    ensures next == Dyaboo <==> count == 3 || (state == Dyaboo && count == 2)
  {
    match state
    case Void => if count == 3 then Dyaboo else Void
    case Dyaboo => if count > 3 || count < 2 then Void else Dyaboo
  }

  /** The next generation of the whole board. */
  function Next(g: Grid): (h: Grid)
    ensures |h| == |g| && forall i :: 0 <= i < |g| ==> |h[i]| == |g[i]|
  {
    seq(|g|, i requires 0 <= i < |g| =>
      seq(|g[i]|, j requires 0 <= j < |g[i]| =>
        NextCell(g[i][j], AroundCount(g, i, j, Dyaboo))))
  }

  /** The four rows of the rule table, cell by cell. */
  lemma NextRule(g: Grid, row: nat, column: nat)
    requires InBounds(g, row, column)
    ensures var count := AroundCount(g, row, column, Dyaboo);
      && (g[row][column] == Void && count == 3 ==> Next(g)[row][column] == Dyaboo)
      && (g[row][column] == Void && count != 3 ==> Next(g)[row][column] == Void)
      && (g[row][column] == Dyaboo && (count < 2 || count > 3) ==> Next(g)[row][column] == Void)
      && (g[row][column] == Dyaboo && 2 <= count <= 3 ==> Next(g)[row][column] == Dyaboo)
  {
  }

  /** A rectangular board steps to a rectangular board of the same size. */
  lemma NextKeepsSize(g: Grid, rows: nat, columns: nat)
    requires IsRectangle(g, rows, columns)
    ensures IsRectangle(Next(g), rows, columns)
  {
  }

  /** Each new cell depends only on the 3x3 block around it in the previous
      generation: boards that agree there give the same new cell. */
  lemma NextIsLocal(g: Grid, h: Grid, row: nat, column: nat)
    requires InBounds(g, row, column) && InBounds(h, row, column)
    requires forall i, j :: row - 1 <= i <= row + 1 && column - 1 <= j <= column + 1 ==>
      InBounds(g, i, j) == InBounds(h, i, j) && (InBounds(g, i, j) ==> g[i][j] == h[i][j])
    ensures Next(g)[row][column] == Next(h)[row][column]
  {
    forall k | 0 <= k < |Around|
      ensures Matches(g, row + Around[k].0, column + Around[k].1, Dyaboo)
           == Matches(h, row + Around[k].0, column + Around[k].1, Dyaboo)
    {
      var (i, j) := (row + Around[k].0, column + Around[k].1);
      assert row - 1 <= i <= row + 1 && column - 1 <= j <= column + 1;
    }
    CountOverIsLocal(g, h, row, column, Dyaboo, Around);
  }

  /** A board with no live cell stays without live cells. */
  lemma DeadBoardStaysDead(g: Grid)
    requires forall i, j :: InBounds(g, i, j) ==> g[i][j] == Void
    ensures forall i, j :: InBounds(Next(g), i, j) ==> Next(g)[i][j] == Void
  {
    forall i, j | InBounds(Next(g), i, j)
      ensures Next(g)[i][j] == Void
    {
      CountOverAbsent(g, i, j, Dyaboo, Around);
    }
  }

  /** A live cell with no live neighbour dies. */
  lemma IsolatedCellDies(g: Grid, row: nat, column: nat)
    requires InBounds(g, row, column) && g[row][column] == Dyaboo
    requires forall i, j ::
      (row - 1 <= i <= row + 1 && column - 1 <= j <= column + 1 && (i, j) != (row, column) && InBounds(g, i, j))
      ==> g[i][j] == Void
    ensures Next(g)[row][column] == Void
  {
    AroundCountUnfolded(g, row, column, Dyaboo);
  }

  /** `g` is a rows x columns board whose only live cells form the 2x2
      block with top-left corner `(r, c)`. */
  predicate BlockAt(g: Grid, rows: nat, columns: nat, r: int, c: int) {
    IsRectangle(g, rows, columns) && 0 <= r && r + 1 < rows && 0 <= c && c + 1 < columns &&
    forall i, j :: 0 <= i < rows && 0 <= j < columns ==>
      (g[i][j] == Dyaboo <==> r <= i <= r + 1 && c <= j <= c + 1)
  }

  /** `g` is a rows x columns board whose only live cells are the lying
      blinker `(r, c - 1), (r, c), (r, c + 1)`, away from the edges. */
  predicate Lying(g: Grid, rows: nat, columns: nat, r: int, c: int) {
    IsRectangle(g, rows, columns) && 1 <= r < rows - 1 && 1 <= c < columns - 1 &&
    forall i, j :: 0 <= i < rows && 0 <= j < columns ==>
      (g[i][j] == Dyaboo <==> i == r && c - 1 <= j <= c + 1)
  }

  /** `g` is a rows x columns board whose only live cells are the standing
      blinker `(r - 1, c), (r, c), (r + 1, c)`, away from the edges. */
  predicate Standing(g: Grid, rows: nat, columns: nat, r: int, c: int) {
    IsRectangle(g, rows, columns) && 1 <= r < rows - 1 && 1 <= c < columns - 1 &&
    forall i, j :: 0 <= i < rows && 0 <= j < columns ==>
      (g[i][j] == Dyaboo <==> j == c && r - 1 <= i <= r + 1)
  }

  /** A 2x2 block anywhere on an otherwise dead board is a still life. */
  lemma BlockIsStill(g: Grid, rows: nat, columns: nat, r: int, c: int)
    requires BlockAt(g, rows, columns, r, c)
    ensures Next(g) == g
  {
    NextKeepsSize(g, rows, columns);
    forall i, j | 0 <= i < rows && 0 <= j < columns
      ensures Next(g)[i][j] == g[i][j]
    {
      AroundCountUnfolded(g, i, j, Dyaboo);
    }
    SameBoard(Next(g), g);
  }

  /** A lying blinker stands up in one step. */
  lemma BlinkerStandsUp(g: Grid, rows: nat, columns: nat, r: int, c: int)
    requires Lying(g, rows, columns, r, c)
    ensures Standing(Next(g), rows, columns, r, c)
  {
    NextKeepsSize(g, rows, columns);
    forall i, j | 0 <= i < rows && 0 <= j < columns
      ensures Next(g)[i][j] == Dyaboo <==> j == c && r - 1 <= i <= r + 1
    {
      AroundCountUnfolded(g, i, j, Dyaboo);
    }
  }

  /** A standing blinker lies down in one step. */
  lemma BlinkerLiesDown(g: Grid, rows: nat, columns: nat, r: int, c: int)
    requires Standing(g, rows, columns, r, c)
    ensures Lying(Next(g), rows, columns, r, c)
  {
    NextKeepsSize(g, rows, columns);
    forall i, j | 0 <= i < rows && 0 <= j < columns
      ensures Next(g)[i][j] == Dyaboo <==> i == r && c - 1 <= j <= c + 1
    {
      AroundCountUnfolded(g, i, j, Dyaboo);
    }
  }

  /** The blinker is an oscillator of period two: it changes after one step
      and is back after two. */
  lemma BlinkerOscillates(g: Grid, rows: nat, columns: nat, r: int, c: int)
    requires Lying(g, rows, columns, r, c)
    ensures Next(g) != g
    ensures Next(Next(g)) == g
  {
    BlinkerStandsUp(g, rows, columns, r, c);
    BlinkerLiesDown(Next(g), rows, columns, r, c);
    var h := Next(Next(g));
    forall i, j | 0 <= i < rows && 0 <= j < columns
      ensures h[i][j] == g[i][j]
    {
      assert h[i][j] == Dyaboo <==> g[i][j] == Dyaboo;
    }
    SameBoard(h, g);
    assert Next(g)[r - 1][c] != g[r - 1][c];
  }
}
