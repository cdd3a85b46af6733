/** The seeder: before the first generation it walks every position of
    the table and makes alive the cells of one fixed pattern, placed with
    its origin at `(XShift, YShift)`. Cells of the pattern that fall off
    the board are never visited and so are dropped. */
module Seeding {
  import opened Grids
  import opened Tables

  /** The patterns the seeder can place (the random fill is not part of
      this model). */
  datatype FillGrid = Glider | LightweightSpaceship | GosperGun

  /** Where the pattern's origin goes: `XShift` is added to rows and
      `YShift` to columns. */
  const XShift: int := 0
  const YShift: int := 0

  /** The live cells of each pattern, row by row from its origin: entry
      `k` lists, in increasing order, the columns of the pattern's cells in
      its row `k`. Every row holds a cell and no column is negative. */
  function PatternRows(p: FillGrid): (r: seq<seq<int>>)
    ensures |r| > 0 && forall k :: 0 <= k < |r| ==> r[k] != []
    ensures forall k, y :: 0 <= k < |r| && y in r[k] ==> 0 <= y
    ensures forall k, a, b :: 0 <= k < |r| && 0 <= a < b < |r[k]| ==> r[k][a] < r[k][b]
  {
    match p
    case Glider => [[1], [2], [0, 1, 2]]
    case LightweightSpaceship => [[1, 2, 3, 4], [0, 4], [4], [3]]
    case GosperGun =>
      [[24],
       [22, 24],
       [12, 13, 20, 21, 34, 35],
       [11, 15, 20, 21, 34, 35],
       [0, 1, 10, 16, 20, 21],
       [0, 1, 10, 14, 16, 17, 22, 24],
       [10, 16, 24],
       [11, 15],
       [12, 13]]
  }

  /** The live cells of each pattern, as `(row, column)` offsets from its
      origin. */
  ghost function Offsets(p: FillGrid): set<(int, int)> {
    set k, y | 0 <= k < |PatternRows(p)| && y in PatternRows(p)[k] :: (k, y)
  }

  /** Whether pattern `p`, placed at `(XShift, YShift)`, covers `(row, column)`. */
  predicate Marked(p: FillGrid, row: int, column: int)
    ensures Marked(p, row, column) <==> (row - XShift, column - YShift) in Offsets(p)
  {
    0 <= row - XShift < |PatternRows(p)| && column - YShift in PatternRows(p)[row - XShift]
  }

  /** The board after seeding `g` with `p`: covered cells alive, every
      other cell as it was. */
  function Seeded(g: Grid, p: FillGrid): (h: Grid)
    ensures |h| == |g| && forall i :: 0 <= i < |g| ==> |h[i]| == |g[i]|
  {
    seq(|g|, i requires 0 <= i < |g| =>
      seq(|g[i]|, j requires 0 <= j < |g[i]| =>
        if Marked(p, i, j) then Dyaboo else g[i][j]))
  }

  /** The on-board positions of the live cells of `g`. */
  ghost function LiveCells(g: Grid): set<(int, int)> {
    set i, j | 0 <= i < |g| && 0 <= j < |g[i]| && g[i][j] == Dyaboo :: (i, j)
  }

  /** Some `y` of `ys`, moved by `shift`, equals `column`. */
  predicate AnyShifted(ys: seq<int>, shift: int, column: int)
    ensures AnyShifted(ys, shift, column) <==> exists k :: 0 <= k < |ys| && ys[k] + shift == column
  {
    column - shift in ys
  }

  /** The seeder's work at one position: each test of the selected pattern
      that matches the position makes its cell alive. */
  method FillCell(table: Table, grid: FillGrid, row: nat, column: nat)
    requires table.Valid() && row < table.rows && column < table.columns
    modifies table, table.cells
    ensures table.Valid()
    ensures table.Contents == old(table.Contents)[row := old(table.Contents)[row][column :=
      if Marked(grid, row, column) then Dyaboo else old(table.Contents)[row][column]]]
  {
    match grid {
      case Glider => FillGlider(table, row, column);
      case LightweightSpaceship => FillSpaceship(table, row, column);
      case GosperGun => FillGosperGun(table, row, column);
    }
  }

  /** The glider's tests at one position. */
  method FillGlider(table: Table, row: nat, column: nat)
    requires table.Valid() && row < table.rows && column < table.columns
    modifies table, table.cells
    ensures table.Valid()
    ensures table.Contents == old(table.Contents)[row := old(table.Contents)[row][column :=
      if Marked(Glider, row, column) then Dyaboo else old(table.Contents)[row][column]]]
  {
    ghost var before := table.Contents;
    if row == 0 + XShift && column == 1 + YShift {
      table.Set(row, column, Dyaboo);
    }
    if row == 1 + XShift && column == 2 + YShift {
      table.Set(row, column, Dyaboo);
    }
    if row == 2 + XShift && AnyShifted([0, 1, 2], YShift, column) {
      table.Set(row, column, Dyaboo);
    }
    assert table.Contents[row][column] == if Marked(Glider, row, column) then Dyaboo else before[row][column];
    assert forall i :: 0 <= i < |before| && i != row ==> table.Contents[i] == before[i];
    assert forall j :: 0 <= j < |before[row]| && j != column ==> table.Contents[row][j] == before[row][j];
    assert table.Contents[row] == before[row][column := table.Contents[row][column]];
  }

  /** The lightweight spaceship's tests at one position. */
  method FillSpaceship(table: Table, row: nat, column: nat)
    requires table.Valid() && row < table.rows && column < table.columns
    modifies table, table.cells
    ensures table.Valid()
    ensures table.Contents == old(table.Contents)[row := old(table.Contents)[row][column :=
      if Marked(LightweightSpaceship, row, column) then Dyaboo else old(table.Contents)[row][column]]]
  {
    ghost var before := table.Contents;
    if row == 0 + XShift && AnyShifted([1, 2, 3, 4], YShift, column) {
      table.Set(row, column, Dyaboo);
    }
    if row == 1 + XShift && AnyShifted([0, 4], YShift, column) {
      table.Set(row, column, Dyaboo);
    }
    if row == 2 + XShift && column == 4 + YShift {
      table.Set(row, column, Dyaboo);
    }
    if row == 3 + XShift && column == 3 + YShift {
      table.Set(row, column, Dyaboo);
    }
    assert table.Contents[row][column] == if Marked(LightweightSpaceship, row, column) then Dyaboo else before[row][column];
    assert forall i :: 0 <= i < |before| && i != row ==> table.Contents[i] == before[i];
    assert forall j :: 0 <= j < |before[row]| && j != column ==> table.Contents[row][j] == before[row][j];
    assert table.Contents[row] == before[row][column := table.Contents[row][column]];
  }

  /** The Gosper glider gun's tests at one position. */
  method FillGosperGun(table: Table, row: nat, column: nat)
    requires table.Valid() && row < table.rows && column < table.columns
    modifies table, table.cells
    ensures table.Valid()
    ensures table.Contents == old(table.Contents)[row := old(table.Contents)[row][column :=
      if Marked(GosperGun, row, column) then Dyaboo else old(table.Contents)[row][column]]]
  {
    ghost var before := table.Contents;
    if row == 0 + XShift && column == 24 + YShift {
      table.Set(row, column, Dyaboo);
    }
    if row == 1 + XShift && AnyShifted([22, 24], YShift, column) {
      table.Set(row, column, Dyaboo);
    }
    if row == 2 + XShift && AnyShifted([12, 13, 20, 21, 34, 35], YShift, column) {
      table.Set(row, column, Dyaboo);
    }
    if row == 3 + XShift && AnyShifted([11, 15, 20, 21, 34, 35], YShift, column) {
      table.Set(row, column, Dyaboo);
    }
    if row == 4 + XShift && AnyShifted([0, 1, 10, 16, 20, 21], YShift, column) {
      table.Set(row, column, Dyaboo);
    }
    if row == 5 + XShift && AnyShifted([0, 1, 10, 14, 16, 17, 22, 24], YShift, column) {
      table.Set(row, column, Dyaboo);
    }
    if row == 6 + XShift && AnyShifted([10, 16, 24], YShift, column) {
      table.Set(row, column, Dyaboo);
    }
    if row == 7 + XShift && AnyShifted([11, 15], YShift, column) {
      table.Set(row, column, Dyaboo);
    }
    if row == 8 + XShift && AnyShifted([12, 13], YShift, column) {
      table.Set(row, column, Dyaboo);
    }
    assert table.Contents[row][column] == if Marked(GosperGun, row, column) then Dyaboo else before[row][column];
    assert forall i :: 0 <= i < |before| && i != row ==> table.Contents[i] == before[i];
    assert forall j :: 0 <= j < |before[row]| && j != column ==> table.Contents[row][j] == before[row][j];
    assert table.Contents[row] == before[row][column := table.Contents[row][column]];
  }

  /** Seeds `table` with pattern `grid`, in place. */
  method Fill(table: Table, grid: FillGrid)
    requires table.Valid()
    modifies table, table.cells
    ensures table.Valid()
    ensures table.Contents == Seeded(old(table.Contents), grid)
  {
    var (rows, columns) := table.GetSize();
    ghost var start := table.Contents;
    ghost var want := Seeded(start, grid);
    for row := 0 to rows
      invariant table.Valid()
      invariant forall i :: 0 <= i < row ==> table.Contents[i] == want[i]
      invariant forall i :: row <= i < rows ==> table.Contents[i] == start[i]
    {
      for column := 0 to columns
        invariant table.Valid()
        invariant forall i :: 0 <= i < row ==> table.Contents[i] == want[i]
        invariant forall i :: row < i < rows ==> table.Contents[i] == start[i]
        invariant forall j :: 0 <= j < column ==> table.Contents[row][j] == want[row][j]
        invariant forall j :: column <= j < columns ==> table.Contents[row][j] == start[row][j]
      {
        FillCell(table, grid, row, column);
      }
      assert table.Contents[row] == want[row];
    }
    SameBoard(table.Contents, want);
  }

  /** Seeding only ever makes cells alive: covered cells are alive
      afterwards, every other cell keeps its state, and no live cell dies. */
  lemma SeedingOnlyAddsLife(g: Grid, p: FillGrid)
    ensures forall i, j :: InBounds(g, i, j) && Marked(p, i, j) ==> Seeded(g, p)[i][j] == Dyaboo
    ensures forall i, j :: InBounds(g, i, j) && !Marked(p, i, j) ==> Seeded(g, p)[i][j] == g[i][j]
    ensures LiveCells(g) <= LiveCells(Seeded(g, p))
  {
  }

  /** Seeding twice with the same pattern is the same as seeding once. */
  lemma SeedingIsIdempotent(g: Grid, p: FillGrid)
    ensures Seeded(Seeded(g, p), p) == Seeded(g, p)
  {
    SameBoard(Seeded(Seeded(g, p), p), Seeded(g, p));
  }

  /** Seeding a blank board leaves alive exactly the pattern's cells that
      lie on the board; the others are dropped. */
  lemma SeedingBlankBoard(rows: nat, columns: nat, p: FillGrid)
    ensures LiveCells(Seeded(Blank(rows, columns), p)) ==
      set o | o in Offsets(p) && 0 <= o.0 + XShift < rows && 0 <= o.1 + YShift < columns :: (o.0 + XShift, o.1 + YShift)
  {
    var g := Seeded(Blank(rows, columns), p);
    var placed := set o | o in Offsets(p) && 0 <= o.0 + XShift < rows && 0 <= o.1 + YShift < columns :: (o.0 + XShift, o.1 + YShift);
    forall q | q in LiveCells(g)
      ensures q in placed
    {
      assert Marked(p, q.0, q.1);
      var o := (q.0 - XShift, q.1 - YShift);
      assert o in Offsets(p);
    }
    forall q | q in placed
      ensures q in LiveCells(g)
    {
      var o :| o in Offsets(p) && 0 <= o.0 + XShift < rows && 0 <= o.1 + YShift < columns && q == (o.0 + XShift, o.1 + YShift);
      assert Marked(p, q.0, q.1);
    }
  }

  /** On a board of at least 3x3 the glider occupies exactly its five cells. */
  lemma GliderOnBlankBoard(rows: nat, columns: nat)
    requires rows >= 3 && columns >= 3
    ensures LiveCells(Seeded(Blank(rows, columns), Glider)) == {(0, 1), (1, 2), (2, 0), (2, 1), (2, 2)}
  {
  }

  /** On the program's board of 20 rows and 40 columns the whole Gosper gun
      fits: no cell of it is dropped. */
  lemma GosperGunFits()
    ensures LiveCells(Seeded(Blank(20, 40), GosperGun)) == Offsets(GosperGun)
  {
  }
}
