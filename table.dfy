/** The board as the program stores it: a `rows` x `columns` buffer of
    cells, created all dead and updated one cell at a time.
    The table's own implementation is not part of this model; its
    behaviour is fixed here from the way the generation step and the
    seeder use it: `new` makes every cell dead, `get` and `set` are only
    called on positions of the board, and `around_count` counts the
    matching cells among the up-to-eight on-board neighbours, without
    wrapping at the edges. */
module Tables {
  import opened Grids

  class Table {
    const rows: nat
    const columns: nat
    const cells: array2<Cell>
    /** The board the buffer holds, as a value. */
    ghost var Contents: Grid

    ghost predicate Valid()
      reads this, cells
    {
      cells.Length0 == rows && cells.Length1 == columns &&
      IsRectangle(Contents, rows, columns) &&
      forall i, j :: 0 <= i < rows && 0 <= j < columns ==> Contents[i][j] == cells[i, j]
    }

    /** A table of the given size with every cell dead. */
    constructor (rows: nat, columns: nat)
      ensures Valid() && fresh(cells)
      ensures this.rows == rows && this.columns == columns
      ensures Contents == Blank(rows, columns)
    {
      this.rows, this.columns := rows, columns;
      cells := new Cell[rows, columns]((_, _) => Void);
      Contents := Blank(rows, columns);
    }

    /** The number of rows and of columns, the dimensions of the board held. */
    function GetSize(): (size: (nat, nat))
      requires Valid()
      reads this, cells
      ensures IsRectangle(Contents, size.0, size.1)
    {
      (rows, columns)
    }

    /** The cell at `(row, column)` of the board. */
    function Get(row: nat, column: nat): (c: Cell)
      reads this, cells
      requires Valid() && row < rows && column < columns
      ensures c == Contents[row][column]
    {
      cells[row, column]
    }

    /** Overwrites one cell; every other cell keeps its value. */
    method Set(row: nat, column: nat, value: Cell)
      requires Valid() && row < rows && column < columns
      modifies this, cells
      ensures Valid()
      ensures Contents == old(Contents)[row := old(Contents)[row][column := value]]
    {
      cells[row, column] := value;
      Contents := Contents[row := Contents[row][column := value]];
    }

    /** The number of neighbours of `(row, column)` that hold `target`;
        positions off the board are skipped. */
    method AroundCount(row: nat, column: nat, target: Cell) returns (count: nat)
      requires Valid()
      ensures count == Grids.AroundCount(Contents, row, column, target)
    {
      count := 0;
      for k := 0 to |Around|
        invariant count == CountOver(Contents, row, column, target, Around[..k])
      {
        var (dr, dc) := Around[k];
        var i, j := row + dr, column + dc;
        if 0 <= i < rows && 0 <= j < columns && cells[i, j] == target {
          count := count + 1;
        }
        assert Around[..k + 1][..k] == Around[..k];
      }
      assert Around[..|Around|] == Around;
    }
  }
}
