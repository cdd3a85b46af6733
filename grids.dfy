/** Board values and neighbour counting.
    A cell is dead (`Void`) or alive (`Dyaboo`); a board is a sequence of
    rows of cells, indexed `(row, column)` from the top-left corner.
    The neighbourhood of a cell is bounded: positions that fall off the
    board are absent, they neither count nor wrap around to the far side. */
module Grids {

  datatype Cell = Void | Dyaboo

  type Grid = seq<seq<Cell>>

  /** `g` has `rows` rows of `columns` cells each. */
  predicate IsRectangle(g: Grid, rows: nat, columns: nat) {
    |g| == rows && forall i :: 0 <= i < rows ==> |g[i]| == columns
  }

  predicate InBounds(g: Grid, row: int, column: int) {
    0 <= row < |g| && 0 <= column < |g[row]|
  }

  /** The board that a freshly built table holds: every cell dead. */
  function Blank(rows: nat, columns: nat): (g: Grid)
    ensures IsRectangle(g, rows, columns)
    ensures forall i, j :: InBounds(g, i, j) ==> g[i][j] == Void
  {
    seq(rows, _ => seq(columns, _ => Void))
  }

  /** The eight positions around a cell, relative to it. */
  const Around: seq<(int, int)> :=
    [(-1, -1), (-1, 0), (-1, 1), (0, -1), (0, 1), (1, -1), (1, 0), (1, 1)]

  /** 1 when `(row, column)` lies on the board and holds `target`, else 0. */
  function Matches(g: Grid, row: int, column: int, target: Cell): nat {
    if InBounds(g, row, column) && g[row][column] == target then 1 else 0
  }

  /** The number of the positions `offsets`, taken relative to
      `(row, column)`, that lie on the board and hold `target`. */
  function CountOver(g: Grid, row: int, column: int, target: Cell, offsets: seq<(int, int)>): (n: nat)
    ensures n <= |offsets|
  {
    if offsets == [] then 0
    else
      var (dr, dc) := offsets[|offsets| - 1];
      CountOver(g, row, column, target, offsets[..|offsets| - 1]) + Matches(g, row + dr, column + dc, target)
  }

  /** How many of the up-to-eight neighbours of `(row, column)` hold `target`. */
  function AroundCount(g: Grid, row: int, column: int, target: Cell): (n: nat)
    ensures n <= 8
  {
    CountOver(g, row, column, target, Around)
  }

  /** Reference definition of the neighbours that are counted: the on-board
      positions of the 3x3 block centred on `(row, column)`, other than the
      centre itself, that hold `target`. */
  ghost function NeighbourSet(g: Grid, row: int, column: int, target: Cell): set<(int, int)> {
    set i, j | row - 1 <= i <= row + 1 && column - 1 <= j <= column + 1 && (i, j) != (row, column)
                 && InBounds(g, i, j) && g[i][j] == target :: (i, j)
  }

  /** The positions that `CountOver` counts. */
  ghost function SetOver(g: Grid, row: int, column: int, target: Cell, offsets: seq<(int, int)>): set<(int, int)> {
    if offsets == [] then {}
    else
      var (dr, dc) := offsets[|offsets| - 1];
      SetOver(g, row, column, target, offsets[..|offsets| - 1])
        + (if Matches(g, row + dr, column + dc, target) == 1 then {(row + dr, column + dc)} else {})
  }

  lemma {:induction false} SetOverMembers(g: Grid, row: int, column: int, target: Cell, offsets: seq<(int, int)>, p: (int, int))
    ensures p in SetOver(g, row, column, target, offsets) <==>
      exists k :: 0 <= k < |offsets| && p == (row + offsets[k].0, column + offsets[k].1)
                  && InBounds(g, p.0, p.1) && g[p.0][p.1] == target
  {
    if offsets != [] {
      var n := |offsets| - 1;
      var front := offsets[..n];
      SetOverMembers(g, row, column, target, front, p);
      if p in SetOver(g, row, column, target, offsets) && p !in SetOver(g, row, column, target, front) {
        assert p == (row + offsets[n].0, column + offsets[n].1);
      }
      if exists k :: 0 <= k < |offsets| && p == (row + offsets[k].0, column + offsets[k].1)
                     && InBounds(g, p.0, p.1) && g[p.0][p.1] == target {
        var k :| 0 <= k < |offsets| && p == (row + offsets[k].0, column + offsets[k].1)
                 && InBounds(g, p.0, p.1) && g[p.0][p.1] == target;
        if k < n {
          assert front[k] == offsets[k];
        }
      }
    }
  }

  /** Over offsets without repetitions, the count is the size of the set counted. */
  lemma {:induction false} CountOverIsCardinality(g: Grid, row: int, column: int, target: Cell, offsets: seq<(int, int)>)
    requires forall a, b :: 0 <= a < b < |offsets| ==> offsets[a] != offsets[b]
    ensures CountOver(g, row, column, target, offsets) == |SetOver(g, row, column, target, offsets)|
  {
    if offsets != [] {
      var n := |offsets| - 1;
      var front := offsets[..n];
      CountOverIsCardinality(g, row, column, target, front);
      var p := (row + offsets[n].0, column + offsets[n].1);
      SetOverMembers(g, row, column, target, front, p);
    }
  }

  /** Two boards of the same shape that agree cell by cell are equal. */
  lemma SameBoard(g: Grid, h: Grid)
    requires |g| == |h| && forall i :: 0 <= i < |g| ==> |g[i]| == |h[i]|
    requires forall i, j :: InBounds(g, i, j) ==> g[i][j] == h[i][j]
    ensures g == h
  {
    forall i | 0 <= i < |g|
      ensures g[i] == h[i]
    {
      assert forall j :: 0 <= j < |g[i]| ==> g[i][j] == h[i][j];
    }
  }

  /** A position is among those counted exactly when it is one of the
      neighbours of the reference definition. */
  lemma NeighbourSetIsSetOver(g: Grid, row: int, column: int, target: Cell, p: (int, int))
    ensures p in SetOver(g, row, column, target, Around) <==> p in NeighbourSet(g, row, column, target)
  {
    SetOverMembers(g, row, column, target, Around, p);
    if p in NeighbourSet(g, row, column, target) {
      var (di, dj) := (p.0 - row, p.1 - column);
      var k :=
        if di == -1 then (if dj == -1 then 0 else if dj == 0 then 1 else 2)
        else if di == 0 then (if dj == -1 then 3 else 4)
        else (if dj == -1 then 5 else if dj == 0 then 6 else 7);
      assert p == (row + Around[k].0, column + Around[k].1);
    }
  }

  /** The neighbour count is exactly the number of on-board neighbours
      that hold `target`. */
  lemma AroundCountIsNeighbourCount(g: Grid, row: int, column: int, target: Cell)
    ensures AroundCount(g, row, column, target) == |NeighbourSet(g, row, column, target)|
  {
    CountOverIsCardinality(g, row, column, target, Around);
    forall p | true
      ensures p in SetOver(g, row, column, target, Around) <==> p in NeighbourSet(g, row, column, target)
    {
      NeighbourSetIsSetOver(g, row, column, target, p);
    }
    assert SetOver(g, row, column, target, Around) == NeighbourSet(g, row, column, target);
  }

  /** The count only looks at the 3x3 block around the cell: two boards
      that agree there (on which positions exist and what they hold) give
      the same count. */
  lemma {:induction false} CountOverIsLocal(g: Grid, h: Grid, row: int, column: int, target: Cell, offsets: seq<(int, int)>)
    requires forall k :: 0 <= k < |offsets| ==>
      Matches(g, row + offsets[k].0, column + offsets[k].1, target) == Matches(h, row + offsets[k].0, column + offsets[k].1, target)
    ensures CountOver(g, row, column, target, offsets) == CountOver(h, row, column, target, offsets)
  {
    if offsets != [] {
      var n := |offsets| - 1;
      var front := offsets[..n];
      forall k | 0 <= k < |front|
        ensures Matches(g, row + front[k].0, column + front[k].1, target) == Matches(h, row + front[k].0, column + front[k].1, target)
      {
        assert front[k] == offsets[k];
      }
      CountOverIsLocal(g, h, row, column, target, front);
      assert Matches(g, row + offsets[n].0, column + offsets[n].1, target) == Matches(h, row + offsets[n].0, column + offsets[n].1, target);
    }
  }

  /** On a board with no cell holding `target` the count is 0. */
  lemma {:induction false} CountOverAbsent(g: Grid, row: int, column: int, target: Cell, offsets: seq<(int, int)>)
    requires forall i, j :: InBounds(g, i, j) ==> g[i][j] != target
    ensures CountOver(g, row, column, target, offsets) == 0
  {
    if offsets != [] {
      CountOverAbsent(g, row, column, target, offsets[..|offsets| - 1]);
    }
  }

  lemma CountOverSnoc(g: Grid, row: int, column: int, target: Cell, offsets: seq<(int, int)>, o: (int, int))
    ensures CountOver(g, row, column, target, offsets + [o])
            == CountOver(g, row, column, target, offsets) + Matches(g, row + o.0, column + o.1, target)
  {
  }

  /** The count written out as the sum over the eight neighbours. */
  lemma AroundCountUnfolded(g: Grid, row: int, column: int, target: Cell)
    ensures AroundCount(g, row, column, target) ==
      Matches(g, row - 1, column - 1, target) + Matches(g, row - 1, column, target) + Matches(g, row - 1, column + 1, target)
      + Matches(g, row, column - 1, target) + Matches(g, row, column + 1, target)
      + Matches(g, row + 1, column - 1, target) + Matches(g, row + 1, column, target) + Matches(g, row + 1, column + 1, target)
  {
    var a := Around;
    assert a == [] + [a[0]] + [a[1]] + [a[2]] + [a[3]] + [a[4]] + [a[5]] + [a[6]] + [a[7]];
    CountOverSnoc(g, row, column, target, [], a[0]);
    CountOverSnoc(g, row, column, target, [] + [a[0]], a[1]);
    CountOverSnoc(g, row, column, target, [] + [a[0]] + [a[1]], a[2]);
    CountOverSnoc(g, row, column, target, [] + [a[0]] + [a[1]] + [a[2]], a[3]);
    CountOverSnoc(g, row, column, target, [] + [a[0]] + [a[1]] + [a[2]] + [a[3]], a[4]);
    CountOverSnoc(g, row, column, target, [] + [a[0]] + [a[1]] + [a[2]] + [a[3]] + [a[4]], a[5]);
    CountOverSnoc(g, row, column, target, [] + [a[0]] + [a[1]] + [a[2]] + [a[3]] + [a[4]] + [a[5]], a[6]);
    CountOverSnoc(g, row, column, target, [] + [a[0]] + [a[1]] + [a[2]] + [a[3]] + [a[4]] + [a[5]] + [a[6]], a[7]);
  }

  /** Edges are bounded: on a board where every cell holds `target`, a cell
      has 8 counted neighbours inside the board, 5 on an edge and 3 in a
      corner. */
  lemma BoundedEdges(g: Grid, rows: nat, columns: nat, row: nat, column: nat, target: Cell)
    requires IsRectangle(g, rows, columns) && rows >= 2 && columns >= 2
    requires row < rows && column < columns
    requires forall i, j :: InBounds(g, i, j) ==> g[i][j] == target
    ensures 0 < row < rows - 1 && 0 < column < columns - 1 ==> AroundCount(g, row, column, target) == 8
    ensures (row == 0 || row == rows - 1) && (column == 0 || column == columns - 1) ==> AroundCount(g, row, column, target) == 3
    ensures (row == 0 || row == rows - 1) && 0 < column < columns - 1 ==> AroundCount(g, row, column, target) == 5
    ensures 0 < row < rows - 1 && (column == 0 || column == columns - 1) ==> AroundCount(g, row, column, target) == 5
  {
    AroundCountUnfolded(g, row, column, target);
  }
}
