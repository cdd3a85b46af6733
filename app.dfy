/** The simulation driver: it owns the current table, accumulates the
    time reported by the timer and, once a full step interval has
    elapsed, replaces the table by its next generation.
    Time is modelled with exact real numbers; the program uses 64-bit
    floating point. */
module Simulation {
  import opened Grids
  import opened Rules
  import opened Tables

  /** The effect of one timer tick of `dt` on the accumulated time and the
      board, for a step interval of `stepTime`: at most one generation per
      tick, paid for by subtracting one interval. */
  function Advance(time: real, dt: real, stepTime: real, g: Grid): (r: (real, Grid))
    ensures r.1 == g || r.1 == Next(g)
    ensures r.0 == time + dt || r.0 == time + dt - stepTime
    ensures 0.0 <= time && 0.0 <= dt ==> 0.0 <= r.0
  {
    if time + dt < stepTime then (time + dt, g)
    else (time + dt - stepTime, Next(g))
  }

  /** The effect of a series of ticks. */
  function Run(time: real, dts: seq<real>, stepTime: real, g: Grid): (real, Grid)
    decreases |dts|
  {
    if dts == [] then (time, g)
    else
      var (t, h) := Advance(time, dts[0], stepTime, g);
      Run(t, dts[1..], stepTime, h)
  }

  function Sum(dts: seq<real>): real {
    if dts == [] then 0.0 else dts[0] + Sum(dts[1..])
  }

  predicate NonNegative(dts: seq<real>) {
    forall k :: 0 <= k < |dts| ==> dts[k] >= 0.0
  }

  lemma {:induction false} SumNonNegative(dts: seq<real>)
    requires NonNegative(dts)
    ensures Sum(dts) >= 0.0
  {
    if dts != [] {
      SumNonNegative(dts[1..]);
    }
  }

  /** Ticks that add no time never change the board, as long as the
      accumulated time is below one interval. */
  lemma {:induction false} IdleTicksKeepBoard(time: real, dts: seq<real>, stepTime: real, g: Grid)
    requires 0.0 <= time < stepTime
    requires NonNegative(dts) && Sum(dts) == 0.0
    ensures Run(time, dts, stepTime, g) == (time, g)
  {
    if dts != [] {
      SumNonNegative(dts[1..]);
      IdleTicksKeepBoard(time, dts[1..], stepTime, g);
    }
  }

  /** Ticks that keep the accumulated time below one interval never
      change the board; the time is just their sum. */
  lemma {:induction false} ShortTicksKeepBoard(time: real, dts: seq<real>, stepTime: real, g: Grid)
    requires 0.0 <= time
    requires NonNegative(dts) && time + Sum(dts) < stepTime
    ensures Run(time, dts, stepTime, g) == (time + Sum(dts), g)
    decreases |dts|
  {
    if dts != [] {
      SumNonNegative(dts[1..]);
      ShortTicksKeepBoard(time + dts[0], dts[1..], stepTime, g);
    }
  }

  /** Ticks that take the accumulated time past one interval, but not past
      two, make exactly one generation and leave the excess accumulated. */
  lemma {:induction false} TicksCompleteOneStep(time: real, dts: seq<real>, stepTime: real, g: Grid)
    requires 0.0 <= time < stepTime
    requires NonNegative(dts) && stepTime <= time + Sum(dts) < stepTime + stepTime
    ensures Run(time, dts, stepTime, g) == (time + Sum(dts) - stepTime, Next(g))
    decreases |dts|
  {
    if dts != [] {
      var rest := dts[1..];
      SumNonNegative(rest);
      if time + dts[0] < stepTime {
        TicksCompleteOneStep(time + dts[0], rest, stepTime, g);
      } else {
        ShortTicksKeepBoard(time + dts[0] - stepTime, rest, stepTime, Next(g));
      }
    }
  }

  /** From any accumulated time below one interval, small ticks that add
      up to one interval have the same effect as one tick of one interval. */
  lemma TicksAddUp(time: real, dts: seq<real>, stepTime: real, g: Grid)
    requires 0.0 <= time < stepTime
    requires NonNegative(dts) && Sum(dts) == stepTime
    ensures Run(time, dts, stepTime, g) == Advance(time, stepTime, stepTime, g) == (time, Next(g))
  {
    TicksCompleteOneStep(time, dts, stepTime, g);
  }

  /** The gate is tested after the tick is added, and one tick pays for one
      interval only: a tick adding no time still makes a generation when a
      whole interval is pending, and a tick of three intervals leaves two
      accumulated. */
  lemma OneIntervalPerTick(stepTime: real, g: Grid)
    requires stepTime > 0.0
    ensures Advance(stepTime, 0.0, stepTime, g) == (0.0, Next(g))
    ensures Advance(0.0, 3.0 * stepTime, stepTime, g) == (stepTime + stepTime, Next(g))
  {
  }

  /** A tick no longer than one interval leaves less than one interval
      accumulated, so the time stays below the interval between ticks. */
  lemma TickKeepsTimeBelowStep(time: real, dt: real, stepTime: real, g: Grid)
    requires 0.0 <= time < stepTime && 0.0 <= dt <= stepTime
    ensures 0.0 <= Advance(time, dt, stepTime, g).0 < stepTime
  {
  }

  /** Writes the successor of cell `(row, column)` of `table` into the
      still dead cell at the same place of `updated`. */
  method StepCell(table: Table, updated: Table, row: nat, column: nat)
    requires table.Valid() && updated.Valid() && updated != table && updated.cells != table.cells
    requires row < table.rows && column < table.columns
    requires updated.rows == table.rows && updated.columns == table.columns
    requires updated.Contents[row][column] == Void
    modifies updated, updated.cells
    ensures updated.Valid()
    ensures updated.Contents == old(updated.Contents)[row := old(updated.Contents)[row][column := Next(table.Contents)[row][column]]]
  {
    match table.Get(row, column)
    case Void =>
      var count := table.AroundCount(row, column, Dyaboo);
      if count == 3 {
        updated.Set(row, column, Dyaboo);
      } else {
        assert updated.Contents[row] == updated.Contents[row][column := Void];
      }
    case Dyaboo =>
      var count := table.AroundCount(row, column, Dyaboo);
      if count > 3 || count < 2 {
        updated.Set(row, column, Void);
      } else {
        updated.Set(row, column, Dyaboo);
      }
  }

  /** Builds a fresh table holding the next generation of `table`. Every
      state and every count is read from `table`, which is left untouched;
      every write goes to the new table. */
  method NextTable(table: Table) returns (updated: Table)
    requires table.Valid()
    ensures fresh(updated) && fresh(updated.cells) && updated.Valid()
    ensures updated.rows == table.rows && updated.columns == table.columns
    ensures updated.Contents == Next(table.Contents)
  {
    var (rows, columns) := table.GetSize();
    ghost var want := Next(table.Contents);
    updated := new Table(rows, columns);
    for row := 0 to rows
      invariant fresh(updated) && fresh(updated.cells) && updated.Valid()
      invariant updated.rows == rows && updated.columns == columns
      invariant forall i, j :: 0 <= i < row && 0 <= j < columns ==> updated.Contents[i][j] == want[i][j]
      invariant forall i, j :: row <= i < rows && 0 <= j < columns ==> updated.Contents[i][j] == Void
    {
      for column := 0 to columns
        invariant fresh(updated) && fresh(updated.cells) && updated.Valid()
        invariant updated.rows == rows && updated.columns == columns
        invariant forall i, j :: 0 <= i < row && 0 <= j < columns ==> updated.Contents[i][j] == want[i][j]
        invariant forall j :: 0 <= j < column ==> updated.Contents[row][j] == want[row][j]
        invariant forall j :: column <= j < columns ==> updated.Contents[row][j] == Void
        invariant forall i, j :: row < i < rows && 0 <= j < columns ==> updated.Contents[i][j] == Void
      {
        StepCell(table, updated, row, column);
      }
    }
    SameBoard(updated.Contents, want);
  }

  class App {
    var table: Table
    var time: real
    const viewGrid: bool
    const stepTime: real

    ghost predicate Valid()
      reads this, table, table.cells
    {
      table.Valid() && stepTime > 0.0
    }

    /** Takes over a seeded table; no time has elapsed yet. */
    constructor (table: Table)
      requires table.Valid()
      ensures Valid()
      ensures this.table == table && time == 0.0 && viewGrid && stepTime == 0.2
    {
      this.table := table;
      time := 0.0;
      viewGrid := true;
      stepTime := 0.2;
    }

    /** One timer tick. Below one interval only the time is accumulated and
        the table stays as it is; otherwise one interval is paid and a new
        table holding the next generation, built from the old table alone,
        replaces the old one. */
    method Update(dt: real)
      requires Valid()
      modifies this
      ensures Valid()
      ensures (time, table.Contents) == Advance(old(time), dt, stepTime, old(table.Contents))
      ensures table.rows == old(table.rows) && table.columns == old(table.columns)
      ensures old(time) + dt < stepTime ==> table == old(table)
      ensures old(time) + dt >= stepTime ==> fresh(table) && fresh(table.cells)
    {
      time := time + dt;
      if time < stepTime {
        return;
      }
      time := time - stepTime;
      var updated := NextTable(table);
      table := updated;
    }
  }
}
