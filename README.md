# Game of Life: generation step and pattern seeder

This project models the core of a small Game of Life program written in
Rust (`src/main.rs`): the double-buffered generation step `App::update`,
the seeder `fill` that places a glider, a lightweight spaceship or a
Gosper glider gun on the board, and the `Table` they work on.

- `grids.dfy` (module `Grids`): the cell states `Void` (dead) and
  `Dyaboo` (alive), boards as values, and the neighbour count with bounded
  (non-wrapping) edges, proved equal to the size of an independently
  defined neighbour set.
- `table.dfy` (module `Tables`): the class `Table`, a `rows` x `columns`
  `array2` of cells with `new`, `get_size`, `get`, `set` and
  `around_count`. The Rust file that defines the table is not part of
  this model. Its behaviour is fixed from how `main.rs` uses it: `new`
  makes every cell dead, `get` and `set` are only called on board
  positions, and `around_count` counts matching cells among the
  up-to-eight on-board neighbours without wrapping. These are
  assumptions, not facts checked against code.
- `rules.dfy` (module `Rules`): the birth-on-3 / survive-on-2-or-3 rule
  for one cell and for a whole board (`Next`). It also has lemmas for the
  rule table, locality, the dead board, an isolated cell, and, wherever
  they sit on a board of any size, the block still life and the period-2
  blinker.
- `app.dfy` (module `Simulation`): the class `App` with its fields
  `table`, `time`, `view_grid` and `step_time`. `Update` is proved against
  the pure tick function `Advance`. `NextTable` and `StepCell` hold the
  nested loops and the per-cell match of `App::update`. Lemmas about
  series of ticks state the fixed-rate policy.
- `fill.dfy` (module `Seeding`): `Fill`, with the pattern tests
  position by position, proved against the pure `Seeded`. Lemmas state
  that seeding only adds life, is idempotent, and clips the pattern to
  the board.

Time is an exact `real`. The program uses `f64`, so rounding is not
modelled. The step gate compares the accumulated time with `step_time`
exactly as the code does.

## Model

| member | source | states |
|---|---|---|
| `Grids.CountOver` | src/main.rs:86 | the count over a list of relative positions never exceeds the length of the list |
| `Grids.AroundCount` | src/main.rs:86 | a live-neighbour count lies in [0, 8] |
| `Grids.AroundCountIsNeighbourCount` | src/main.rs:86 | the count equals the number of on-board positions of the 3x3 block, centre excluded, that hold the target |
| `Grids.CountOverIsCardinality` | src/main.rs:86 | over offsets without repetition, the count is the size of the set of positions counted |
| `Grids.SetOverMembers` | src/main.rs:86 | a position is counted iff it is one of the offsets, lies on the board and holds the target |
| `Grids.CountOverIsLocal` | src/main.rs:86 | boards that agree on the counted positions give equal counts |
| `Grids.CountOverAbsent` | src/main.rs:86 | on a board without the target the count is 0 |
| `Grids.AroundCountUnfolded` | src/main.rs:86 | the count is the sum over the eight neighbours, each 1 when on the board and matching |
| `Grids.BoundedEdges` | src/main.rs:86 | on an all-matching board: 8 inside, 5 on an edge, 3 in a corner (edges do not wrap) |
| `Grids.Blank` | src/main.rs:80 | a new board has the requested size and every cell dead |
| `Tables.Table.constructor` | src/main.rs:80 | `Table::new` yields a fresh buffer of the given size, all cells dead |
| `Tables.Table.GetSize` | src/main.rs:79 | `get_size` returns the dimensions of the board the table holds |
| `Tables.Table.Get` | src/main.rs:84 | `get` returns the cell at that position of the board |
| `Tables.Table.Set` | src/main.rs:88 | `set` changes exactly one cell to the given value; the table stays well-formed |
| `Tables.Table.AroundCount` | src/main.rs:86 | `around_count` returns the bounded neighbour count of the board for the target |
| `Rules.NextCell` | src/main.rs:84-98 | the successor is alive iff the count is 3, or the cell is alive and the count is 2 |
| `Rules.Next` | src/main.rs:79-81 | the next board has the same number of rows, and each row the same length |
| `Rules.NextRule` | src/main.rs:84-98 | the four rows of the rule table: dead+3 born, dead+other stays dead, live+<2 or >3 dies, live+2..3 survives |
| `Rules.NextKeepsSize` | src/main.rs:79-80 | a rows x columns board steps to a rows x columns board |
| `Rules.NextIsLocal` | src/main.rs:84-92 | a new cell depends only on the 3x3 block around it in the previous generation |
| `Rules.DeadBoardStaysDead` | src/main.rs:80-90 | a board with no live cell steps to a board with no live cell |
| `Rules.IsolatedCellDies` | src/main.rs:91-94 | a live cell with no live neighbour dies |
| `Rules.BlockIsStill` | src/main.rs:84-98 | a board whose only live cells are a 2x2 block, anywhere (corners and edges included), is unchanged by a step |
| `Rules.BlinkerStandsUp` | src/main.rs:84-98 | on any board, a lying blinker away from the edges steps to the standing blinker with the same centre |
| `Rules.BlinkerLiesDown` | src/main.rs:84-98 | on any board, a standing blinker away from the edges steps to the lying blinker with the same centre |
| `Rules.BlinkerOscillates` | src/main.rs:84-98 | on any board, a blinker away from the edges changes in one step and is back after two (period 2) |
| `Simulation.StepCell` | src/main.rs:83-98 | writes the rule's successor of the old cell into the new table, only at that position |
| `Simulation.NextTable` | src/main.rs:79-101 | the fresh table holds `Next` of the old board, has its size, and the old table is not modified |
| `Simulation.App.constructor` | src/main.rs:32-39 | `App::new` takes the table, time 0, grid lines on, step interval 0.2 |
| `Simulation.App.Update` | src/main.rs:73-103 | time and board after a tick are `Advance` of the old ones; below the interval the same table is kept, otherwise a fresh table replaces it |
| `Simulation.Advance` | src/main.rs:74-102 | one tick makes at most one generation, pays at most one interval from the accumulated time, and keeps the time non-negative |
| `Simulation.SumNonNegative` | src/main.rs:74 | ticks of non-negative length add up to a non-negative time |
| `Simulation.IdleTicksKeepBoard` | src/main.rs:74-77 | ticks adding no time leave time and board unchanged while below one interval |
| `Simulation.ShortTicksKeepBoard` | src/main.rs:74-77 | ticks keeping the accumulated time below one interval leave the board unchanged; the time is their sum |
| `Simulation.TicksCompleteOneStep` | src/main.rs:74-78 | ticks taking the time past one interval but not past two make exactly one generation and leave the excess |
| `Simulation.TicksAddUp` | src/main.rs:74-78 | from any accumulated time below one interval, small ticks adding up to one interval equal a single tick of one interval |
| `Simulation.TickKeepsTimeBelowStep` | src/main.rs:74-78 | a tick no longer than the interval keeps the accumulated time in [0, step_time) |
| `Simulation.OneIntervalPerTick` | src/main.rs:74-78 | a tick adding no time steps when a whole interval is pending; a tick of three intervals leaves two accumulated |
| `Seeding.PatternRows` | src/main.rs:127-179 | each pattern's rows are non-empty lists of non-negative columns in increasing order |
| `Seeding.Marked` | src/main.rs:127-179 | a position is covered iff its offset from the origin is one of the pattern's cells |
| `Seeding.AnyShifted` | src/main.rs:134 | the shifted-column test holds iff some listed column plus the shift equals the column |
| `Seeding.FillCell` | src/main.rs:122-180 | at one position, the selected pattern's tests make that cell alive iff the pattern covers it |
| `Seeding.FillGlider` | src/main.rs:127-137 | the glider's tests set exactly the covered cell alive |
| `Seeding.FillSpaceship` | src/main.rs:138-151 | the spaceship's tests set exactly the covered cell alive |
| `Seeding.FillGosperGun` | src/main.rs:152-179 | the gun's tests set exactly the covered cell alive |
| `Seeding.Fill` | src/main.rs:107-184 | the table afterwards is `Seeded` of the old board: covered cells alive, others unchanged |
| `Seeding.Seeded` | src/main.rs:120-121 | seeding keeps the board's shape |
| `Seeding.SeedingOnlyAddsLife` | src/main.rs:127-179 | covered cells become alive, others keep their state, no live cell dies |
| `Seeding.SeedingIsIdempotent` | src/main.rs:127-179 | seeding twice with one pattern equals seeding once |
| `Seeding.SeedingBlankBoard` | src/main.rs:120-179 | on a blank board the live cells are exactly the pattern's cells that lie on the board |
| `Seeding.GliderOnBlankBoard` | src/main.rs:127-137 | on a board of at least 3x3 the glider is exactly (0,1), (1,2), (2,0), (2,1), (2,2) |
| `Seeding.GosperGunFits` | src/main.rs:197-201 | on the program's 20x40 board all cells of the gun are placed |

## Left out

- Window creation, the event loop and OpenGL setup (`main`, lines 187-216): I/O plumbing over the graphics libraries. The board size 20 x 40 that `main` computes from `HEIGHT / CELL_SIZE` and `WIDTH / CELL_SIZE` appears only in `GosperGunFits`.
- `App::render`, `get_table` and the colour module: presentation only, with floating-point pixel arithmetic.
- Floating-point time: `time` and `step_time` are exact reals, so `f64` rounding is not modelled. The gate and the single subtraction per tick are the code's.
- Two promises about the step timer do not hold for the code once the accumulated time reaches one interval, and the model does not make them: that a tick adding no time never changes the board, and that the accumulated time is below one interval after every tick. `OneIntervalPerTick` exhibits both; they hold only while each tick is at most one interval (`TickKeepsTimeBelowStep`, `ShortTicksKeepBoard`).
- The `FillGrid::Random` branch of `fill`: it draws from `rand::thread_rng`.
- The choice of pattern: `fill` fixes `GosperGun` in a local variable; the model takes the pattern as a parameter of `Fill`.
- The `Option` wrapper of `around_count`'s target: the code passes only `Some(Dyaboo)`, so the target is a plain `Cell`. What `None` would count is not modelled.
- Out-of-range `get` and `set`: these are callers' errors (a panic in Rust). They are preconditions here, and every caller in the model meets them.
- The table's own source: the table is modelled as described above, with bounded edges assumed.
- `StepCell`, `NextTable`, `FillCell` and the three pattern methods: these split the loop bodies of `App::update` and `fill` into separate methods so that each proof stays small. The statements, tests and order of writes are the code's.
