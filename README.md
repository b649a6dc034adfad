# Game of Life step engine (life.c), modelled in Dafny

The program simulates Conway's Game of Life on a fixed grid of characters,
`'*'` for a live cell and `'-'` for a dead one. The grid is allocated two rows
and two columns larger than requested. The outer ring of cells (the border,
or buffer zone) is never rewritten. It exists so that counting the neighbours
of an interior cell never leaves the array.

This project models that engine on Dafny arrays and proves it against
value-level specifications:

- `Cells` (cells.dfy) holds the specification side. Grids are `seq<seq<char>>`.
  - `Step` is the birth/survival rule.
  - `Neighbors` is the count over the eight offsets, in the order the C loop visits them.
  - `Next` is the simultaneous step of a whole grid.
  - `Snapshot` views an `array2<char>` as a grid.
- `Evolution` (evolution.dfy) holds the imperative code:
  - `cellneighbors` as `CellNeighbors`;
  - `createneighborarr` as `CreateNeighborArr`;
  - `setstates` as `SetStates`;
  - `evolve` as `Evolve`, with its counting loops as `FillCounts`;
  - `createworld`, both as written (`CreateWorldAsWritten`) and corrected (`CreateWorld`).

  `Evolve` is proved to leave the array equal to `Next` of the grid it was
  handed, for any border contents.
- `BorderFinding` (evolution.dfy) shows what the uninitialised border of `createworld` does.
- `InitialState` (reader.dfy) holds the reading loop of `main`, in two parts:
  - `ReadWorld` is the row loop and `ReadRow` its body.
  - A line-based specification: `InitialCell` gives interior row `r+1` as line `r` of the input, `'*'` alive and anything else dead, padded with dead cells. A round-trip lemma states that newline-separated text is read back line for line.
- `Display` (display.dfy) holds `printworld`, as `PrintWorld`, which returns the text it would print.
- `Patterns` (patterns.dfy) proves the standard small cases under one step:
  - an isolated cell dies;
  - the block is still;
  - the blinker has period 2.

Where the design description and the code disagree, the model follows the code:

- A cell is born only if it holds exactly `'-'` (life.c:296). A cell holding any other character stays or becomes `'-'`.
- The border is described as always dead. The code never writes it, and `createworld` leaves it uninitialised (see Findings). `Evolve` therefore makes no assumption about the border and is proved for any border contents. A dead border stays dead.

## Model

| member | source | states |
|---|---|---|
| Cells.Neighbors | life.c:258-278 | the neighbour count of an interior cell is between 0 and 8 |
| Cells.NeighborsIsMooreCount | life.c:265-277 | the count equals the number of the eight positions (i+m, j+n), m, n in {-1, 0, 1}, (m, n) != (0, 0), that hold `'*'` |
| Cells.CountAliveIsCardinality | life.c:265-277 | counting over a list of distinct offsets gives the size of the set of offsets that lead to a live cell |
| Cells.OffsetsAreMoore | life.c:266-270 | the offsets the loop visits are distinct and are exactly the Moore neighbourhood without (0, 0) |
| Cells.InteriorNeighborsInBounds | life.c:272 | from any interior cell every neighbour index lies inside the array |
| Cells.NeighborsUnrolled | life.c:265-277 | the count is the sum of eight 0/1 terms, one per neighbour |
| Cells.Step | life.c:289-302 | the result is always `'*'` or `'-'`; for a cell holding `'*'` or `'-'` it is `'*'` exactly when the count is 3, or the count is 2 and the cell was `'*'` |
| Cells.Next | life.c:285-302 | the next grid has the same dimensions, keeps every border cell, and holds only `'*'` or `'-'` in the interior |
| Cells.NextIsCellwise | life.c:321-329 | any same-shaped grid that keeps the border and gives each interior cell `Step` of its old state and its old count is `Next` |
| Cells.NextKeepsConvention | life.c:285-287 | a step keeps a dead border dead and leaves only states in the interior |
| Cells.DeadGridStaysDead | life.c:289-302 | a grid with no `'*'` stays without one: no spontaneous birth |
| Evolution.CellNeighbors | life.c:258-278 | the nested loop returns exactly `Neighbors` of the array's grid, between 0 and 8 |
| Evolution.CreateNeighborArr | life.c:230-256 | a fresh rows-by-cols integer array whose every entry is 0 |
| Evolution.SetStates | life.c:280-305 | every interior cell becomes `Step` of its old state and its count; border cells are unchanged |
| Evolution.FillCounts | life.c:321-327 | every interior entry of the scratch array is the neighbour count of the world, which is not written; border entries are unchanged |
| Evolution.Evolve | life.c:307-336 | the array afterwards is `Next` of the grid before the call, so every count is taken before any cell changes; a dead border stays dead; the interior holds only states |
| Evolution.CreateWorld | life.c:196-214 | corrected: a fresh rows-by-cols world with no live cell, so the border is dead |
| Evolution.CreateWorldAsWritten | life.c:196-214 | as written: the fresh world holds whatever the allocated memory held, the border included |
| BorderFinding.UninitialisedBorderBreedsCell | life.c:196-214 | a dead interior cell under a leftover border row `***` is born on the first step; under a dead border it stays dead |
| InitialState.LineEnd | life.c:145-153 | the end of the current line lies between the cursor and the end of the input |
| InitialState.LineEndIsFirstNewline | life.c:168-177 | the end of the line is the first newline at or after the cursor, or the end of the input if none follows |
| InitialState.LineCell | life.c:139-162 | a cell read from a line is `'*'` exactly when the line has a `'*'` at that column; otherwise it is `'-'`, including beyond the line's end |
| InitialState.InitialCell | life.c:134-163 | interior cell (r+1, c+1) is `'*'` exactly when line r of the input has a `'*'` at column c |
| InitialState.ReadRow | life.c:136-178 | one row holds the line at the cursor, cell by cell and padded with `'-'`; the cursor ends at the start of the next line; nothing else changes |
| InitialState.ReadWorld | life.c:134-180 | every interior cell holds `InitialCell` of the input; border cells are unchanged |
| InitialState.LoadWorld | life.c:124-180 | with a dead initial world, the loaded world has a dead border, only states in the interior, and the interior read from the input |
| InitialState.LineOfEncoded | life.c:134-180 | line r of newline-joined lines is the r-th line, and empty past the last line |
| InitialState.ReadEncoded | life.c:134-180 | reading newline-joined lines gives back each line's `'*'` cells, with `'-'` elsewhere |
| Display.Spaced | life.c:221-224 | a printed row has two characters per cell |
| Display.SpacedAt | life.c:221-224 | each cell is printed at position 2k, followed by a space |
| Display.PrintWorld | life.c:216-227 | the text is the interior rows, each printed cell followed by a space and each row followed by a newline |
| Display.PrintedCell | life.c:219-226 | printed line i-1 has 2(cols-2) characters; cell (i, j) is at position 2(j-1) with a space after it |
| Patterns.LonelyCellDies | life.c:289-291 | a single live cell with no live neighbour dies, and nothing is born |
| Patterns.BlockIsStill | life.c:292-295 | the 2-by-2 block is unchanged by a step |
| Patterns.BlinkerTurns | life.c:289-302 | a horizontal row of three becomes a vertical column of three |
| Patterns.BlinkerTurnsBack | life.c:289-302 | the column turns back into the row: the blinker has period 2 |

## Left out

- Command-line parsing and its defaults (life.c:27-114) are configuration, not engine logic. The dimensions are parameters.
- Opening and closing the input file and the failure message (life.c:44, life.c:116-121, life.c:181) are I/O. The input is a `seq<char>` read through a cursor, and the end of the input is a value of its own.
- InitialState.ReadRow: a byte that the C code's `char filechar` makes compare equal to `EOF` (0xFF where `char` is signed) is read here as an ordinary dead cell. With an unsigned `char`, the C skip loop never sees `EOF` at all (life.c:133, life.c:145, life.c:170-176). Neither effect is modelled.
- InitialState.ReadWorld: requires at least 3 columns. With fewer, the C code tests `filechar` on the first row before anything has been read into it (life.c:133, life.c:168).
- InitialState.LoadWorld: requires at least 3 columns, for the same reason.
- The generation loop and its `printf` calls (life.c:184-190) are output. `PrintWorld` returns its text instead of writing it.
- `malloc`/`free`, the allocation-failure paths and `exit(0)` (life.c:200-212, life.c:235-246, life.c:315-320, life.c:331-335), and `worldcleanup` (life.c:338-346), are memory management. Dafny arrays are allocated without failure and are not freed.
- The counting loops of `evolve` (life.c:321-327) are the separate method `FillCounts`, and the body of the reading loop (life.c:136-178) is the separate method `ReadRow`. Control flow within them is unchanged.

## Findings

| source | as written | input that shows it | evidently intended | confidence | as-written member | corrected member |
|---|---|---|---|---|---|---|
| life.c:196-214 | `createworld` allocates the grid with `malloc` and nothing ever writes the border; `cellneighbors` then reads those cells (life.c:272) | a 1-by-1 interior read as `'-'` whose top border row holds leftover `'*'` bytes: it counts 3 neighbours and is born on the first step | the border starts dead, so border cells never count as live neighbours | high; not executed | BorderFinding.UninitialisedBorderBreedsCell, Evolution.CreateWorldAsWritten | Evolution.CreateWorld, used by InitialState.LoadWorld |
