# Minesweeper engine, modelled in Dafny

This project models the game engine of a small text-mode Minesweeper written
in Rust (`src/main.rs`). It covers:

- the `Game` type, whose board is a grid of cells (a `Slot`: an untripped or
  tripped mine, or an empty cell that is hidden or revealed and carries a
  neighbour-mine count) together with a `done` flag;
- the operations on the board: construction, the bounds-checked mine test,
  mine placement that spares the first move's row and column, the in-place
  counting sweep, the recursive flood-fill reveal and the untripped-mine scan;
- one turn of the game loop in `main` (placement on the first move, then the
  pick, then the win check);
- the one-character cell glyph used to draw the board.

Files:

- `board.dfy` (module `Board`): cells, positions and the grid. The pure
  queries are `IsMine`, neighbour counting over the eight offsets in the
  game's order, mine placement as a function of an oracle, and the counted
  board. Beside them are an independent reference for the count (the set of
  mines touching a cell) and the lemmas linking the two.
- `flood.dfy` (module `Flood`): what the flood-fill reveal does, stated
  without recursion. `RevealFrom(g, p)` shows exactly the cells reachable
  from `p` by edge-adjacent steps through hidden empty cells, where each step
  leaves a zero-count cell. A board that only uncovers reachable cells,
  leaves no cascade unfinished and shows `p` is exactly that board. The
  recursion's four calls compose to it.
- `game.dfy` (module `Minesweeper`): class `Game`, whose fields `board` and
  `done` the methods update in place. It holds the constructor's nested
  loops, `Count` and `StillMines` as read-only scans, `AddMines` and
  `Populate` as in-place sweeps, and `Reveal` as the recursive flood-fill,
  each proved against the functions above. The turn is `Move`; the predicate
  `Turned` states what a turn does, and lemmas state the invariants of play.
- `render.dfy` (module `Render`): the glyph of a cell. The decimal text of a
  revealed cell's count reads back as the count.

Behaviour of the code that the model keeps as written:

- Placement spares the whole row and the whole column of the first move, not
  just its cell (`Board.PlacedCells`, `Board.FirstMoveSafe`).
- The win test is "no untripped mine is left". It runs after every move
  that does not panic, before the loss message, so tripping the last untripped mine ends the game
  as a win (`Minesweeper.LastMineWins`).
- The flood fill cascades only into the four orthogonal neighbours, while the
  counts are over all eight.
- `Game::new` accepts any sizes, including zero, so the constructor takes
  any `nat`.

## Model

| member | source | states |
|---|---|---|
| Board.SetCell | src/main.rs:141 | a single-cell write keeps the board's shape, puts the new slot at the position and leaves every other cell as it was |
| Board.IsMine | src/main.rs:69-80 | false for any position off the board; on the board, true exactly for mine cells, tripped or not |
| Board.MinesAmongZero | src/main.rs:110-114 | the accumulated count is zero exactly when none of the offsets lands on a mine |
| Board.NeighborsTouch | src/main.rs:46-51 | the eight offsets are exactly the displacements to the cells touching a position, diagonals included |
| Board.MinesAmongIsCard | src/main.rs:110-114 | counting over distinct offsets gives the size of the set of mines those offsets reach |
| Board.NeighborMinesIsMinedAround | src/main.rs:106-118 | a cell's count equals the number of on-board mines touching it, so it lies between 0 and 8 |
| Board.LayoutMinesAmong | src/main.rs:84-88 | boards with the same mine layout give the same counts, so rewriting counts in place cannot change later counts |
| Board.CountedCorrect | src/main.rs:84-88 | after the counting sweep mines are where they were, every empty cell keeps its visibility, and every count is right for the final board |
| Board.PlacedCells | src/main.rs:91-99 | placement leaves the safe row, the safe column and every cell the draw declines unchanged, and makes every other cell an untripped mine |
| Board.FirstMoveSafe | src/main.rs:91-99 | on a new board no mine lands in the safe row or column after placement and counting, so the first pick is a hidden empty cell |
| Board.FullDensityScenario | src/main.rs:82-118 | on a 3 x 3 board where every draw succeeds, a first move in the middle leaves that cell hidden with count 4 (the four corners) |
| Board.Fresh | src/main.rs:54-67 | a new board has `h` rows of `w` cells and every cell is a hidden empty cell with count 0 |
| Board.Get | src/main.rs:102-104 | the cell at an on-board position, row `y` then column `x`; it is defined only on the board, and `SetCell` and `IsMine` state what reading it after a write or for the mine test gives |
| Board.Neighbors | src/main.rs:46-51 | the eight offsets in the order `count` visits them; `NeighborsTouch` states that they are exactly the displacements to the touching cells |
| Board.NeighborMines | src/main.rs:110-114 | the count accumulated over the eight offsets is at most 8; `NeighborMinesIsMinedAround` states that it is the number of on-board mines touching the cell |
| Board.Recount | src/main.rs:106-118 | the slot `count` returns: a mine stays as it is, and an empty cell stays empty, keeps its visibility and gets a count from 0 to 8 (the touching mines, by `NeighborMinesIsMinedAround`) |
| Board.Placed | src/main.rs:91-99 | the board `add_mines` leaves has the shape of the board it started from; `PlacedCells` and `FirstMoveSafe` state which cells become mines |
| Board.Counted | src/main.rs:84-88 | the board after the counting sweep has the shape of the board it started from; `CountedCorrect` states that every count is right and mines and visibility are kept |
| Board.Slot | src/main.rs:9-13 | a cell: a mine that is tripped or not, or an empty cell that is visible or not and holds its neighbour-mine count |
| Board.Pos | src/main.rs:44 | a position or an offset: `x` the column, `y` the row |
| Board.InBounds | src/main.rs:70-73 | the bounds tests of `is_mine` and `reveal` (also lines 135-138): the row lies in `0..height` and the column in `0..width`, with the width read off the first row |
| Board.MinesAmong | src/main.rs:109-114 | the running `new_count` after a prefix of the offsets: the number of those offsets whose target is a mine, never more than the number of offsets |
| Board.HasUntrippedMine | src/main.rs:120-131 | the answer `still_mines` computes: some cell, in any row, is an untripped mine; `Game.StillMines` is proved to return exactly this |
| Render.IntToString | src/main.rs:19 | an integer's decimal text: it starts with a minus sign exactly when the integer is negative, every other character is a digit, at least one digit follows the sign, and the first digit is 0 only for 0; `IntToStringRoundTrip` states that it reads back as the integer |
| Flood.RevealFromUnique | src/main.rs:133-150 | a board that uncovers only cells reachable from the start, leaves no zero-count cascade unfinished and shows the start is exactly the reveal from the start |
| Flood.RevealFromProps | src/main.rs:140-148 | the reveal uncovers only reachable hidden empty cells, completes every cascade from a zero-count cell and shows the start when it was hidden |
| Flood.RevealFromIdempotent | src/main.rs:135-140 | revealing from the same position a second time changes nothing |
| Flood.RevealNothing | src/main.rs:135-140 | revealing from a position off the board, on a mine or on a revealed cell leaves the board unchanged |
| Flood.RevealSingle | src/main.rs:141-144 | from a hidden cell with a nonzero count only that cell is shown |
| Flood.RevealFromMonotone | src/main.rs:140-141 | the reveal keeps the mine layout, every count and every mine cell, and nothing revealed becomes hidden |
| Flood.CascadeStep | src/main.rs:145-148 | after showing a zero-count cell, revealing from its next orthogonal neighbour keeps every change reachable and finishes one more direction of the cascade |
| Flood.CascadeFromZero | src/main.rs:145-148 | showing a hidden zero-count cell and then revealing from its left, right, upper and lower neighbours in turn gives the reveal from the cell |
| Flood.RevealShows | src/main.rs:141 | showing a hidden cell strictly shrinks the set of hidden empty cells, which bounds the recursion |
| Flood.RevealShrinks | src/main.rs:145-148 | a reveal never adds to the set of hidden empty cells |
| Flood.Shown | src/main.rs:141 | the rewrite of a revealed cell: an empty cell becomes visible with its count kept, which is also the `Empty(true, count)` of line 220 |
| Flood.RevealFrom | src/main.rs:133-150 | the board `reveal` leaves: every hidden empty cell reachable from the start through edge-adjacent hidden empty cells, each step leaving a zero-count cell, is shown, and every other cell stays as it was; it keeps the board's dimensions, and `RevealFromUnique` and `RevealFromProps` characterise it |
| Flood.Hidden | src/main.rs:140 | the guard `Empty(false, _)` of `reveal` on an on-board cell: an empty cell that is not yet visible |
| Flood.Orth | src/main.rs:145-148 | the targets of the four recursive calls in order: left `(x-1, y)`, right `(x+1, y)`, up `(x, y-1)` and down `(x, y+1)`; `OrthAdjacent` and `AdjacentOrth` state that they are exactly the edge-adjacent positions |
| Minesweeper.Game.constructor | src/main.rs:54-67 | the nested loops build `y` rows of `x` hidden empty cells with count 0, and the game is not done |
| Minesweeper.Game.Count | src/main.rs:106-118 | the loop over the offsets computes the recount of the cell: a mine is returned as it is, and an empty cell keeps its visibility and gets the number of mines touching it (0 to 8) |
| Minesweeper.Game.StillMines | src/main.rs:120-131 | the scan returns true exactly when some cell is an untripped mine |
| Minesweeper.Game.AddMines | src/main.rs:91-100 | the in-place nested loops turn the board into the placement the draw picks, leaving `done` alone |
| Minesweeper.Game.Populate | src/main.rs:82-89 | placement then the in-place row-major sweep leaves the counted placed board, the same as counting every cell against the placed board |
| Minesweeper.SweepDone | src/main.rs:84-88 | a sweep that has rewritten every row equals the counted board |
| Minesweeper.Game.Reveal | src/main.rs:133-150 | the recursive flood fill terminates and leaves exactly the reveal from the position, with `done` unchanged |
| Minesweeper.Prepared | src/main.rs:199-202 | the board a turn acts on has the dimensions of the game's board; mines are placed and counted only on the first move |
| Minesweeper.Picked | src/main.rs:203-222 | the pick keeps the board's dimensions |
| Minesweeper.Verdict | src/main.rs:224-229 | how a turn leaves the game: won (the win message), blown up (the loss message) or still playing |
| Minesweeper.Report | src/main.rs:203-222 | what a turn reports: the panic on a tripped mine, or whether the picked cell was already revealed (the message of line 213) together with the verdict |
| Minesweeper.Turned | src/main.rs:194-229 | what one turn does to the board it acts on: the new board is the pick; a tripped mine panics with `done` unchanged; otherwise the report says whether the cell was already revealed, the verdict is a win exactly when no untripped mine is left, a loss exactly when the pick tripped a mine and one is still left, and `done` is set by a trip or a win |
| Minesweeper.Move | src/main.rs:194-229 | one turn: placement on the first move only, then a tripped mine panics, an untripped one is tripped and ends the game, a revealed cell is reported as such and left alone, and a hidden cell is revealed with its cascade; the turn reports a win and ends the game when no untripped mine is left, and otherwise a loss on a trip |
| Minesweeper.TurnInvariants | src/main.rs:194-229 | a turn keeps every count right, a started game only reveals and trips cells, the first pick of an empty cell is never a loss, and while the game runs no tripped mine is on the board, so the panic cannot happen |
| Minesweeper.PreparedFacts | src/main.rs:199-202 | the first move's placement and counting make every count right, trip no mine and leave the picked empty cell as it was |
| Minesweeper.PickedProgress | src/main.rs:205-222 | a pick keeps the mine layout and every count, and only reveals hidden cells or trips the picked mine |
| Minesweeper.CountsKept | src/main.rs:205-222 | counts stay right when mines stay put and no empty cell's count changes |
| Minesweeper.RevealedAgain | src/main.rs:216-221 | marking the picked cell revealed after the cascade, or alone on a nonzero count, gives the reveal from the picked cell |
| Minesweeper.LastMineWins | src/main.rs:224-229 | tripping the only untripped mine left is reported as a win and ends the game |
| Minesweeper.SingleCellScenario | src/main.rs:194-229 | on a 1 x 1 board the first move places nothing, reveals the cell with count 0 and wins |
| Render.NatToString | src/main.rs:19 | a count's decimal text is non-empty and all digits, has no leading zero, and is one digit for a count below 10 |
| Render.IntToStringRoundTrip | src/main.rs:19 | an integer's decimal text reads back as that integer |
| Render.Glyph | src/main.rs:15-22 | `!` exactly for a tripped mine, `?` exactly for a hidden cell (an untripped mine or an unrevealed empty cell), and a revealed empty cell's count as its decimal text: all digits for a count that is not negative, a single character for a count from 0 to 8, and reading back as the count |

## Left out

- `read_input` (src/main.rs:24-36) and all prompting and parsing in `main`: this is terminal I/O, and a parse failure aborts the process.
- `Game::print` (src/main.rs:152-179): console output. Only the per-cell glyph is modelled, as `Render.Glyph`.
- Minesweeper.Game.AddMines: the draw `random::<f32>() < difficulty` becomes an oracle `draw(x, y)` given as a parameter. The density, the floating-point comparison and how often the generator is consulted (the condition short-circuits) are not modelled.
- Minesweeper.Move: the `while !game.done` loop is not modelled. `Move` is one iteration; `started`, a local of `main`, is taken as a parameter and returned.
- Minesweeper.Move: the `panic!` on picking a tripped mine is the report `Panicked`, with the board and `done` left as they were. The process abort itself is not modelled.
- Minesweeper.Move: out-of-bounds moves are excluded by a precondition. In the code they panic when the board is indexed.
- The `Result`/`Box<Error>` plumbing of `main` and the messages it prints. The report carries the same information.
- Board.Get: indexing a position off the board panics in the code. The model requires the position to be on the board.
- Coordinates and counts are unbounded integers. The `usize`/`i32` casts of `main` and of the loops (which could wrap for boards wider than 2^31 cells) and `i32` overflow are not modelled.
- Minesweeper.Game.Reveal: the call-stack depth of the recursion is not modelled.
- The board is a value sequence held in the `board` field and rewritten one cell at a time, not a `Vec<Vec<Slot>>` mutated through `iter_mut`. Aliasing of rows is therefore not modelled.
