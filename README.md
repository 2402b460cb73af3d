# Minesweeper game engine, modelled in Dafny

This project models the game engine `_MSGame` of a browser Minesweeper
(`main.js`), together with the decision logic of the two tile handlers
`tile_uncover` and `tile_mark` that drive it.

The engine keeps:
- a 2-D array of cells `{mine, state, count}`, where `state` is one of hidden, shown or marked;
- the counters `nmarked` and `nuncovered`;
- the flag `exploded`;
- the mine budget `nmines`.

Mines are placed lazily. On the first `uncover` of a game, they go on random
cells outside the 5x5 block around the first move. `uncover` flood fills
from a hidden cell through cells whose count is 0. `mark` toggles a flag.
`getRendering` and `getStatus` are read-only queries.

The project has four modules:

- `Board` (board.dfy) holds the cell datatype, grid positions, the sets of
  mine, shown, marked and hidden positions, and the mine count of a 3x3
  block. The block includes the cell itself, as `count` does.
- `Moves` (moves.dfy) states each move's rules on board values (maps from
  positions to cells):
  - `Sprinkled` is the board after mine placement;
  - `Flooded` is what a flood fill reveals, and `Region` the cells it
    must reveal: those a walk from the start reaches over hidden cells,
    stepping only out of cells whose count is 0;
  - `Toggled` is a mark flip;
  - `Glyph` is the rendering of one cell;
  - `Consistent` is the engine's invariant tying the counters to the board.

  It also holds the lemmas about all of these.
- `Game` (game.dfy) holds the class `MSGame`. It has the source's fields and
  the array `arr`, plus a ghost `board` that `Linked()` keeps equal to the
  array. Every method is proved against the functions of `Moves`, and every
  entry point keeps `Valid()`.
- `Tiles` (tiles.dfy) holds the tile-index arithmetic and the gates in
  `tile_uncover` / `tile_mark`. They are shown to keep the flag counter
  exact, where the bare engine does not.

## Model

| member | source | states |
|---|---|---|
| Game.Array2d | main.js:12-20 | returns a fresh `nrows` by `ncols` array whose entry (row, col) is `val(row, col)` |
| Game.RndInt | main.js:22-26 | returns some integer of the closed range [min, max] |
| Game.MSGame.constructor | main.js:29-31 | a new game is valid, 8 by 10 with 10 mines, all counters 0, every cell fresh |
| Game.MSGame.ValidCoord | main.js:33-35 | true exactly when (row, col) is a position of the grid |
| Game.MSGame.Init | main.js:37-48 | sets the dimensions and `nmines`, zeroes `nmarked`, `nuncovered` and `exploded`, and makes every cell `{mine: false, hidden, count 0}` on exactly the grid's positions; the game is valid afterwards |
| Moves.FreshConsistent | main.js:37-48 | a board fresh from `init` satisfies the engine invariant |
| Board.FreshFacts | main.js:45-47 | a fresh board has no mine, no shown and no marked cell, and its counts agree with its (empty) mine set |
| Game.MSGame.Count | main.js:50-58 | returns the number of mines among the in-grid cells of the 3x3 block centred on (row, col), the cell itself included |
| Board.MineCountZero | main.js:50-58 | a count is 0 exactly when its block holds no mine, and a mine's own count is at least 1 |
| Board.MineCountSplit | main.js:54-56 | a count is the cell's own mine (0 or 1) plus the number of mines among its neighbours |
| Board.MineCountAtMostNine | main.js:143-147 | a count never exceeds 9 |
| Board.CountsBounded | main.js:143-147 | when every stored count agrees with the mines, every count lies in 0..9 |
| Game.MSGame.SprinkleMines | main.js:59-82 | `allowed` is a repetition-free listing of exactly the positions outside the 5x5 block around (row, col); `nmines` becomes the minimum of its old value and their number; the board becomes `Sprinkled(old board, first nmines entries of allowed)` |
| Moves.Outside | main.js:61-67 | the positions allowed a mine lie on the grid and never include the first move's cell |
| Game.MSGame.AllowedCells | main.js:61-67 | the list built has no repetition, and its elements are exactly the positions with row or column distance above 2 from (row, col) |
| Game.MSGame.PlaceMines | main.js:69-74 | the swap loop keeps the list a repetition-free permutation of its elements; the board becomes the old one with mines added on exactly the first `nmines` entries |
| Moves.Unmark | main.js:78-79 | a marked cell becomes hidden, any other state is kept, and no cell stays marked |
| Game.MSGame.Recount | main.js:75-82 | the last pass turns every cell: marks become hidden and every count is recomputed from the mine layout |
| Moves.RecountDone | main.js:69-82 | setting the mine flags and then recounting every cell gives exactly the board `Sprinkled` describes |
| Moves.RecountStep | main.js:77-80 | turning cell (r, c) advances the pass by exactly that cell and touches no mine flag |
| Moves.SprinkledFacts | main.js:69-82 | after sprinkling: the mines are the old ones plus the placed ones (mines are only added), no cell is marked, the shown cells are unchanged, every count agrees with the final layout |
| Moves.SprinkledMines | main.js:72-73 | the mine set after sprinkling is the old mine set plus the placed positions |
| Moves.SprinkledStates | main.js:78-79 | after sprinkling no cell is marked and the shown cells are exactly those before |
| Moves.SprinkledCounts | main.js:80 | after sprinkling every count equals the block count over the final mine layout |
| Moves.SprinkledLaid | main.js:106-107 | sprinkling an unstarted game with `m` distinct positions lays a game of `m` mines with nothing shown, not exploded, no marks |
| Moves.SprinkleLosesMarks | main.js:76-79 | when a cell was marked and `nmarked` was exact, sprinkling erases every mark but `nmarked` stays above the number of marked cells |
| Moves.FirstMoveSafe | main.js:59-74 | on an unstarted game, mines placed outside the 5x5 block of p never land on p |
| Moves.SprinkledTargetHidden | main.js:106-109 | right after the first sprinkling the target cell is hidden, so the first `uncover` always goes on to the flood fill |
| Game.MSGame.Uncover | main.js:100-127 | refused without change off the grid; on the first move sprinkles mines outside the target's 5x5 block and lowers `nmines`; refused when the target is not hidden then; otherwise only hidden cells become shown, exactly those of `Region` from the target, the target among them, `nuncovered` grows by the number of newly shown cells, `exploded` becomes old `exploded` or the target's mine, no other newly shown cell is a mine, and it returns true; marks survive every move but the first; the game stays valid |
| Game.MSGame.SprinkleIfFirst | main.js:104-107 | on the first move the board becomes `Sprinkled` with `nmines` distinct positions outside the target's block, and the target is hidden with no mine; otherwise nothing changes; either way the game is laid |
| Game.MSGame.UncoverHidden | main.js:110-126 | from a hidden target of a laid game: shows exactly the hidden cells of `Region` from the target, the target among them, leaves no newly shown zero-count cell with a hidden neighbour, adds the newly shown cells to `nuncovered`, sets `exploded` on a mine target, reveals no other mine, keeps the marks, and keeps the game valid |
| Game.MSGame.Explode | main.js:122-125 | `exploded` becomes true when the uncovered cell holds a mine and is otherwise unchanged; the game stays valid |
| Moves.FloodUncovered | main.js:111-126 | after the fill from a hidden cell of a laid game and the mine check, the invariant holds with `nuncovered` grown by the newly shown cells and `exploded` set on a mine; the newly shown cells are exactly `Region` from the start, the start keeps its mine flag and is shown, no other newly shown cell is a mine, the marks are untouched |
| Game.MSGame.FloodFill | main.js:111-120 | `ff(r, c)`: does nothing off the grid or on a cell that is not hidden; otherwise only hidden cells become shown, (r, c) is shown, every newly shown zero-count cell has no hidden neighbour left, the returned `rank` numbers the newly shown cells by the value `nuncovered` took when each was shown, every one but (r, c) touching a zero-count cell shown before it, and `nuncovered` grows by the number of newly shown cells; it terminates because each call that does work shows a hidden cell |
| Game.MSGame.FloodAround | main.js:117-119 | the eight recursive calls, in the source's order, carry a fill from `p` through its whole neighbour list |
| Game.MSGame.FloodNeighbour | main.js:117-119 | one recursive call on neighbour number `k` extends the fill from `p` by that neighbour and keeps `nuncovered` exact |
| Game.MSGame.FloodZero | main.js:116-119 | once `ff` has shown a hidden cell with count 0, the calls on its neighbours complete the fill from it |
| Moves.FloodedSkip | main.js:112-113 | a call of `ff` off the grid or on a cell that is not hidden is a complete fill that shows nothing |
| Moves.FloodedRegion | main.js:111-120 | a complete fill from a hidden cell shows exactly `Region` from it: every cell a walk reaches over hidden cells, stepping only out of zero-count cells, and no other |
| Moves.PathTo | main.js:117-119 | every cell the fill numbers is reached from the start by such a walk, built back through the cells shown before it |
| Moves.ShownAlong | main.js:113-119 | a fill that leaves no shown zero-count cell with a hidden neighbour shows every cell of every walk from its start |
| Moves.OrderedJoin | main.js:117-119 | the order of a fill from `p` followed by that of a fill from a neighbour of `p` is again an order of the fill from `p` |
| Moves.PartialStart | main.js:114-116 | showing a hidden start cell whose count is 0 begins a fill |
| Moves.FloodedStop | main.js:114-116 | showing a hidden start cell whose count is not 0 is a complete fill |
| Moves.PartialStep | main.js:117-119 | a complete fill from a neighbour of `p` continues the fill from `p` |
| Moves.PartialShrinks | main.js:113-114 | during a fill the set of hidden cells only shrinks strictly below the starting one |
| Moves.AroundCovers | main.js:117-119 | the eight offsets visited, together with the cell, cover its whole 3x3 block |
| Moves.PartialDone | main.js:116-120 | once every cell of the block was visited, the fill from `p` is complete |
| Moves.RevealedFacts | main.js:113-115 | a fill keeps the mines, the marks and the counts, and the shown set grows by exactly the newly shown cells |
| Moves.FloodLaid | main.js:111-126 | a fill from a hidden cell keeps the game laid with `nuncovered` plus the newly shown cells, shows at least one cell, and the game is exploded afterwards exactly when it was before or the start holds a mine |
| Moves.FloodedRevealsNoOtherMine | main.js:50-58 | when counts agree with the mines, no newly shown cell except the start holds a mine |
| Moves.NoMineNearZero | main.js:51-57 | no cell in the block of a zero-count cell holds a mine |
| Moves.FloodedShownMines | main.js:111-125 | after a fill the shown mines are those shown before plus the start if it is a mine |
| Game.MSGame.Mark | main.js:130-142 | refused without change off the grid or on a shown cell; otherwise flips hidden and marked on that cell only, moves `nmarked` by +1 (marking) or -1 (unmarking), keeps an exact `nmarked` exact, and keeps the game valid |
| Moves.Toggle | main.js:139-140 | a flip never yields shown and always changes the state |
| Moves.MarkDelta | main.js:138 | `nmarked` moves by -1 exactly when the cell was marked, and by +1 otherwise |
| Moves.ToggledFacts | main.js:136-140 | a flip keeps the positions, mines, shown cells and counts, and adds or removes exactly that cell from the marked set |
| Moves.ToggledTwice | main.js:136-140 | marking the same cell twice restores the board, and the two moves of `nmarked` cancel |
| Moves.ToggledConsistent | main.js:136-140 | an accepted `mark` keeps the engine invariant, and keeps `nmarked` equal to the number of marked cells when it was |
| Moves.ConsistentLaid | main.js:106-109 | once a cell is uncovered, the invariant means the game is laid |
| Moves.Glyph | main.js:153-158 | a cell renders "M" exactly when it is a mine and the game exploded or it is shown; "H" exactly when hidden and not an exploded mine; "F" exactly when marked and not an exploded mine; a digit exactly when shown and not a mine, and then the digit of its count |
| Game.MSGame.GetRendering | main.js:148-163 | returns `nrows` strings of `ncols` characters whose character (r, c) is the glyph of cell (r, c); nothing changes |
| Moves.MineGlyphOnlyWhenExploded | main.js:143-158 | in a consistent game "M" is rendered exactly on the mines of an exploded game |
| Game.MSGame.GetStatus | main.js:164-176 | returns the counters, dimensions and `exploded` as they are, with `done` computed from `exploded` and `nuncovered`; what `done` means is the next row |
| Moves.DoneIffCleared | main.js:164-166 | in a laid game, `done` by the counter (exploded, or `nuncovered == nrows*ncols - nmines`) holds exactly when the game exploded or every cell without a mine is shown |
| Board.CoordsCard | main.js:166 | the grid has `nrows * ncols` positions |
| Tiles.Tile | main.js:184-185 | a non-negative tile number is row*ncols + col with 0 <= col < ncols; a negative one gives a negative row and a column in (-ncols, 0], as JavaScript's `%` does |
| Tiles.TileInGrid | main.js:184-185 | tile `ind` maps to an in-grid cell exactly when 0 <= ind < nrows*ncols, and for a non-negative index, row*ncols + col gives it back |
| Tiles.TileOfCell | main.js:193-194 | every cell (r, c) is the image of tile r*ncols + c, and that index is in range |
| Tiles.TileUncover | main.js:183-190 | calls `uncover` exactly when the game is not done; nothing changes when it does not, or when the tile's cell is off the grid; otherwise it has `uncover`'s effect on the tile's cell: mines sprinkled away from it on the first move, refused exactly when the cell is then not hidden, and else exactly `Region` from the cell shown, `nuncovered` grown by their number and `exploded` set on a mine; it keeps the game valid and keeps the flag counter exact |
| Tiles.MarkGate | main.js:196-204 | the gate lets `mark` through exactly when the game has started, is not over and a flag is left, or when no flag is left and the tile is rendered "F" |
| Tiles.MarkGateBudget | main.js:195-204 | `mark` is let through only while a flag is left, or with none left on a flagged tile |
| Tiles.MarkGateUnstarted | main.js:195-204 | before the first uncover the gate lets through only a flagged tile once no flag is left |
| Tiles.MarkGateNoFlagsLeft | main.js:199-204 | with no flag left, the gate lets through exactly the flagged tiles |
| Tiles.NoFlagBeforeStart | main.js:195-196 | with the flags counted, no cell is marked before the first uncover |
| Tiles.FreshFlagsCounted | main.js:37-48 | a game fresh from `init` has its flags counted |
| Tiles.TileMark | main.js:192-208 | calls `mark` on the tile's cell exactly when the gate lets it through, using the status and whether the cell rendered "F" before; then the cell is toggled and `nmarked` moves by one, otherwise nothing changes; it keeps the game valid and keeps the flag counter exact |

## Left out

- The page around the engine is not modelled. This covers the DOM and jQuery rendering, event wiring, the `render` call and the `#flags` text at the end of both tile handlers. It is presentation only.
- Timers and long-press timing are not modelled. They are wall-clock input.
- `console.log` calls and the debug dump of mines and counts at the end of `sprinkleMines` are not modelled. They are logging only.
- The string-typed grid settings fed to `init` are not modelled. Dimensions and `nmines` are natural numbers instead.
- Game.RndInt: `Math.random`, `Math.ceil` and `Math.floor` are replaced by an arbitrary choice of an integer in [min, max]. Floating point and randomness are outside the model. The contract promises only the range, not uniformity.
- Game.MSGame.FloodAround: the eight recursive calls, written out one by one in the source, are a loop over the constant offset list `Around`. The list keeps the same order.
- Game.MSGame.Recount: each cell is written once with its cleared mark and new count. The source makes two writes. Nothing can observe the state between them.
- Game.MSGame.SprinkleMines: the source's single method is split into three helper methods, one per loop (`AllowedCells`, `PlaceMines`, `Recount`). `Uncover` is split the same way (`SprinkleIfFirst`, `UncoverHidden`, `FloodFill`).
- Each cell is a JavaScript object. Here it is a `Cell` value stored in an `array2`, so no cell objects are shared by aliasing. The source never aliases them.
- Game.MSGame.GetStatus: its contract only lists the fields it returns. What `done` means is proved in `Moves.DoneIffCleared`.
- Tiles.TileUncover: when `ncols` is 0 the source computes NaN or infinite coordinates, which `uncover` refuses. The model then makes no call, so the effect is the same.
- Tiles.TileMark: requires 0 <= ind < nrows*ncols. For any other index, the source's second branch would index the rendering outside its bounds.
- The comments on `uncover` and `mark` (they call `uncover` "flagging" and `mark` "uncovering") are swapped. The model follows the code.
- The engine's own invariant allows `nmarked` to exceed the number of marked cells. Through the bare engine, `sprinkleMines` erases marks placed before the first uncover and leaves `nmarked` alone (`Moves.SprinkleLosesMarks`). Through the two tile handlers, no mark exists before the first uncover, so the counter stays exact (`Tiles.FlagsCounted`).
