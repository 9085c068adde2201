# Maze game logic in Dafny

This project models the game logic of a small Rust maze game. A player walks a fixed 10×10 tile map with the arrow keys. Each frame, the game paints the map and the player into an 800×800 framebuffer. The model has three modules:

- `Constants` (constants.dfy) holds the compile-time configuration of src/constants.rs: `WIDTH`, `HEIGHT`, `GRID_SIZE` and `CELL_PIXELS`. It also defines the machine types the code computes with: `Usize` (64-bit `usize`) and `U32` (a pixel).
- `Lib` (lib.dfy) models src/lib.rs.
  - `IsWalkable` is the walkability test on the flat, row-major grid.
  - `HandleInput` is the edge-triggered player movement. It works in place on the `keys_pressed` array of latches. It is proved against the specification function `AfterInput`, and the lemmas state what a call does to the position and to the latches.
  - `DrawSquare` paints one 80×80 block in place in the framebuffer array. It is proved against the specification function `Painted`.
- `Game` (main.dfy) models src/main.rs.
  - It holds the shipped map literal and the start cell (1,1).
  - `DrawMap`, `Render` and `Frame` model the render pass and one iteration of the main loop.
  - `Run` models the sequence of `handle_input` calls across frames. A safety proof shows that on a map walled all around, a player who starts on a path cell stays on path cells, so the `usize` decrements in the movement code never wrap.

Modelling decisions:

- The window is replaced by two boolean arrays, each with one entry per key in the order Up, Down, Left, Right. `pressed[i]` stands for `is_key_pressed(key, KeyRepeat::No)` and `down[i]` for `is_key_down(key)`. The spec functions receive them as a `Keys` value.
- The position is a `&mut (usize, usize)` in Rust. Here `HandleInput` takes it in and returns the new one. `keys_pressed` stays an array that the method updates in place.
- `handle_input` is four identical if / else-if blocks that differ only in direction. Here, `CheckKey` is that block for a direction `d`, and `HandleInput` calls it for Up, Down, Left and Right in that order. Each check sees the position as updated by the checks before it, as in the source. The conditions are evaluated left to right with short-circuiting, like Rust's `&&`.
- Rust evaluates `player_pos.0 - 1` (or `+ 1`) before `is_walkable`. In a debug build a wrap-around panics. The model treats that as a caller obligation: `NoOverflow` requires row ≥ 1 when Up is pressed, row < `usize::MAX` when Down is pressed, and the same for the column with Left and Right. This is exactly the no-panic condition for the call: when it fails, the Up or Left check wraps on a 0 coordinate, or the Down or Right check wraps on `usize::MAX`, since no move can take a coordinate to `usize::MAX` first. `InputStaysOnPath` and `Run` prove the condition always holds on the shipped map.
- The map loop and the player overlay in `main` repeat the loop nest and index arithmetic of `draw_square` inline (main.rs:47-53 and 59-64). `DrawMap` and `Render` call `DrawSquare` for them.
- src/main.rs contains its own copies of `is_walkable` (main.rs:110-117) and `handle_input` (main.rs:75-107). They are the same code as in src/lib.rs, so `Lib` models them once and `Game` uses those definitions.
- The map literal is written as ten concatenated ten-element rows. The value is the same 100-element sequence, laid out as in the source.
- `CELL_PIXELS` is written as the literal 80. `Constants.GridCoversWindow` proves that it equals `WIDTH / GRID_SIZE`.
- `is_walkable` itself never panics on an out-of-range coordinate. `handle_input`, however, computes `player_pos.0 - 1` and `player_pos.1 - 1` before calling it (src/lib.rs:28, 50), so a debug build panics on an Up or Left press at row or column 0. The model makes this a precondition. On the shipped map the border walls make the case unreachable.

## Model

| member | source | states |
|---|---|---|
| Constants.GridCoversWindow | src/constants.rs:1-5 | CELL_PIXELS is WIDTH / GRID_SIZE = 80, and CELL_PIXELS × GRID_SIZE equals WIDTH and HEIGHT, so the grid covers the window exactly |
| Lib.IsWalkable | src/lib.rs:10-17 | false whenever row or column is ≥ GRID_SIZE; in bounds, true iff index row×GRID_SIZE+col exists in the grid and holds 0 (a 1, any other tag or a missing index gives false) |
| Lib.WalkableAtIndex | src/lib.rs:11-13 | reading row-major addressing backwards: the cell at flat index k < 100 is walkable iff k is inside the grid and its tag is 0 |
| Lib.CheckDirection | src/lib.rs:26-68 | one direction's check: the position either stays or moves onto a walkable cell, and only along that direction's axis; it stays when the key is not pressed or the latch is set; no other latch changes |
| Lib.SeenBy | src/lib.rs:26-68 | each check sees the position as updated by the earlier checks, and under the start-position no-wrap condition its own `±1` cannot wrap (only a fired move changes a coordinate, and then into the grid) |
| Lib.AfterInput | src/lib.rs:20-69 | the state after the four checks in order Up, Down, Left, Right; the four latches stay four |
| Lib.LatchSeenUnchanged | src/lib.rs:29-68 | the checks before direction d leave d's latch as it was at the start of the call |
| Lib.InputDisplacement | src/lib.rs:27-68 | net effect on the position: row = start row − [Up fired] + [Down fired], column = start column − [Left fired] + [Right fired] |
| Lib.InputLatches | src/lib.rs:27-68 | latch d ends set iff d's move fired, or the latch was set and key d is held down; it is cleared when d did not fire and the key is up; a move fires only on a pressed key with a clear latch |
| Lib.InputStaysWalkable | src/lib.rs:27-68 | every move lands on a walkable cell: the end position is the start position or walkable; from a walkable start the end is walkable and inside the grid |
| Lib.InputMovesAtMostOne | src/lib.rs:27-68 | with no key pressed the position is unchanged; in every case each coordinate changes by at most 1 per call (Up then Down cancel) |
| Lib.InputRespectsLatch | src/lib.rs:29-68 | a direction whose latch is already set never moves the player that way during the call, and its latch stays set while its key is down |
| Lib.CheckKey | src/lib.rs:27-35 | the in-place if / else-if block for one direction yields exactly CheckDirection's new position and latches |
| Lib.HandleInput | src/lib.rs:20-69 | the new position and the updated `keys_pressed` array are exactly AfterInput of the old position, the old latches and the key readings |
| Lib.SquareIndices | src/lib.rs:73-78 | the indices draw_square paints are exactly (y·CELL_PIXELS+dy)·WIDTH + x·CELL_PIXELS+dx for dx, dy < CELL_PIXELS |
| Lib.PaintedPixels | src/lib.rs:72-80 | after painting, every pixel (dx, dy) of the block is in bounds and holds the colour, and every other buffer entry is unchanged |
| Lib.PaintIdempotent | src/lib.rs:72-80 | painting the same square twice gives the same buffer as painting it once |
| Lib.SquareInBounds | src/lib.rs:75-77 | for x, y < GRID_SIZE and a buffer of at least WIDTH×HEIGHT entries, every index draw_square writes is in bounds |
| Lib.DrawSquare | src/lib.rs:72-80 | the in-place nested dy/dx loops leave exactly Painted(old buffer, x, y, color) |
| Game.MapShape | src/main.rs:10-23 | the map literal has GRID_SIZE×GRID_SIZE = 100 tags, every border cell (row 0, row 9, column 0, column 9) is 1, and the start cell (1,1) is 0 |
| Game.ShippedWalkable | src/main.rs:110-117 | on the shipped map, is_walkable is false out of bounds, and in bounds it is true iff the cell's tag is 0 |
| Game.WalkableIsInterior | src/main.rs:10-21 | on a map walled all around, a walkable cell is never on row or column 0 (nor on the last row or column) |
| Game.InputStaysOnPath | src/main.rs:75-107 | from a path cell of a walled map, no `usize` ±1 in handle_input wraps (the decrements at main.rs:77 and 93 never underflow), and the call ends on a path cell |
| Game.Run | src/main.rs:35-72 | after any sequence of per-frame handle_input calls from a path cell of a walled map, the player is on a walkable cell, on row and column ≥ 1 |
| Game.RunFromStartStaysOnPath | src/main.rs:23-25 | from the start state ((1,1), no latches) on the shipped map, after every prefix of any frame sequence the player stands on a 0 cell, never on row or column 0 |
| Game.HeldKeyMovesOnce | src/main.rs:75-106 | a key held down across frames with its latch set never moves the player in its direction again and stays latched: one move per press |
| Game.RightFromStart | src/main.rs:101-106 | from (1,1), a fresh Right press moves the player to (1,2) and sets the Right latch |
| Game.RightIntoWall | src/main.rs:12 | from (1,3), a Right press leaves the player at (1,3), because cell (1,4) is a wall; the latch stays clear |
| Game.SquareInCell | src/main.rs:47-53 | every pixel painted for cell column c, row r is a window pixel whose cell is (r, c) |
| Game.CellInSquare | src/main.rs:47-53 | every window pixel whose cell is (r, c) is painted for cell column c, row r |
| Game.SquareIsCell | src/main.rs:47-53 | the pixels painted for cell (r, c) are exactly the window pixels of cell (r, c), so the 100 blocks tile the window |
| Game.MapImagePixels | src/main.rs:37-55 | after the map loop, every pixel of cell (r,c)'s 80×80 block is 0x000000 if the tag is 1, 0xFFFFFF if it is 0 and 0x00FF00 otherwise; every such index is < WIDTH×HEIGHT |
| Game.MapImageFullRedraw | src/main.rs:37-55 | the map loop overwrites all WIDTH×HEIGHT pixels: the previous frame's contents do not show through |
| Game.RenderedPixels | src/main.rs:57-65 | after the player overlay, every pixel of the player's cell is 0xAA0000, and every other window pixel keeps its map colour |
| Game.DrawMap | src/main.rs:37-55 | the in-place r/c map loop with no out-of-bounds write leaves exactly MapImage of the map and the old buffer |
| Game.Render | src/main.rs:36-65 | the map loop followed by the player overlay leaves exactly Rendered(map, player, old buffer) |
| Game.Frame | src/main.rs:35-72 | one loop iteration on the shipped map: the buffer shows the frame for the current position, handle_input cannot wrap, the new state is AfterInput, and the player is still on a path cell |

## Left out

- The minifb window is left out: `Window::new`, `update_with_buffer`, `is_open`, the Escape test and the `while` loop condition (src/main.rs:27-35, 71). This is I/O over a library outside the model. Key state enters as the `pressed`/`down` readings, and `Run` stands for the sequence of loop iterations.
- The `.unwrap()` failure paths of window creation and update are left out: they abort the process and carry no game logic.
- Ghost movement is left out. src/lib.rs and src/main.rs contain no ghost code; only the cadence constant `GHOST_MOVE_FRAMES` (src/constants.rs:3) exists, and no part of the model uses it.
- Lib.HandleInput: a panicking `usize` wrap-around is a precondition (debug-build semantics). The release-build behaviour, where `0 - 1` wraps to `usize::MAX` and `is_walkable` then rejects it, is not modelled.
- Lib.DrawSquare: the pixel index is computed on unbounded integers. A `usize` overflow in `py * WIDTH + px` is not modelled: under the in-bounds precondition every intermediate value is below the buffer length, which itself fits in a `usize`.
- Lib.DrawSquare: `buffer[py * WIDTH + px]` is bounds-checked in Rust (src/lib.rs:77, and the inline copies at src/main.rs:51, 63), so a block that reaches past the buffer panics after the in-range pixels before it have been painted. The precondition that every written index is in bounds excludes this panic; `SquareInBounds` and `Frame` show the game never reaches it.
- Game.DrawMap: `map[index]` (src/main.rs:40) and the buffer writes panic on a map shorter than GRID_SIZE×GRID_SIZE or a buffer shorter than WIDTH×HEIGHT; the precondition excludes both, and `MapShape` shows the shipped map meets it.
- Game.Render: the player overlay (src/main.rs:63) panics like Lib.DrawSquare when the player's block reaches past the buffer; the precondition that the block's last pixel is in bounds excludes it, and `Frame` shows it holds for a player on a path cell.
- `usize` is taken to be 64 bits wide.
- Lib.HandleInput: the four inline blocks of the source are modelled as four calls of one parameterised block, `CheckKey`. The branches and the evaluation order are the same.
- The unused `HEIGHT` import of src/lib.rs:1 is not modelled.
