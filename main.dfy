/** The game of src/main.rs: the shipped 10x10 map and start position, the
    render pass that paints the map and the player into the framebuffer, one
    frame of the main loop, and the fact that the player never leaves the
    path. The copies of `is_walkable` and `handle_input` in src/main.rs are
    the same code as in src/lib.rs and are modelled by Lib. */
module Game {
  import opened Constants
  import opened Lib

  // ---------------------------------------------------------------------
  // The shipped map
  // ---------------------------------------------------------------------

  /** The map literal, one row of ten tags per line: 1 is a wall, 0 a path. */
  const MAP: seq<Usize> :=
    [1, 1, 1, 1, 1, 1, 1, 1, 1, 1] +
    [1, 0, 0, 0, 1, 0, 0, 0, 0, 1] +
    [1, 1, 1, 0, 1, 0, 1, 1, 0, 1] +
    [1, 0, 0, 0, 0, 0, 0, 1, 0, 1] +
    [1, 0, 1, 1, 1, 1, 0, 0, 0, 1] +
    [1, 0, 1, 0, 0, 1, 0, 1, 0, 1] +
    [1, 0, 1, 0, 1, 1, 0, 1, 0, 1] +
    [1, 0, 0, 0, 0, 0, 0, 1, 0, 1] +
    [1, 1, 1, 1, 1, 1, 1, 1, 0, 1] +
    [1, 1, 1, 1, 1, 1, 1, 1, 1, 1]

  /** The player starts at row 1, column 1. */
  const START: Pos := Pos(1, 1)

  /** The game state before the first frame: no key latched. */
  const INITIAL: State := State(START, [false, false, false, false])

  /** The tags of cell i of the top row, the bottom row, the left column and
      the right column of a grid. */
  predicate BorderWallsAt(grid: seq<Usize>, i: nat)
    requires |grid| == GRID_SIZE * GRID_SIZE && i < GRID_SIZE
  {
    && grid[i] == 1
    && grid[(GRID_SIZE - 1) * GRID_SIZE + i] == 1
    && grid[i * GRID_SIZE] == 1
    && grid[i * GRID_SIZE + GRID_SIZE - 1] == 1
  }

  /** A grid with one tag per cell and walls all around its border. */
  predicate Walled(grid: seq<Usize>)
  {
    |grid| == GRID_SIZE * GRID_SIZE && forall i :: 0 <= i < GRID_SIZE ==> BorderWallsAt(grid, i)
  }

  /** The shipped map has one tag per cell, walls all around its border, and
      a path cell at the start position. */
  lemma MapShape()
    ensures |MAP| == GRID_SIZE * GRID_SIZE
    ensures Walled(MAP)
    ensures MAP[START.row * GRID_SIZE + START.col] == 0
  {
    assert BorderWallsAt(MAP, 0) && BorderWallsAt(MAP, 1) && BorderWallsAt(MAP, 2);
    assert BorderWallsAt(MAP, 3) && BorderWallsAt(MAP, 4) && BorderWallsAt(MAP, 5);
    assert BorderWallsAt(MAP, 6) && BorderWallsAt(MAP, 7) && BorderWallsAt(MAP, 8);
    assert BorderWallsAt(MAP, 9);
  }

  /** On the shipped map `is_walkable` is false outside the grid, and inside
      it is true exactly on the path cells: every in-grid index exists. */
  lemma ShippedWalkable(row: Usize, col: Usize)
    ensures IsWalkable(MAP, row, col) <==>
              row < GRID_SIZE && col < GRID_SIZE && MAP[row * GRID_SIZE + col] == 0
  {
    MapShape();
  }

  /** In a walled grid a walkable cell is never on row or column 0 (nor on
      the last row or column). */
  lemma WalkableIsInterior(grid: seq<Usize>, row: Usize, col: Usize)
    requires Walled(grid) && IsWalkable(grid, row, col)
    ensures 1 <= row <= GRID_SIZE - 2 && 1 <= col <= GRID_SIZE - 2
  {
    assert BorderWallsAt(grid, row) && BorderWallsAt(grid, col);
  }

  /** From a path cell of a walled grid no check of `handle_input` can wrap
      its `usize` arithmetic, and the call ends on a path cell again. */
  lemma InputStaysOnPath(grid: seq<Usize>, s: State, k: Keys)
    requires Walled(grid) && ValidState(s) && ValidKeys(k)
    requires IsWalkable(grid, s.pos.row, s.pos.col)
    ensures NoOverflow(s.pos, k)
    ensures IsWalkable(grid, AfterInput(grid, s, k).pos.row, AfterInput(grid, s, k).pos.col)
  {
    WalkableIsInterior(grid, s.pos.row, s.pos.col);
    InputStaysWalkable(grid, s, k);
  }

  /** The state after the frames' successive `handle_input` calls on a
      walled grid, the first frame first. Starting on a path cell the player
      is on a path cell, never on row or column 0, after every frame, so no
      call ever wraps. */
  function Run(grid: seq<Usize>, s: State, frames: seq<Keys>): (r: State)
    requires Walled(grid) && ValidState(s) && IsWalkable(grid, s.pos.row, s.pos.col)
    requires forall i :: 0 <= i < |frames| ==> ValidKeys(frames[i])
    ensures ValidState(r)
    ensures IsWalkable(grid, r.pos.row, r.pos.col)
    ensures 1 <= r.pos.row && 1 <= r.pos.col
    decreases |frames|
  {
    WalkableIsInterior(grid, s.pos.row, s.pos.col);
    if frames == [] then
      s
    else
      InputStaysOnPath(grid, s, frames[0]);
      Run(grid, AfterInput(grid, s, frames[0]), frames[1..])
  }

  /** Along any sequence of frames from the start on the shipped map, the
      player stands on a path cell after every frame. */
  lemma RunFromStartStaysOnPath(frames: seq<Keys>, n: nat)
    requires forall i :: 0 <= i < |frames| ==> ValidKeys(frames[i])
    requires n <= |frames|
    ensures Walled(MAP) && IsWalkable(MAP, START.row, START.col)
    ensures var r := Run(MAP, INITIAL, frames[..n]);
      r.pos.row < GRID_SIZE && r.pos.col < GRID_SIZE && MAP[r.pos.row * GRID_SIZE + r.pos.col] == 0
      && 1 <= r.pos.row && 1 <= r.pos.col
  {
    MapShape();
    var prefix := frames[..n];
    assert forall i :: 0 <= i < |prefix| ==> ValidKeys(prefix[i]);
    var r := Run(MAP, INITIAL, prefix);
    ShippedWalkable(r.pos.row, r.pos.col);
  }

  /** A key held down across frames, with its latch set, never moves the
      player in its direction again: one move per press. */
  lemma {:induction false} HeldKeyMovesOnce(grid: seq<Usize>, s: State, frames: seq<Keys>, d: Dir)
    requires Walled(grid) && ValidState(s) && IsWalkable(grid, s.pos.row, s.pos.col)
    requires forall i :: 0 <= i < |frames| ==> ValidKeys(frames[i]) && frames[i].down[Slot(d)]
    requires s.keysPressed[Slot(d)]
    ensures NotMovedToward(d, s.pos, Run(grid, s, frames).pos)
    ensures Run(grid, s, frames).keysPressed[Slot(d)]
    decreases |frames|
  {
    if frames != [] {
      InputStaysOnPath(grid, s, frames[0]);
      var next := AfterInput(grid, s, frames[0]);
      InputRespectsLatch(grid, s, frames[0], d);
      HeldKeyMovesOnce(grid, next, frames[1..], d);
      assert Run(grid, s, frames) == Run(grid, next, frames[1..]);
    }
  }

  /** The keys of a frame in which only Right is pressed (a fresh press). */
  const RIGHT_PRESS: Keys := Keys([false, false, false, true], [false, false, false, true])

  /** From (1,1) a fresh Right press moves the player to (1,2). */
  lemma RightFromStart()
    ensures NoOverflow(START, RIGHT_PRESS)
    ensures AfterInput(MAP, INITIAL, RIGHT_PRESS) == State(Pos(1, 2), [false, false, false, true])
  {
  }

  /** From (1,3) a Right press leaves the player in place: cell (1,4) is a
      wall. The latch stays clear. */
  lemma RightIntoWall()
    ensures NoOverflow(Pos(1, 3), RIGHT_PRESS)
    ensures AfterInput(MAP, State(Pos(1, 3), [false, false, false, false]), RIGHT_PRESS)
              == State(Pos(1, 3), [false, false, false, false])
  {
  }

  // ---------------------------------------------------------------------
  // Rendering
  // ---------------------------------------------------------------------

  const BLACK: U32 := 0x000000
  const WHITE: U32 := 0xFFFFFF
  const GREEN: U32 := 0x00FF00
  const PLAYER_RED: U32 := 0xAA0000

  /** The colour of a cell by its tag: walls black, paths white, any other
      tag green. */
  function TagColor(tag: Usize): U32
  {
    match tag
    case 1 => BLACK
    case 0 => WHITE
    case _ => GREEN
  }

  /** Grid row and column of the cell that framebuffer pixel i lies in. */
  function CellRow(i: int): (r: int)
    requires 0 <= i < WIDTH * HEIGHT
    ensures 0 <= r < GRID_SIZE
  {
    i / WIDTH / CELL_PIXELS
  }

  function CellCol(i: int): (c: int)
    requires 0 <= i
    ensures 0 <= c < GRID_SIZE
  {
    i % WIDTH / CELL_PIXELS
  }

  /** The framebuffer after the map pass: every pixel of the window has its
      cell's tag colour; entries past WIDTH * HEIGHT are untouched. */
  function MapImage(grid: seq<Usize>, s: seq<U32>): (r: seq<U32>)
    requires |grid| >= GRID_SIZE * GRID_SIZE
    ensures |r| == |s|
  {
    seq(|s|, i requires 0 <= i < |s| =>
      if i < WIDTH * HEIGHT then TagColor(grid[CellRow(i) * GRID_SIZE + CellCol(i)]) else s[i])
  }

  /** The framebuffer after the map pass and the player overlay. */
  function Rendered(grid: seq<Usize>, pos: Pos, s: seq<U32>): (r: seq<U32>)
    requires |grid| >= GRID_SIZE * GRID_SIZE
    ensures |r| == |s|
  {
    Painted(MapImage(grid, s), pos.col, pos.row, PLAYER_RED)
  }

  /** Division by the cell size undoes the layout of a cell's pixels.
      A separate lemma per divisor keeps the divisor a literal for the solver. */
  lemma DivModCell(n: int, q: int, m: int)
    requires 0 <= m < CELL_PIXELS && n == q * CELL_PIXELS + m
    ensures n / CELL_PIXELS == q && n % CELL_PIXELS == m
  {
  }

  /** A pixel that `draw_square` paints for column c, row r lies in the
      window, in cell (r, c). */
  lemma SquareInCell(i: int, r: int, c: int)
    requires 0 <= r < GRID_SIZE && 0 <= c < GRID_SIZE && InSquare(i, c, r)
    ensures 0 <= i < WIDTH * HEIGHT && CellRow(i) == r && CellCol(i) == c
  {
    var off := i - PixelIndex(c, r, 0, 0);
    var a, b := off / WIDTH, off % WIDTH;
    var q, m := r * CELL_PIXELS + a, c * CELL_PIXELS + b;
    assert i == q * WIDTH + m && 0 <= m < WIDTH && 0 <= a < CELL_PIXELS && 0 <= b < CELL_PIXELS by {
      assert off == a * WIDTH + b;
    }
    DivModWidth(i, q, m);
    DivModCell(q, r, a);
    DivModCell(m, c, b);
  }

  /** A window pixel in cell (r, c) is painted by `draw_square` for column c,
      row r. */
  lemma CellInSquare(i: int, r: int, c: int)
    requires 0 <= i < WIDTH * HEIGHT && CellRow(i) == r && CellCol(i) == c
    ensures InSquare(i, c, r)
  {
    var q, m := i / WIDTH, i % WIDTH;
    var a, b := q % CELL_PIXELS, m % CELL_PIXELS;
    assert q == r * CELL_PIXELS + a;
    assert m == c * CELL_PIXELS + b;
    DivModWidth(i - PixelIndex(c, r, 0, 0), a, b);
  }

  /** The block that `draw_square` paints for column c, row r of the grid is
      exactly the set of window pixels whose cell is (r, c). */
  lemma SquareIsCell(i: int, r: int, c: int)
    requires 0 <= r < GRID_SIZE && 0 <= c < GRID_SIZE && 0 <= i
    ensures InSquare(i, c, r) <==> i < WIDTH * HEIGHT && CellRow(i) == r && CellCol(i) == c
  {
    if InSquare(i, c, r) {
      SquareInCell(i, r, c);
    }
    if i < WIDTH * HEIGHT && CellRow(i) == r && CellCol(i) == c {
      CellInSquare(i, r, c);
    }
  }

  /** After the map pass every pixel in cell (r, c)'s CELL_PIXELS-square
      block is black for a wall tag, white for a path tag and green for any
      other tag, and the pixels of the window are all overwritten. */
  lemma MapImagePixels(grid: seq<Usize>, s: seq<U32>, r: int, c: int, dx: int, dy: int)
    requires |grid| >= GRID_SIZE * GRID_SIZE && |s| >= WIDTH * HEIGHT
    requires 0 <= r < GRID_SIZE && 0 <= c < GRID_SIZE
    requires 0 <= dx < CELL_PIXELS && 0 <= dy < CELL_PIXELS
    ensures 0 <= PixelIndex(c, r, dx, dy) < WIDTH * HEIGHT
    ensures MapImage(grid, s)[PixelIndex(c, r, dx, dy)] ==
              if grid[r * GRID_SIZE + c] == 1 then BLACK
              else if grid[r * GRID_SIZE + c] == 0 then WHITE
              else GREEN
  {
    var i := PixelIndex(c, r, dx, dy);
    SquareIndices(i, c, r);
    SquareIsCell(i, r, c);
  }

  /** The map pass overwrites the whole window: what the buffer held before
      does not show through. */
  lemma MapImageFullRedraw(grid: seq<Usize>, s: seq<U32>, t: seq<U32>)
    requires |grid| >= GRID_SIZE * GRID_SIZE
    requires |s| == |t| >= WIDTH * HEIGHT
    ensures MapImage(grid, s)[..WIDTH * HEIGHT] == MapImage(grid, t)[..WIDTH * HEIGHT]
  {
  }

  /** After the whole render pass every pixel of the player's cell is red and
      every other pixel of the window has its cell's tag colour. */
  lemma RenderedPixels(grid: seq<Usize>, pos: Pos, s: seq<U32>, i: int)
    requires |grid| >= GRID_SIZE * GRID_SIZE && |s| >= WIDTH * HEIGHT
    requires pos.row < GRID_SIZE && pos.col < GRID_SIZE
    requires 0 <= i < WIDTH * HEIGHT
    ensures Rendered(grid, pos, s)[i] ==
              if CellRow(i) == pos.row && CellCol(i) == pos.col then PLAYER_RED
              else TagColor(grid[CellRow(i) * GRID_SIZE + CellCol(i)])
  {
    SquareIsCell(i, pos.row, pos.col);
  }

  /** The map pass of `main`: for each row r and column c, paint cell (r, c)'s
      block with the colour of its tag. The loop nest inside is the same as
      the one of `draw_square`, which does the painting here. */
  method DrawMap(buffer: array<U32>, grid: seq<Usize>)
    requires |grid| >= GRID_SIZE * GRID_SIZE
    requires buffer.Length >= WIDTH * HEIGHT
    modifies buffer
    ensures buffer[..] == MapImage(grid, old(buffer[..]))
  {
    for r := 0 to GRID_SIZE
      invariant forall i :: 0 <= i < buffer.Length ==>
                  buffer[i] == if i < WIDTH * HEIGHT && CellRow(i) < r
                               then TagColor(grid[CellRow(i) * GRID_SIZE + CellCol(i)]) else old(buffer[i])
    {
      for c := 0 to GRID_SIZE
        invariant forall i :: 0 <= i < buffer.Length ==>
                    buffer[i] == if i < WIDTH * HEIGHT && (CellRow(i) < r || (CellRow(i) == r && CellCol(i) < c))
                                 then TagColor(grid[CellRow(i) * GRID_SIZE + CellCol(i)]) else old(buffer[i])
      {
        var index := r * GRID_SIZE + c;
        var color := TagColor(grid[index]);
        SquareInBounds(c, r, buffer.Length);
        DrawSquare(buffer, c, r, color);
        forall i | 0 <= i < buffer.Length
          ensures InSquare(i, c, r) <==> i < WIDTH * HEIGHT && CellRow(i) == r && CellCol(i) == c
        {
          SquareIsCell(i, r, c);
        }
      }
    }
  }

  /** The render pass of one frame: the map, then the player on top. */
  method Render(buffer: array<U32>, grid: seq<Usize>, playerPos: Pos)
    requires |grid| >= GRID_SIZE * GRID_SIZE
    requires buffer.Length >= WIDTH * HEIGHT
    requires PixelIndex(playerPos.col, playerPos.row, CELL_PIXELS - 1, CELL_PIXELS - 1) < buffer.Length
    modifies buffer
    ensures buffer[..] == Rendered(grid, playerPos, old(buffer[..]))
  {
    DrawMap(buffer, grid);
    var (pr, pc) := (playerPos.row, playerPos.col);
    DrawSquare(buffer, pc, pr, PLAYER_RED);
  }

  /** One iteration of the main loop on the shipped map: draw the frame for
      the current position, then process the keys of this frame. */
  method Frame(buffer: array<U32>, playerPos: Pos, keysPressed: array<bool>,
               pressed: array<bool>, down: array<bool>) returns (newPos: Pos)
    requires buffer.Length == WIDTH * HEIGHT
    requires keysPressed.Length == 4 && pressed.Length == 4 && down.Length == 4
    requires keysPressed != pressed && keysPressed != down
    requires IsWalkable(MAP, playerPos.row, playerPos.col)
    modifies buffer, keysPressed
    ensures buffer[..] == Rendered(MAP, playerPos, old(buffer[..]))
    ensures NoOverflow(playerPos, Keys(pressed[..], down[..]))
    ensures State(newPos, keysPressed[..])
              == AfterInput(MAP, State(playerPos, old(keysPressed[..])), Keys(pressed[..], down[..]))
    ensures IsWalkable(MAP, newPos.row, newPos.col)
  {
    MapShape();
    SquareInBounds(playerPos.col, playerPos.row, buffer.Length);
    Render(buffer, MAP, playerPos);
    InputStaysOnPath(MAP, State(playerPos, keysPressed[..]), Keys(pressed[..], down[..]));
    newPos := HandleInput(playerPos, MAP, keysPressed, pressed, down);
  }
}
