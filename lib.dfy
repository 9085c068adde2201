/** The game logic of src/lib.rs: the walkability test on the row-major grid,
    the edge-triggered player movement, and the painting of one cell-sized
    square into the framebuffer. */
module Lib {
  import opened Constants

  datatype Option<T> = None | Some(value: T)

  /** Rust's `slice.get(index)`: the element, or None past the end. */
  function Get(grid: seq<Usize>, index: int): Option<Usize>
  {
    if 0 <= index < |grid| then Some(grid[index]) else None
  }

  // ---------------------------------------------------------------------
  // Walkability
  // ---------------------------------------------------------------------

  /** Whether the player may stand on (row, col) of the flat, row-major grid:
      both coordinates inside the 10x10 grid and the addressed tag is 0 (path). */
  function IsWalkable(grid: seq<Usize>, row: Usize, col: Usize): (walkable: bool)
    ensures walkable ==> row < GRID_SIZE && col < GRID_SIZE
    ensures row < GRID_SIZE && col < GRID_SIZE ==>
              (walkable <==> row * GRID_SIZE + col < |grid| && grid[row * GRID_SIZE + col] == 0)
  {
    if row < GRID_SIZE && col < GRID_SIZE then
      var index := row * GRID_SIZE + col;
      Get(grid, index) == Some(0)
    else
      false
  }

  /** Row-major addressing read backwards: the cell stored at flat index k of
      the grid is walkable exactly when its tag is 0. */
  lemma WalkableAtIndex(grid: seq<Usize>, k: nat)
    requires k < GRID_SIZE * GRID_SIZE
    ensures IsWalkable(grid, k / GRID_SIZE, k % GRID_SIZE) <==> k < |grid| && grid[k] == 0
  {
    DivModTen(k, k / GRID_SIZE, k % GRID_SIZE);
  }

  /** Division by the grid size undoes row-major addressing. Stated once per
      divisor, since the solver reasons about division only by a literal. */
  lemma DivModTen(k: int, q: int, m: int)
    requires 0 <= m < GRID_SIZE && k == q * GRID_SIZE + m
    ensures k / GRID_SIZE == q && k % GRID_SIZE == m
  {
  }

  // ---------------------------------------------------------------------
  // Player movement
  // ---------------------------------------------------------------------

  /** The four arrow keys, in the order `handle_input` checks them. */
  datatype Dir = Up | Down | Left | Right

  /** The slot of `keys_pressed` (and of the key readings) that belongs to d. */
  function Slot(d: Dir): (i: nat)
    ensures i < 4
  {
    match d
    case Up => 0
    case Down => 1
    case Left => 2
    case Right => 3
  }

  /** The `(usize, usize)` player position: row first, column second. */
  datatype Pos = Pos(row: Usize, col: Usize)

  /** The key readings of one frame, replacing the window:
      `pressed[i]` is `is_key_pressed(key, KeyRepeat::No)` and `down[i]` is
      `is_key_down(key)` for the key of slot i. */
  datatype Keys = Keys(pressed: seq<bool>, down: seq<bool>)

  predicate ValidKeys(k: Keys)
  {
    |k.pressed| == 4 && |k.down| == 4
  }

  /** The player position together with the `keys_pressed` latches. */
  datatype State = State(pos: Pos, keysPressed: seq<bool>)

  predicate ValidState(s: State)
  {
    |s.keysPressed| == 4
  }

  /** The `usize` arithmetic that d's check performs on p does not wrap:
      `row - 1` for Up, `row + 1` for Down, `col - 1` for Left, `col + 1`
      for Right. Wrap-around panics in a debug build. */
  predicate CanStep(p: Pos, d: Dir)
  {
    match d
    case Up => p.row >= 1
    case Down => p.row < USIZE_MAX
    case Left => p.col >= 1
    case Right => p.col < USIZE_MAX
  }

  /** The cell one step from p in direction d. */
  function Target(p: Pos, d: Dir): Pos
    requires CanStep(p, d)
  {
    match d
    case Up => Pos(p.row - 1, p.col)
    case Down => Pos(p.row + 1, p.col)
    case Left => Pos(p.row, p.col - 1)
    case Right => Pos(p.row, p.col + 1)
  }

  /** No check of a call starting at p can wrap: a pressed key's arithmetic
      is evaluated on the start position (Up and Down do not move the
      column, and whenever a move fires its target is inside the grid). */
  predicate NoOverflow(p: Pos, k: Keys)
    requires ValidKeys(k)
  {
    forall d: Dir :: k.pressed[Slot(d)] ==> CanStep(p, d)
  }

  /** Direction d's move fires: the key was pressed this frame, the target
      cell is walkable, and d's latch is clear. The conjuncts are evaluated
      in this order, so the target is only computed for a pressed key. */
  predicate Fires(grid: seq<Usize>, s: State, d: Dir, k: Keys)
    requires ValidState(s) && ValidKeys(k)
    requires k.pressed[Slot(d)] ==> CanStep(s.pos, d)
  {
    && k.pressed[Slot(d)]
    && IsWalkable(grid, Target(s.pos, d).row, Target(s.pos, d).col)
    && !s.keysPressed[Slot(d)]
  }

  /** One of the four if / else-if blocks of `handle_input`: a firing move
      steps the player and sets d's latch; otherwise a released key clears
      d's latch; otherwise nothing changes. */
  function CheckDirection(grid: seq<Usize>, s: State, d: Dir, k: Keys): (r: State)
    requires ValidState(s) && ValidKeys(k)
    requires k.pressed[Slot(d)] ==> CanStep(s.pos, d)
    ensures ValidState(r)
    ensures r.pos == s.pos || IsWalkable(grid, r.pos.row, r.pos.col)
    ensures d.Up? || d.Down? ==> r.pos.col == s.pos.col
    ensures d.Left? || d.Right? ==> r.pos.row == s.pos.row
    ensures !k.pressed[Slot(d)] || s.keysPressed[Slot(d)] ==> r.pos == s.pos
    ensures r.keysPressed == s.keysPressed[Slot(d) := r.keysPressed[Slot(d)]]
  {
    if Fires(grid, s, d, k) then
      State(Target(s.pos, d), s.keysPressed[Slot(d) := true])
    else if !k.down[Slot(d)] then
      State(s.pos, s.keysPressed[Slot(d) := false])
    else
      s
  }

  /** The state that direction d's check sees: the start state as updated by
      the checks of the directions before d. */
  function SeenBy(grid: seq<Usize>, s: State, k: Keys, d: Dir): (r: State)
    requires ValidState(s) && ValidKeys(k) && NoOverflow(s.pos, k)
    ensures ValidState(r)
    ensures k.pressed[Slot(d)] ==> CanStep(r.pos, d)
    ensures r.pos.row == s.pos.row || r.pos.row < GRID_SIZE
    ensures !d.Right? ==> r.pos.col == s.pos.col
    decreases Slot(d)
  {
    match d
    case Up => s
    case Down => CheckDirection(grid, s, Up, k)
    case Left => CheckDirection(grid, SeenBy(grid, s, k, Down), Down, k)
    case Right => CheckDirection(grid, SeenBy(grid, s, k, Left), Left, k)
  }

  /** The state after one `handle_input` call: all four checks, in order. */
  function AfterInput(grid: seq<Usize>, s: State, k: Keys): (r: State)
    requires ValidState(s) && ValidKeys(k) && NoOverflow(s.pos, k)
    ensures ValidState(r)
  {
    CheckDirection(grid, SeenBy(grid, s, k, Right), Right, k)
  }

  /** Whether direction d's move fired during the call. */
  predicate Fired(grid: seq<Usize>, s: State, k: Keys, d: Dir)
    requires ValidState(s) && ValidKeys(k) && NoOverflow(s.pos, k)
  {
    Fires(grid, SeenBy(grid, s, k, d), d, k)
  }

  function Bit(b: bool): int { if b then 1 else 0 }

  /** The checks before d leave d's latch as it was at the start. */
  lemma LatchSeenUnchanged(grid: seq<Usize>, s: State, k: Keys, d: Dir)
    requires ValidState(s) && ValidKeys(k) && NoOverflow(s.pos, k)
    ensures SeenBy(grid, s, k, d).keysPressed[Slot(d)] == s.keysPressed[Slot(d)]
  {
  }

  /** The net effect of a call on the position: each coordinate moves by the
      fired moves along its axis, Up and Left counting -1, Down and Right +1. */
  lemma InputDisplacement(grid: seq<Usize>, s: State, k: Keys)
    requires ValidState(s) && ValidKeys(k) && NoOverflow(s.pos, k)
    ensures AfterInput(grid, s, k).pos.row
              == s.pos.row - Bit(Fired(grid, s, k, Up)) + Bit(Fired(grid, s, k, Down))
    ensures AfterInput(grid, s, k).pos.col
              == s.pos.col - Bit(Fired(grid, s, k, Left)) + Bit(Fired(grid, s, k, Right))
  {
  }

  /** What a call does to the latches: d's latch ends up set exactly when d's
      move fired or the latch was set and the key is still held down; it is
      cleared when the move did not fire and the key is up. A move only fires
      on a pressed key with a clear latch. */
  lemma InputLatches(grid: seq<Usize>, s: State, k: Keys, d: Dir)
    requires ValidState(s) && ValidKeys(k) && NoOverflow(s.pos, k)
    ensures AfterInput(grid, s, k).keysPressed[Slot(d)]
              == (Fired(grid, s, k, d) || (k.down[Slot(d)] && s.keysPressed[Slot(d)]))
    ensures Fired(grid, s, k, d) ==> k.pressed[Slot(d)] && !s.keysPressed[Slot(d)]
  {
  }

  /** Every move of a call lands on a walkable cell, so the player either
      stays put or ends on a walkable cell; a walkable start gives a walkable
      end, and with it a position inside the grid. */
  lemma InputStaysWalkable(grid: seq<Usize>, s: State, k: Keys)
    requires ValidState(s) && ValidKeys(k) && NoOverflow(s.pos, k)
    ensures var r := AfterInput(grid, s, k);
      r.pos == s.pos || IsWalkable(grid, r.pos.row, r.pos.col)
    ensures IsWalkable(grid, s.pos.row, s.pos.col) ==>
              var r := AfterInput(grid, s, k);
              IsWalkable(grid, r.pos.row, r.pos.col) && r.pos.row < GRID_SIZE && r.pos.col < GRID_SIZE
  {
  }

  /** With no key pressed the position does not change, and in every case
      each coordinate changes by at most one (Up then Down in the same call
      cancel out). */
  lemma InputMovesAtMostOne(grid: seq<Usize>, s: State, k: Keys)
    requires ValidState(s) && ValidKeys(k) && NoOverflow(s.pos, k)
    ensures (forall i :: 0 <= i < 4 ==> !k.pressed[i]) ==> AfterInput(grid, s, k).pos == s.pos
    ensures -1 <= AfterInput(grid, s, k).pos.row - s.pos.row <= 1
    ensures -1 <= AfterInput(grid, s, k).pos.col - s.pos.col <= 1
  {
    InputDisplacement(grid, s, k);
    if forall i :: 0 <= i < 4 ==> !k.pressed[i] {
      forall d: Dir ensures !Fired(grid, s, k, d) {
        InputLatches(grid, s, k, d);
      }
    }
  }

  /** q has not moved from p in direction d (it may have moved the other way). */
  predicate NotMovedToward(d: Dir, p: Pos, q: Pos)
  {
    match d
    case Up => q.row >= p.row
    case Down => q.row <= p.row
    case Left => q.col >= p.col
    case Right => q.col <= p.col
  }

  /** A direction whose latch is set at the start of a call never moves the
      player in that direction during the call, and a latch whose key is held
      down stays set. */
  lemma InputRespectsLatch(grid: seq<Usize>, s: State, k: Keys, d: Dir)
    requires ValidState(s) && ValidKeys(k) && NoOverflow(s.pos, k)
    requires s.keysPressed[Slot(d)]
    ensures NotMovedToward(d, s.pos, AfterInput(grid, s, k).pos)
    ensures k.down[Slot(d)] ==> AfterInput(grid, s, k).keysPressed[Slot(d)]
  {
    InputDisplacement(grid, s, k);
    InputLatches(grid, s, k, d);
  }

  /** `AfterInput` is the four checks applied one after the other. */
  lemma AfterInputChecks(grid: seq<Usize>, s: State, k: Keys, s1: State, s2: State, s3: State)
    requires ValidState(s) && ValidKeys(k) && NoOverflow(s.pos, k)
    requires s1 == CheckDirection(grid, s, Up, k)
    requires ValidState(s1) && (k.pressed[Slot(Down)] ==> CanStep(s1.pos, Down))
    requires s2 == CheckDirection(grid, s1, Down, k)
    requires ValidState(s2) && (k.pressed[Slot(Left)] ==> CanStep(s2.pos, Left))
    requires s3 == CheckDirection(grid, s2, Left, k)
    requires ValidState(s3) && (k.pressed[Slot(Right)] ==> CanStep(s3.pos, Right))
    ensures AfterInput(grid, s, k) == CheckDirection(grid, s3, Right, k)
  {
  }

  /** One if / else-if block of `handle_input`, for direction d: the key is
      pressed, the target is walkable and the latch is clear, so the player
      steps and the latch is set; or else a released key clears the latch. */
  method CheckKey(playerPos: Pos, grid: seq<Usize>, keysPressed: array<bool>,
                  pressed: array<bool>, down: array<bool>, d: Dir) returns (newPos: Pos)
    requires keysPressed.Length == 4 && pressed.Length == 4 && down.Length == 4
    requires keysPressed != pressed && keysPressed != down
    requires pressed[Slot(d)] ==> CanStep(playerPos, d)
    modifies keysPressed
    ensures State(newPos, keysPressed[..])
              == CheckDirection(grid, State(playerPos, old(keysPressed[..])), d, Keys(pressed[..], down[..]))
  {
    var slot := Slot(d);
    newPos := playerPos;
    if pressed[slot] && IsWalkable(grid, Target(playerPos, d).row, Target(playerPos, d).col) && !keysPressed[slot] {
      newPos := Target(playerPos, d);
      keysPressed[slot] := true;
    } else if !down[slot] {
      keysPressed[slot] := false;
    }
  }

  /** `handle_input`: the four checks Up, Down, Left, Right, each one seeing
      the position as updated by the ones before. The `&mut` position comes
      back as `newPos`; the `keys_pressed` array is updated in place. */
  method HandleInput(playerPos: Pos, grid: seq<Usize>, keysPressed: array<bool>,
                     pressed: array<bool>, down: array<bool>) returns (newPos: Pos)
    requires keysPressed.Length == 4 && pressed.Length == 4 && down.Length == 4
    requires keysPressed != pressed && keysPressed != down
    requires NoOverflow(playerPos, Keys(pressed[..], down[..]))
    modifies keysPressed
    ensures State(newPos, keysPressed[..])
              == AfterInput(grid, State(playerPos, old(keysPressed[..])), Keys(pressed[..], down[..]))
  {
    ghost var k := Keys(pressed[..], down[..]);
    ghost var s := State(playerPos, keysPressed[..]);
    assert pressed[Slot(Up)] ==> CanStep(playerPos, Up);
    newPos := CheckKey(playerPos, grid, keysPressed, pressed, down, Up);
    ghost var s1 := State(newPos, keysPressed[..]);
    assert pressed[Slot(Down)] ==> CanStep(playerPos, Down);
    newPos := CheckKey(newPos, grid, keysPressed, pressed, down, Down);
    ghost var s2 := State(newPos, keysPressed[..]);
    assert pressed[Slot(Left)] ==> CanStep(playerPos, Left);
    newPos := CheckKey(newPos, grid, keysPressed, pressed, down, Left);
    ghost var s3 := State(newPos, keysPressed[..]);
    assert pressed[Slot(Right)] ==> CanStep(playerPos, Right);
    newPos := CheckKey(newPos, grid, keysPressed, pressed, down, Right);
    AfterInputChecks(grid, s, k, s1, s2, s3);
  }

  // ---------------------------------------------------------------------
  // Framebuffer painting
  // ---------------------------------------------------------------------

  /** The buffer index that `draw_square(buffer, x, y, _)` writes for pixel
      (dx, dy) of its block: row `y * CELL_PIXELS + dy` of a WIDTH-wide
      framebuffer, column `x * CELL_PIXELS + dx`. */
  function PixelIndex(x: int, y: int, dx: int, dy: int): int
  {
    (y * CELL_PIXELS + dy) * WIDTH + x * CELL_PIXELS + dx
  }

  /** Index i lies within the first `rows` rows of the block that
      `draw_square(_, x, y, _)` paints. */
  predicate InRows(i: int, x: int, y: int, rows: int)
  {
    var off := i - PixelIndex(x, y, 0, 0);
    0 <= off && off / WIDTH < rows && off % WIDTH < CELL_PIXELS
  }

  /** Index i is one that `draw_square(_, x, y, _)` paints. */
  predicate InSquare(i: int, x: int, y: int)
  {
    InRows(i, x, y, CELL_PIXELS)
  }

  /** The buffer contents after `draw_square(buffer, x, y, color)`. */
  function Painted(s: seq<U32>, x: Usize, y: Usize, color: U32): (r: seq<U32>)
    ensures |r| == |s|
  {
    seq(|s|, i requires 0 <= i < |s| => if InSquare(i, x, y) then color else s[i])
  }

  /** The painted indices are exactly those of the nested loops over
      dx, dy < CELL_PIXELS. */
  lemma SquareIndices(i: int, x: int, y: int)
    ensures InSquare(i, x, y) <==>
              exists dx, dy :: 0 <= dx < CELL_PIXELS && 0 <= dy < CELL_PIXELS && i == PixelIndex(x, y, dx, dy)
  {
    var off := i - PixelIndex(x, y, 0, 0);
    if InSquare(i, x, y) {
      assert i == PixelIndex(x, y, off % WIDTH, off / WIDTH);
    }
    forall dx, dy | 0 <= dx < CELL_PIXELS && 0 <= dy < CELL_PIXELS && i == PixelIndex(x, y, dx, dy)
      ensures InSquare(i, x, y)
    {
      assert off == dy * WIDTH + dx;
      DivModWidth(off, dy, dx);
    }
  }

  /** Division by the framebuffer width undoes the row-major pixel layout.
      A separate lemma per divisor keeps the divisor a literal for the solver. */
  lemma DivModWidth(n: int, q: int, m: int)
    requires 0 <= m < WIDTH && n == q * WIDTH + m
    ensures n / WIDTH == q && n % WIDTH == m
  {
  }

  /** After painting, every pixel of the block holds the colour and every
      other entry of the buffer is as before. */
  lemma PaintedPixels(s: seq<U32>, x: Usize, y: Usize, color: U32, dx: int, dy: int)
    requires 0 <= dx < CELL_PIXELS && 0 <= dy < CELL_PIXELS
    requires PixelIndex(x, y, CELL_PIXELS - 1, CELL_PIXELS - 1) < |s|
    ensures 0 <= PixelIndex(x, y, dx, dy) < |s|
    ensures Painted(s, x, y, color)[PixelIndex(x, y, dx, dy)] == color
    ensures forall i :: 0 <= i < |s| && !InSquare(i, x, y) ==> Painted(s, x, y, color)[i] == s[i]
  {
    SquareIndices(PixelIndex(x, y, dx, dy), x, y);
  }

  /** Painting the same square twice leaves the buffer as painting it once. */
  lemma PaintIdempotent(s: seq<U32>, x: Usize, y: Usize, color: U32)
    ensures Painted(Painted(s, x, y, color), x, y, color) == Painted(s, x, y, color)
  {
  }

  /** For a cell of the grid and a buffer of WIDTH * HEIGHT pixels every index
      that `draw_square` writes is in bounds, because CELL_PIXELS * GRID_SIZE
      equals WIDTH and HEIGHT. */
  lemma SquareInBounds(x: Usize, y: Usize, length: nat)
    requires x < GRID_SIZE && y < GRID_SIZE && length >= WIDTH * HEIGHT
    ensures PixelIndex(x, y, CELL_PIXELS - 1, CELL_PIXELS - 1) < length
  {
  }

  /** Splitting the first rows+1 rows of a block into the first rows rows and
      row number `rows`. */
  lemma RowsSplit(i: int, x: int, y: int, rows: int)
    requires 0 <= rows
    ensures InRows(i, x, y, rows + 1) <==>
              InRows(i, x, y, rows)
              || PixelIndex(x, y, 0, rows) <= i < PixelIndex(x, y, CELL_PIXELS, rows)
  {
    var off := i - PixelIndex(x, y, 0, 0);
    if PixelIndex(x, y, 0, rows) <= i < PixelIndex(x, y, CELL_PIXELS, rows) {
      DivModWidth(off, rows, off - rows * WIDTH);
    }
  }

  /** `draw_square`: fill the CELL_PIXELS x CELL_PIXELS block of cell
      column x, row y with `color`, in place. */
  method DrawSquare(buffer: array<U32>, x: Usize, y: Usize, color: U32)
    requires PixelIndex(x, y, CELL_PIXELS - 1, CELL_PIXELS - 1) < buffer.Length
    modifies buffer
    ensures buffer[..] == Painted(old(buffer[..]), x, y, color)
  {
    for dy := 0 to CELL_PIXELS
      invariant forall i :: 0 <= i < buffer.Length ==>
                  buffer[i] == if InRows(i, x, y, dy) then color else old(buffer[i])
    {
      for dx := 0 to CELL_PIXELS
        invariant forall i :: 0 <= i < buffer.Length ==>
                    buffer[i] == if InRows(i, x, y, dy) || PixelIndex(x, y, 0, dy) <= i < PixelIndex(x, y, dx, dy)
                                 then color else old(buffer[i])
      {
        var px := x * CELL_PIXELS + dx;
        var py := y * CELL_PIXELS + dy;
        buffer[py * WIDTH + px] := color;
      }
      forall i | 0 <= i < buffer.Length ensures InRows(i, x, y, dy + 1) <==>
                  InRows(i, x, y, dy) || PixelIndex(x, y, 0, dy) <= i < PixelIndex(x, y, CELL_PIXELS, dy)
      {
        RowsSplit(i, x, y, dy);
      }
    }
  }
}
