/** Compile-time configuration of the maze game (src/constants.rs), and the
    machine integer types the Rust code computes with. */
module Constants {

  /** Largest value of Rust's `usize` on a 64-bit target. */
  const USIZE_MAX: int := 0xFFFF_FFFF_FFFF_FFFF

  /** Rust's `usize`: unsigned, 64 bits wide. */
  type Usize = x: int | 0 <= x <= USIZE_MAX

  /** Rust's `u32`, the type of one framebuffer pixel (0xRRGGBB). */
  type U32 = x: int | 0 <= x < 0x1_0000_0000

  /** Total width of the window in pixels. */
  const WIDTH: Usize := 800

  /** Total height of the window in pixels. */
  const HEIGHT: Usize := 800

  /** Number of cells along each side of the square grid. */
  const GRID_SIZE: Usize := 10

  /** Side of one cell in pixels, written out as the value of
      WIDTH / GRID_SIZE (see GridCoversWindow): a literal divisor keeps
      the pixel arithmetic linear for the solver. */
  const CELL_PIXELS: Usize := 80

  /** CELL_PIXELS is WIDTH / GRID_SIZE, and the grid exactly covers the
      square window: the pixel arithmetic relies on it. */
  lemma GridCoversWindow()
    ensures CELL_PIXELS == WIDTH / GRID_SIZE
    ensures CELL_PIXELS * GRID_SIZE == WIDTH == HEIGHT
  {
  }
}
