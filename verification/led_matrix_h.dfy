/** The declarations shared by the Sense HAT LED matrix driver and its users:
    the 8x8 geometry of the matrix, the size of its memory-mapped framebuffer,
    the cell type and the predefined RGB565 colours. */
module LedMatrixH {

  /** A uint16_t: one framebuffer cell, holding one colour in RGB565 format. */
  newtype Color = x: int | 0 <= x < 0x1_0000

  /** Number of LEDs, and so of cells in the framebuffer. */
  const NUM_LEDS: nat := 64
  /** Number of cells in one row (the number of columns). */
  const ROW_SIZE: nat := 8
  /** Number of cells in one column (the number of rows). */
  const COL_SIZE: nat := 8
  /** sizeof(uint16_t), in bytes. */
  const CELL_BYTES: nat := 2
  /** Size in bytes of the mapped framebuffer region. */
  const LED_MATRIX_FILESIZE: nat := NUM_LEDS * CELL_BYTES

  // The predefined colours; the header documents them as outputs of the
  // colour packing function (see module Rgb565 for the proofs).
  const RGB565_OFF: Color := 0x0000
  const RGB565_WHITE: Color := 0xFFFF
  const RGB565_RED: Color := 0xF800
  const RGB565_GREEN: Color := 0x07E0
  const RGB565_BLUE: Color := 0x001F
  const RGB565_CYAN: Color := 0x07FF
  const RGB565_MAGENTA: Color := 0xF81F
  const RGB565_YELLOW: Color := 0xFFE0

  /** The linear cell index of (row, col) in the row-major framebuffer.
      Nothing restricts row or col: an out-of-range column simply moves the
      index into a neighbouring row. */
  function LedIndex(row: int, col: int): (k: int)
    ensures OnGrid(row, col) ==> 0 <= k < NUM_LEDS
  {
    row * ROW_SIZE + col
  }

  /** The (row, col) pairs that name an LED of the 8x8 matrix. */
  predicate OnGrid(row: int, col: int)
  {
    0 <= row < COL_SIZE && 0 <= col < ROW_SIZE
  }

  /** The geometry constants agree: the matrix is 8 by 8, and the mapped
      region holds exactly one 16-bit cell per LED, 128 bytes in all. */
  lemma GeometryAgrees()
    ensures NUM_LEDS == ROW_SIZE * COL_SIZE == 64
    ensures LED_MATRIX_FILESIZE == NUM_LEDS * CELL_BYTES == 128
  {
  }

  /** Every LED of the grid has a cell of the framebuffer. */
  lemma LedIndexInRange(row: int, col: int)
    requires OnGrid(row, col)
    ensures 0 <= LedIndex(row, col) < NUM_LEDS
  {
  }

  /** Distinct LEDs of the grid have distinct cells. */
  lemma LedIndexInjective(row1: int, col1: int, row2: int, col2: int)
    requires OnGrid(row1, col1) && OnGrid(row2, col2)
    requires LedIndex(row1, col1) == LedIndex(row2, col2)
    ensures row1 == row2 && col1 == col2
  {
  }

  /** Every cell of the framebuffer belongs to an LED of the grid: together
      with the two lemmas above, LedIndex is a bijection from the grid onto
      the cell indices 0 .. NUM_LEDS - 1. */
  lemma LedIndexSurjective(k: int)
    requires 0 <= k < NUM_LEDS
    ensures OnGrid(k / ROW_SIZE, k % ROW_SIZE)
    ensures LedIndex(k / ROW_SIZE, k % ROW_SIZE) == k
  {
  }

  /** A column index one row-width past the end lands on the same column of
      the next row: the index arithmetic wraps columns into rows. */
  lemma LedIndexColumnWraps(row: int, col: int)
    ensures LedIndex(row, col + ROW_SIZE) == LedIndex(row + 1, col)
  {
  }
}
