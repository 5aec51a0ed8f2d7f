# LED matrix pixel driver and row-lighting experiment, in Dafny

This project models the pixel-buffer driver for the 8×8 LED matrix of the
Raspberry Pi Sense HAT, and the operating-system scheduling experiment
built on it.

The driver maps the matrix's framebuffer device into memory as a flat
buffer of 64 cells of 16 bits each (`led_map`). The cells are in row-major
order, with 8 cells per row. Each cell holds one colour in RGB565 format:
5 bits of red, 6 of green and 5 of blue, red in the high bits. The model
has four modules:

- `LedMatrixH` (`led_matrix_h.dfy`) holds the header's declarations: the
  geometry constants, the size of the mapped region, the cell type
  `Color` (a `uint16_t`), the eight predefined colours, and the linear
  index `row * ROW_SIZE + col` with lemmas that it is a bijection from
  the grid onto the cells.
- `Rgb565` (`rgb565.dfy`) holds `make_rgb565_color` from led_matrix.c,
  kept in a module of its own apart from the pixel operations of the same
  file because it touches no state. It is a function over
  arbitrary C `int` channels. Beside it are the three field extractors
  and proofs that the fields never overlap, that the packing truncates
  as documented, that every cell value can be produced, and that the
  header's colour constants are the packings it says they are.
- `LedMatrix` (`led_matrix.dfy`) holds a class `LedMatrix` with the
  mapped buffer as an `array<Color>` and a `mapped` flag. Its methods
  are the fill, clear, image-copy and single-LED operations. Fill and
  clear are proved against the frame function `Filled`, the single-LED
  write against `WithLed`, and the image copy against the first 64
  elements of the image as they were before the call. The lemmas about
  `WithLed` pin down the exact bounds check of `set_led`.
- `Lab3Task2` (`lab3_task2.dfy`) holds `run_child`, which lights row `n`
  column by column, and the experiment's rounds of 1 to 8 workers, each
  round ended by a clear. `RoundAnyOrder` proves that a round leaves the
  same frame in whatever order its workers' writes land.

`set_led` rejects only an index of 64 or more (led_matrix.c:188):

- So `(0, 8)` writes cell 8, the first LED of row 1. `WithLedColumnOverflow`
  proves this.
- A negative index is not checked at all; the C code would write before
  the buffer. The model makes a non-negative index a precondition of
  `SetLed`.

## Model

| member | source | states |
|---|---|---|
| `LedMatrixH.LedIndex` | led_matrix.c:187 | The linear index row·8+col of every on-grid (row, col) lies in 0..63. |
| `LedMatrixH.GeometryAgrees` | led_matrix.h:26-29 | The matrix is ROW_SIZE × COL_SIZE = 64 LEDs, and the mapped region is NUM_LEDS × 2 = 128 bytes, one 16-bit cell per LED. |
| `LedMatrixH.LedIndexInRange` | led_matrix.c:187 | Every (row, col) of the 8×8 grid has a linear index in 0..63. |
| `LedMatrixH.LedIndexInjective` | led_matrix.c:187 | Distinct grid positions have distinct linear indices. |
| `LedMatrixH.LedIndexSurjective` | led_matrix.c:187 | Every index 0..63 is the linear index of the grid position (k / 8, k % 8). |
| `LedMatrixH.LedIndexColumnWraps` | led_matrix.c:187 | Column col + 8 of a row has the same linear index as column col of the next row. |
| `Rgb565.RedBits` | led_matrix.h:12-14 | The red field `c >> 11` of a 16-bit colour is below 32 (5 bits). |
| `Rgb565.GreenBits` | led_matrix.h:12-14 | The green field `(c >> 5) & 0x3F` is below 64 (6 bits). |
| `Rgb565.BlueBits` | led_matrix.h:12-14 | The blue field `c & 0x1F` is below 32 (5 bits). |
| `Rgb565.MakeRgb565` | led_matrix.c:146-153 | For any int channels, the packed value fits 16 bits, and its red, green and blue fields read back as `(r >> 3) & 0x1F`, `(g >> 2) & 0x3F` and `(b >> 3) & 0x1F`: the fields never overlap. |
| `Rgb565.PackFields` | led_matrix.c:151 | Packing a 5-bit, a 6-bit and a 5-bit field as (r << 11) + (g << 5) + b gives a value below 0x10000 from which each field reads back unchanged. |
| `Rgb565.FieldsDetermineColor` | led_matrix.h:12-14 | Every 16-bit colour is red × 2048 + green × 32 + blue of its three fields (the RRRRRGGGGGGBBBBB layout). |
| `Rgb565.MakeRgb565OfBytes` | led_matrix.c:148-152 | For channels in 0..255 the result is (r/8)·2048 + (g/4)·32 + b/8. |
| `Rgb565.MakeRgb565Truncates` | led_matrix.c:141-153 | For channels in 0..255 each channel loses only its discarded low bits: the field shifted back is the channel rounded down to a multiple of 8 (red, blue) or 4 (green). |
| `Rgb565.MakeRgb565SameExactly` | led_matrix.c:148-151 | Two byte-range colours pack to the same value if and only if r/8, g/4 and b/8 agree. |
| `Rgb565.EveryColorIsMade` | led_matrix.c:146-153 | Every 16-bit value is the packing of the byte-range colour built from its fields shifted back into place. |
| `Rgb565.NamedColorsAreMade` | led_matrix.h:31-39 | OFF, WHITE, RED, GREEN, BLUE, CYAN, MAGENTA and YELLOW equal the packings of (0,0,0), (255,255,255), (255,0,0), (0,255,0), (0,0,255), (0,255,255), (255,0,255) and (255,255,0). |
| `Rgb565.CompositesAreOrs` | led_matrix.h:33-39 | CYAN = GREEN \| BLUE, MAGENTA = RED \| BLUE, YELLOW = RED \| GREEN and WHITE = RED \| GREEN \| BLUE, bitwise. |
| `LedMatrix.Filled` | led_matrix.c:156-161 | The frame set_leds_single_color leaves: 64 cells, each equal to the colour. |
| `LedMatrix.WithLed` | led_matrix.c:187-192 | The frame set_led leaves for a non-negative index: 64 cells, cell row·8+col holds the colour and every other cell is unchanged; an index of 64 or more matches no cell, so nothing changes. |
| `LedMatrix.WithLedWritesOneCell` | led_matrix.c:187-192 | set_led with an index in 0..63 sets exactly that cell to the colour and leaves every other cell unchanged. |
| `LedMatrix.WithLedRejectsPastEnd` | led_matrix.c:187-191 | set_led with an index of 64 or more leaves the frame unchanged. |
| `LedMatrix.WithLedColumnOverflow` | led_matrix.c:187-188 | Only the index is checked: (row, col + 8) writes what (row + 1, col) writes, and (0, 8) writes cell 8. |
| `LedMatrix.WithLedCommutes` | lab3_task2.c:33-40 | Any two set_led writes commute when they address different cells or write the same colour. |
| `LedMatrix.LedMatrix.Open` | led_matrix.c:103-116 | A successful open gives a fresh mapped buffer of NUM_LEDS cells, on which pixel operations are valid. |
| `LedMatrix.LedMatrix.Close` | led_matrix.c:127-139 | After close the buffer is no longer mapped, so no pixel operation may follow. |
| `LedMatrix.LedMatrix.SetLedsSingleColor` | led_matrix.c:156-162 | Requires a mapped buffer; afterwards all 64 cells equal the colour. The loop invariant says cells 0..i-1 are written and cells from i on are untouched. |
| `LedMatrix.LedMatrix.ClearLeds` | led_matrix.c:165-168 | Afterwards every cell is OFF (0x0000), whatever the frame was before, so clearing twice is the same as clearing once. |
| `LedMatrix.LedMatrix.SetLedsImage` | led_matrix.c:170-180 | With an image of at least 64 elements, cell i becomes the old image[i] for every i < 64; only the first 64 elements matter; the image is not changed unless it is the buffer itself. |
| `LedMatrix.LedMatrix.SetLed` | led_matrix.c:185-193 | For a non-negative index row·8+col, the new frame is `WithLed` of the old one: that one cell set if the index is below 64, no change otherwise. |
| `Lab3Task2.LightRow` | lab3_task2.c:16-21 | The frame after the first k iterations of run_child(n): a full 64-cell frame; its closed form is `LightRowAt`. |
| `Lab3Task2.LightRowAt` | lab3_task2.c:16-21 | After i iterations of run_child(n), cells 8n..8n+i-1 are WHITE and all other cells keep their prior values, so columns light in increasing order. |
| `Lab3Task2.RunChildLightsRow` | lab3_task2.c:16-21 | For 0 ≤ n < 8, run_child(n) leaves every cell of row n WHITE. |
| `Lab3Task2.RunChildKeepsOtherCells` | lab3_task2.c:17-20 | run_child(n) changes no cell outside row n. |
| `Lab3Task2.RunChildPastLastRow` | lab3_task2.c:17-20 | For n ≥ 8 every write of run_child(n) is rejected and the frame is unchanged. |
| `Lab3Task2.ChildWritesAccepted` | lab3_task2.c:32-37 | In round k (1..8) the worker indices are 0..k-1, so every set_led call a worker makes addresses a cell in 0..63 and none is rejected. |
| `Lab3Task2.RowsLit` | lab3_task2.c:33-42 | The frame after workers 0..k-1 of a round have run to completion: a full 64-cell frame; its closed form is `RowsLitAt`. |
| `Lab3Task2.RowsLitAt` | lab3_task2.c:33-42 | Once workers 0..k-1 have finished, rows 0..k-1 are WHITE and the remaining cells keep their prior values. |
| `Lab3Task2.ApplyWhite` | lab3_task2.c:33-40 | The frame after a sequence of WHITE set_led writes lands in the given order: a full 64-cell frame. |
| `Lab3Task2.ApplyWhiteAt` | lab3_task2.c:33-40 | Whatever their order, a sequence of WHITE set_led writes leaves WHITE exactly in the cells some write addresses and every other cell unchanged. |
| `Lab3Task2.RoundAnyOrder` | lab3_task2.c:33-42 | Every ordering (with or without repeats) of exactly the writes (n, i), n < k, i < 8, leaves the same frame as the workers of round k run one after another. |
| `Lab3Task2.RunChild` | lab3_task2.c:16-21 | run_child(n) with n ≥ 0 leaves the frame `LightRow(old, n, 8)`: cells 8n..8n+7 WHITE (none if n ≥ 8), every other cell unchanged. |
| `Lab3Task2.RunChildren` | lab3_task2.c:33-42 | After the workers of round k have all finished, cells below 8k are WHITE and the rest are unchanged. |
| `Lab3Task2.RunRounds` | lab3_task2.c:30-46 | Starting from a mapped buffer, the experiment clears it and runs rounds k = 1..8; the ensures gives all cells OFF at the end, the loop invariant keeps all cells OFF after every round, and inside each round the body asserts rows 0..k-1 WHITE and the rest OFF just before the clear. |

## Left out

- Opening the device is not modelled: `open`, the `ioctl` query, the
  "RPi-Sense FB" identity check, `mmap` and their failure paths
  (led_matrix.c:43-116). `LedMatrix.Open` models only the state after a
  successful open, and the contents of the device at that point are left
  unknown.
- Closing the device is reduced to clearing the `mapped` flag. The
  `munmap` and `close` calls and the -1 return code (led_matrix.c:127-139)
  are not modelled.
- `fork`, `nice` and `wait` in `main` (lab3_task2.c:32-42) are not
  modelled. The workers run one after another in the model, so
  scheduling priorities, concurrency and the visible timing skew between
  rows are not captured. Only the final frame after the join is, and
  `RoundAnyOrder` shows it does not depend on the interleaving.
- `pointless_calculation` (lab3_task2.c:9-14) has no effect on the matrix
  and is treated as a no-op. Its overflowing `int` accumulator is not
  modelled.
- The `printf` and `perror` diagnostics are not modelled. That includes
  the message of a rejected `set_led` and `main`'s exit codes.
- SetLed: the index row·8+col is computed on unbounded integers, so C `int`
  overflow in that product is not modelled.
- SetLed: a negative index is a precondition rather than a modelled
  behaviour, because the source would store before the start of the buffer.
- SetLedsImage: an image shorter than 64 elements is excluded by a
  precondition, because the source would read past its end.
- MakeRgb565: the right shift of a negative `int` is implementation-defined
  in C. It is modelled as an arithmetic shift, which is what common
  compilers do.
