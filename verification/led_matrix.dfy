/** The pixel operations of the LED matrix driver over the memory-mapped
    framebuffer: a flat buffer of NUM_LEDS cells, row-major, ROW_SIZE cells
    per row. */
module LedMatrix {
  import opened LedMatrixH

  /** A frame: the contents of all NUM_LEDS cells. */
  predicate IsFrame(f: seq<Color>)
  {
    |f| == NUM_LEDS
  }

  /** The frame with every cell set to `color`. */
  function Filled(color: Color): (f: seq<Color>)
    ensures IsFrame(f)
    ensures forall j :: 0 <= j < |f| ==> f[j] == color
  {
    seq(NUM_LEDS, _ => color)
  }

  /** The frame after set_led(row, col, color): only the linear index is
      checked, so an index of NUM_LEDS or more leaves the frame as it was,
      and any other index is written, whatever row and col are. */
  function WithLed(f: seq<Color>, row: int, col: int, color: Color): (g: seq<Color>)
    requires IsFrame(f) && 0 <= LedIndex(row, col)
    ensures IsFrame(g)
    ensures forall j :: 0 <= j < NUM_LEDS ==> g[j] == if j == LedIndex(row, col) then color else f[j]
  {
    var k := LedIndex(row, col);
    if k >= NUM_LEDS then f else f[k := color]
  }

  /** set_led on an index inside the buffer writes that cell and no other. */
  lemma WithLedWritesOneCell(f: seq<Color>, row: int, col: int, color: Color, j: int)
    requires IsFrame(f) && 0 <= LedIndex(row, col) < NUM_LEDS && 0 <= j < NUM_LEDS
    ensures WithLed(f, row, col, color)[j] == if j == LedIndex(row, col) then color else f[j]
  {
  }

  /** set_led on an index past the buffer changes nothing. */
  lemma WithLedRejectsPastEnd(f: seq<Color>, row: int, col: int, color: Color)
    requires IsFrame(f) && LedIndex(row, col) >= NUM_LEDS
    ensures WithLed(f, row, col, color) == f
  {
  }

  /** Only the index is checked: a column past the end of a row writes the
      same cell as the matching column of the next row, so (0, 8) writes
      cell 8, the first LED of row 1. */
  lemma WithLedColumnOverflow(f: seq<Color>, row: int, col: int, color: Color)
    requires IsFrame(f) && 0 <= LedIndex(row, col)
    ensures WithLed(f, row, col + ROW_SIZE, color) == WithLed(f, row + 1, col, color)
    ensures WithLed(f, 0, 8, color)[8] == color
  {
    LedIndexColumnWraps(row, col);
  }

  /** Two set_led calls commute when they address different cells or write
      the same colour. */
  lemma WithLedCommutes(f: seq<Color>, row1: int, col1: int, c1: Color, row2: int, col2: int, c2: Color)
    requires IsFrame(f) && 0 <= LedIndex(row1, col1) && 0 <= LedIndex(row2, col2)
    requires LedIndex(row1, col1) != LedIndex(row2, col2) || c1 == c2
    ensures WithLed(WithLed(f, row1, col1, c1), row2, col2, c2)
         == WithLed(WithLed(f, row2, col2, c2), row1, col1, c1)
  {
    var g := WithLed(WithLed(f, row1, col1, c1), row2, col2, c2);
    var h := WithLed(WithLed(f, row2, col2, c2), row1, col1, c1);
    forall j | 0 <= j < NUM_LEDS
      ensures g[j] == h[j]
    {
    }
  }

  /** The process's view of the LED matrix: the mapped framebuffer region
      (led_map) and whether it is currently mapped. */
  class LedMatrix {
    var ledMap: array<Color>
    var mapped: bool

    /** Pixel operations are valid only between a successful open and the
        close, on a region of exactly NUM_LEDS cells. */
    ghost predicate Mapped()
      reads this
    {
      mapped && ledMap.Length == NUM_LEDS
    }

    /** The state after open_led_matrix has succeeded: a fresh mapping of
        NUM_LEDS cells whose contents are whatever the device holds. */
    constructor Open()
      ensures Mapped() && fresh(ledMap)
    {
      ledMap := new Color[NUM_LEDS];
      mapped := true;
    }

    /** close_led_matrix: after it no pixel operation may be called. */
    method Close()
      requires Mapped()
      modifies this
      ensures !mapped && ledMap == old(ledMap)
    {
      mapped := false;
    }

    /** set_leds_single_color: store `color` into every cell, from cell 0
        upwards. */
    method SetLedsSingleColor(color: Color)
      requires Mapped()
      modifies ledMap
      ensures ledMap[..] == Filled(color)
      ensures forall j :: 0 <= j < NUM_LEDS ==> ledMap[j] == color
    {
      for i := 0 to NUM_LEDS
        invariant forall j :: 0 <= j < i ==> ledMap[j] == color
        invariant forall j :: i <= j < NUM_LEDS ==> ledMap[j] == old(ledMap[j])
      {
        ledMap[i] := color;
      }
      assert ledMap[..] == Filled(color);
    }

    /** clear_leds: turn every LED off. The new frame does not depend on
        the old one, so clearing twice leaves the same frame as clearing
        once. */
    method ClearLeds()
      requires Mapped()
      modifies ledMap
      ensures ledMap[..] == Filled(RGB565_OFF)
      ensures forall j :: 0 <= j < NUM_LEDS ==> ledMap[j] == RGB565_OFF
    {
      SetLedsSingleColor(RGB565_OFF);
    }

    /** set_leds_image: copy the first NUM_LEDS elements of `image` into the
        cells, positionally. Elements past NUM_LEDS are not read, and
        `image` may even be the mapped region itself. */
    method SetLedsImage(image: array<Color>)
      requires Mapped() && image.Length >= NUM_LEDS
      modifies ledMap
      ensures ledMap[..] == old(image[..NUM_LEDS])
      ensures image != ledMap ==> image[..] == old(image[..])
    {
      for i := 0 to NUM_LEDS
        invariant forall j :: 0 <= j < i ==> ledMap[j] == old(image[j])
        invariant forall j :: i <= j < NUM_LEDS ==> ledMap[j] == old(ledMap[j])
        invariant image != ledMap ==> image[..] == old(image[..])
      {
        ledMap[i] := image[i];
      }
      assert ledMap[..] == old(image[..NUM_LEDS]);
    }

    /** set_led: write `color` into cell row * ROW_SIZE + col unless that
        index is NUM_LEDS or more, in which case nothing is written. The
        source does not reject negative indices, so the caller must not
        pass one. */
    method SetLed(row: int, col: int, color: Color)
      requires Mapped() && 0 <= LedIndex(row, col)
      modifies ledMap
      ensures ledMap[..] == WithLed(old(ledMap[..]), row, col, color)
      ensures forall j :: 0 <= j < NUM_LEDS ==>
        ledMap[j] == if j == LedIndex(row, col) then color else old(ledMap[j])
    {
      var ledNum := LedIndex(row, col);
      if ledNum >= NUM_LEDS {
        return;
      }
      ledMap[ledNum] := color;
    }
  }
}
