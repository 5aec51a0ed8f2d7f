/** The RGB565 colour packing of the LED matrix driver.

    A channel value is an arbitrary C int. The right shift `x >> k` is
    modelled as `x / 2^k` (for a positive divisor Dafny's division rounds
    down, which is the arithmetic shift of a two's-complement int) and the
    mask `x & (2^k - 1)` as `x % 2^k` (Dafny's remainder is never negative,
    which is the two's-complement mask). */
module Rgb565 {
  import opened LedMatrixH

  /** The red field, bits 15..11: `c >> 11`. */
  function RedBits(c: Color): (v: nat)
    ensures v < 32
  {
    c as int / 2048
  }

  /** The green field, bits 10..5: `(c >> 5) & 0x3F`. */
  function GreenBits(c: Color): (v: nat)
    ensures v < 64
  {
    (c as int / 32) % 64
  }

  /** The blue field, bits 4..0: `c & 0x1F`. */
  function BlueBits(c: Color): (v: nat)
    ensures v < 32
  {
    c as int % 32
  }

  /** make_rgb565_color: keep the top 5 bits of red, the top 6 of green and
      the top 5 of blue (of the low byte of each int), and pack them as
      RRRRRGGGGGGBBBBB. The packed int always fits the uint16_t result, so
      the final conversion loses nothing. The three fields do not overlap:
      each can be read back unchanged from the result. */
  function MakeRgb565(r: int, g: int, b: int): (c: Color)
    ensures RedBits(c) == (r / 8) % 32
    ensures GreenBits(c) == (g / 4) % 64
    ensures BlueBits(c) == (b / 8) % 32
  {
    var r5 := (r / 8) % 32;
    var g6 := (g / 4) % 64;
    var b5 := (b / 8) % 32;
    PackFields(r5, g6, b5);
    (r5 * 2048 + g6 * 32 + b5) as Color
  }

  /** Packing three in-range fields gives a 16-bit value from which each
      field reads back unchanged. */
  lemma PackFields(x: int, y: int, z: int)
    requires 0 <= x < 32 && 0 <= y < 64 && 0 <= z < 32
    ensures 0 <= x * 2048 + y * 32 + z < 0x1_0000
    ensures (x * 2048 + y * 32 + z) / 2048 == x
    ensures ((x * 2048 + y * 32 + z) / 32) % 64 == y
    ensures (x * 2048 + y * 32 + z) % 32 == z
  {
    var v := x * 2048 + y * 32 + z;
    assert v == (x * 64 + y) * 32 + z;
    assert v / 32 == x * 64 + y;
    assert (x * 64 + y) % 64 == y;
  }

  /** A colour is determined by its three fields. */
  lemma FieldsDetermineColor(c: Color)
    ensures c as int == RedBits(c) * 2048 + GreenBits(c) * 32 + BlueBits(c)
  {
    var v := c as int;
    var q := v / 32;
    var x, y, z := q / 64, q % 64, v % 32;
    assert v == x * 2048 + y * 32 + z;
    PackFields(x, y, z);
  }

  /** On the documented channel range 0..255 the masks have no effect:
      the result is (r/8)*2048 + (g/4)*32 + b/8. */
  lemma MakeRgb565OfBytes(r: int, g: int, b: int)
    requires 0 <= r <= 255 && 0 <= g <= 255 && 0 <= b <= 255
    ensures MakeRgb565(r, g, b) as int == (r / 8) * 2048 + (g / 4) * 32 + b / 8
  {
    assert 0 <= r / 8 < 32 && (r / 8) % 32 == r / 8;
    assert 0 <= g / 4 < 64 && (g / 4) % 64 == g / 4;
    assert 0 <= b / 8 < 32 && (b / 8) % 32 == b / 8;
  }

  /** "As close as possible": on 0..255 each channel loses only its
      discarded low bits, so reading a field back and shifting it into
      place gives the channel rounded down to a multiple of 8 (red, blue)
      or 4 (green). */
  lemma MakeRgb565Truncates(r: int, g: int, b: int)
    requires 0 <= r <= 255 && 0 <= g <= 255 && 0 <= b <= 255
    ensures var c := MakeRgb565(r, g, b);
      RedBits(c) * 8 <= r < RedBits(c) * 8 + 8 &&
      GreenBits(c) * 4 <= g < GreenBits(c) * 4 + 4 &&
      BlueBits(c) * 8 <= b < BlueBits(c) * 8 + 8
  {
  }

  /** Two byte-range colours pack to the same cell value exactly when they
      agree on the bits that are kept. */
  lemma MakeRgb565SameExactly(r1: int, g1: int, b1: int, r2: int, g2: int, b2: int)
    requires 0 <= r1 <= 255 && 0 <= g1 <= 255 && 0 <= b1 <= 255
    requires 0 <= r2 <= 255 && 0 <= g2 <= 255 && 0 <= b2 <= 255
    ensures MakeRgb565(r1, g1, b1) == MakeRgb565(r2, g2, b2)
        <==> r1 / 8 == r2 / 8 && g1 / 4 == g2 / 4 && b1 / 8 == b2 / 8
  {
    if MakeRgb565(r1, g1, b1) == MakeRgb565(r2, g2, b2) {
      assert RedBits(MakeRgb565(r1, g1, b1)) == RedBits(MakeRgb565(r2, g2, b2));
      assert GreenBits(MakeRgb565(r1, g1, b1)) == GreenBits(MakeRgb565(r2, g2, b2));
      assert BlueBits(MakeRgb565(r1, g1, b1)) == BlueBits(MakeRgb565(r2, g2, b2));
    }
  }

  /** Every 16-bit cell value is the packing of some byte-range colour: the
      one whose channels are the fields shifted back into place. */
  lemma EveryColorIsMade(c: Color)
    ensures 0 <= RedBits(c) * 8 <= 255 && 0 <= GreenBits(c) * 4 <= 255 && 0 <= BlueBits(c) * 8 <= 255
    ensures MakeRgb565(RedBits(c) * 8, GreenBits(c) * 4, BlueBits(c) * 8) == c
  {
    var x, y, z := RedBits(c), GreenBits(c), BlueBits(c);
    assert x * 8 / 8 == x && y * 4 / 4 == y && z * 8 / 8 == z;
    MakeRgb565OfBytes(x * 8, y * 4, z * 8);
    FieldsDetermineColor(c);
  }

  /** The predefined colours are the packings the header says they are. */
  lemma NamedColorsAreMade()
    ensures RGB565_OFF == MakeRgb565(0, 0, 0)
    ensures RGB565_WHITE == MakeRgb565(255, 255, 255)
    ensures RGB565_RED == MakeRgb565(255, 0, 0)
    ensures RGB565_GREEN == MakeRgb565(0, 255, 0)
    ensures RGB565_BLUE == MakeRgb565(0, 0, 255)
    ensures RGB565_CYAN == MakeRgb565(0, 255, 255)
    ensures RGB565_MAGENTA == MakeRgb565(255, 0, 255)
    ensures RGB565_YELLOW == MakeRgb565(255, 255, 0)
  {
    MakeRgb565OfBytes(0, 0, 0);
    MakeRgb565OfBytes(255, 255, 255);
    MakeRgb565OfBytes(255, 0, 0);
    MakeRgb565OfBytes(0, 255, 0);
    MakeRgb565OfBytes(0, 0, 255);
    MakeRgb565OfBytes(0, 255, 255);
    MakeRgb565OfBytes(255, 0, 255);
    MakeRgb565OfBytes(255, 255, 0);
  }

  /** Bitwise OR of two cell values. */
  function BitOr(a: Color, b: Color): Color
  {
    ((a as bv16) | (b as bv16)) as int as Color
  }

  /** The composite colours are bitwise ORs of the primaries. */
  lemma CompositesAreOrs()
    ensures RGB565_CYAN == BitOr(RGB565_GREEN, RGB565_BLUE)
    ensures RGB565_MAGENTA == BitOr(RGB565_RED, RGB565_BLUE)
    ensures RGB565_YELLOW == BitOr(RGB565_RED, RGB565_GREEN)
    ensures RGB565_WHITE == BitOr(BitOr(RGB565_RED, RGB565_GREEN), RGB565_BLUE)
  {
  }
}
