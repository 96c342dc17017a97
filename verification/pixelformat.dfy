/**
 * The pixel-format table and colour codec of libgfb: the constant
 * `gfb_pixelformats` table, the `GFB_MAP_PIXELFORMAT_*` encode macros, the
 * `gfb_maprgba` dispatch and the `(c & mask) >> shift` channel decoding used
 * throughout the blitters and `gfb_getpixel`.
 */
module PixelFormats {

  /** `gfb_color_t`: an unsigned 32-bit packed pixel. */
  type Color = bv32

  /** A `uint8_t` channel intensity. */
  type Channel = bv8

  /** `gfb_pixelformat_id_t`. */
  datatype FormatId = Rgb16 | Rgb24 | Rgb32 | Argb32 | Alpha

  /** `gfb_pixelformat_t`: one row of the format table. */
  datatype PixelFormat = PixelFormat(
    id: FormatId,
    bitsPerPixel: nat,
    bytesPerPixel: nat,
    ashift: bv32, rshift: bv32, gshift: bv32, bshift: bv32,
    amask: Color, rmask: Color, gmask: Color, bmask: Color)

  /** The constant table `gfb_pixelformats[]`, indexed by format id. */
  function FormatOf(id: FormatId): (f: PixelFormat)
    ensures f.id == id && ShiftsInRange(f)
    ensures 2 <= f.bytesPerPixel <= 4 && f.bitsPerPixel <= 8 * f.bytesPerPixel
  {
    match id
    case Rgb16  => PixelFormat(Rgb16,  16, 2,  0, 10, 5, 0, 0x0000_0000, 0x0000_7c00, 0x0000_03e0, 0x0000_001f)
    case Rgb24  => PixelFormat(Rgb24,  24, 3,  0, 16, 8, 0, 0x0000_0000, 0x00ff_0000, 0x0000_ff00, 0x0000_00ff)
    case Rgb32  => PixelFormat(Rgb32,  32, 4,  0, 16, 8, 0, 0x0000_0000, 0x00ff_0000, 0x0000_ff00, 0x0000_00ff)
    case Argb32 => PixelFormat(Argb32, 32, 4, 24, 16, 8, 0, 0xff00_0000, 0x00ff_0000, 0x0000_ff00, 0x0000_00ff)
    case Alpha  => PixelFormat(Alpha,  32, 4, 24,  0, 0, 0, 0xff00_0000, 0x0000_0000, 0x0000_0000, 0x0000_0000)
  }

  /** The `(uint8_t)` cast: keep the low eight bits. */
  function Trunc8(v: bv32): Channel
  {
    (v & 0xFF) as bv8
  }

  /** One channel of a packed colour: `(uint8_t)((c & mask) >> shift)`. */
  function Extract(c: Color, mask: Color, shift: bv32): Channel
    requires shift < 32
  {
    Trunc8((c & mask) >> shift)
  }

  /** The four decoded channels of a colour, in the order alpha, red, green, blue. */
  datatype Argb = Argb(a: Channel, r: Channel, g: Channel, b: Channel)

  /** Shifts of a table format are all below the word width. */
  predicate ShiftsInRange(f: PixelFormat)
  {
    f.ashift < 32 && f.rshift < 32 && f.gshift < 32 && f.bshift < 32
  }

  /** Decoding all four channels with a format's masks and shifts. */
  function Decode(f: PixelFormat, c: Color): Argb
    requires ShiftsInRange(f)
  {
    Argb(Extract(c, f.amask, f.ashift), Extract(c, f.rmask, f.rshift),
         Extract(c, f.gmask, f.gshift), Extract(c, f.bmask, f.bshift))
  }

  /** `GFB_MAP_PIXELFORMAT_16BIT_RGB`: 5 bits per channel, the top bit unused. */
  function MapRgb16(red: Channel, green: Channel, blue: Channel): Color
  {
    0 | ((red as bv32 << 10) & 0x7c00) | ((green as bv32 << 5) & 0x03e0) | (blue as bv32 & 0x001f)
  }

  /** `GFB_MAP_PIXELFORMAT_24BIT_RGB`. */
  function MapRgb24(red: Channel, green: Channel, blue: Channel): Color
  {
    0 | ((red as bv32 << 16) & 0xff0000) | ((green as bv32 << 8) & 0xff00) | (blue as bv32 & 0xff)
  }

  /** `GFB_MAP_PIXELFORMAT_32BIT_RGB`: the unused top byte is set to 0xff. */
  function MapRgb32(red: Channel, green: Channel, blue: Channel): Color
  {
    0xff00_0000 | ((red as bv32 << 16) & 0xff0000) | ((green as bv32 << 8) & 0xff00) | (blue as bv32 & 0xff)
  }

  /** `GFB_MAP_PIXELFORMAT_32BIT_ARGB`. */
  function MapArgb32(alpha: Channel, red: Channel, green: Channel, blue: Channel): Color
  {
    ((alpha as bv32 << 24) & 0xff00_0000) | ((red as bv32 << 16) & 0xff0000) | ((green as bv32 << 8) & 0xff00) | (blue as bv32 & 0xff)
  }

  /**
   * The format dispatch of `gfb_maprgba` (for a non-NULL surface): each
   * format has its own macro, the ALPHA format falls to the `default` case
   * and yields 0.
   */
  function MapRgba(id: FormatId, red: Channel, green: Channel, blue: Channel, alpha: Channel): (c: Color)
    ensures id == Alpha ==> c == 0
    ensures id == Rgb32 ==> c & 0xff00_0000 == 0xff00_0000
  {
    match id
    case Rgb16  => MapRgb16(red, green, blue)
    case Rgb24  => MapRgb24(red, green, blue)
    case Rgb32  => MapRgb32(red, green, blue)
    case Argb32 => MapArgb32(alpha, red, green, blue)
    case Alpha  => 0
  }

  /** The low `n` bytes of a word, the part a `memcpy` of `n` bytes moves (little-endian host). */
  function ByteMask(n: nat): Color
  {
    if n == 2 then 0xFFFF else if n == 3 then 0xFF_FFFF else if n >= 4 then 0xFFFF_FFFF else if n == 1 then 0xFF else 0
  }

  /** The value a pixel slot of `n` bytes holds after `memcpy(slot, &c, n)`. */
  function Store(c: Color, n: nat): Color
  {
    c & ByteMask(n)
  }

  // ---------------------------------------------------------------------
  // Properties of the table and the codec.

  /** Every table format has in-range shifts, and its four masks are pairwise disjoint. */
  lemma TableWellFormed(id: FormatId)
    ensures ShiftsInRange(FormatOf(id))
    ensures var f := FormatOf(id);
      f.amask & f.rmask == 0 && f.amask & f.gmask == 0 && f.amask & f.bmask == 0 &&
      f.rmask & f.gmask == 0 && f.rmask & f.bmask == 0 && f.gmask & f.bmask == 0
  {
    match id
    case Rgb16 =>
    case Rgb24 =>
    case Rgb32 =>
    case Argb32 =>
    case Alpha =>
  }

  /**
   * Every channel mask of a table format lies within the format's bytes, so
   * decoding a pixel does not depend on the bytes above `bytesPerPixel`
   * (which a `memcpy` into an uninitialised local leaves undefined).
   */
  lemma DecodeIgnoresHighBytes(id: FormatId, c: Color)
    ensures ShiftsInRange(FormatOf(id))
    ensures Decode(FormatOf(id), Store(c, FormatOf(id).bytesPerPixel)) == Decode(FormatOf(id), c)
  {
    match id
    case Rgb16 =>
      assert Store(c, 2) == c & 0xFFFF;
      Rgb16IgnoresHighBytes(c);
    case Rgb24 =>
      assert Store(c, 3) == c & 0xFF_FFFF;
      Rgb24IgnoresHighBytes(c);
    case _ =>
      assert Store(c, 4) == c;
  }

  lemma Rgb16IgnoresHighBytes(c: Color)
    ensures Decode(FormatOf(Rgb16), c & 0xFFFF) == Decode(FormatOf(Rgb16), c)
  {
  }

  lemma Rgb24IgnoresHighBytes(c: Color)
    ensures Decode(FormatOf(Rgb24), c & 0xFF_FFFF) == Decode(FormatOf(Rgb24), c)
  {
  }

  /** An encoded colour fits in its format's bytes: storing it loses nothing. */
  lemma MapRgbaFitsPixel(id: FormatId, red: Channel, green: Channel, blue: Channel, alpha: Channel)
    ensures Store(MapRgba(id, red, green, blue, alpha), FormatOf(id).bytesPerPixel) == MapRgba(id, red, green, blue, alpha)
  {
    match id
    case Rgb16 => Rgb16Fits(red, green, blue);
    case Rgb24 => Rgb24Fits(red, green, blue);
    case Rgb32 => WordFits(MapRgb32(red, green, blue));
    case Argb32 => WordFits(MapArgb32(alpha, red, green, blue));
    case Alpha =>
  }

  lemma Rgb16Fits(red: Channel, green: Channel, blue: Channel)
    ensures Store(MapRgb16(red, green, blue), 2) == MapRgb16(red, green, blue)
  {
    assert MapRgb16(red, green, blue) & 0xFFFF == MapRgb16(red, green, blue);
  }

  lemma Rgb24Fits(red: Channel, green: Channel, blue: Channel)
    ensures Store(MapRgb24(red, green, blue), 3) == MapRgb24(red, green, blue)
  {
    assert MapRgb24(red, green, blue) & 0xFF_FFFF == MapRgb24(red, green, blue);
  }

  lemma WordFits(c: Color)
    ensures Store(c, 4) == c
  {
    assert c & 0xFFFF_FFFF == c;
  }

  /** ARGB32 decoding inverts its encoding exactly, on all four channels. */
  lemma Argb32RoundTrip(red: Channel, green: Channel, blue: Channel, alpha: Channel)
    ensures ShiftsInRange(FormatOf(Argb32))
    ensures Decode(FormatOf(Argb32), MapRgba(Argb32, red, green, blue, alpha)) == Argb(alpha, red, green, blue)
  {
  }

  /** ARGB32 encoding also inverts decoding: every 32-bit pixel is the encoding of its channels. */
  lemma Argb32Complete(c: Color)
    ensures ShiftsInRange(FormatOf(Argb32))
    ensures var d := Decode(FormatOf(Argb32), c); MapRgba(Argb32, d.r, d.g, d.b, d.a) == c
  {
  }

  /** RGB24 round-trips red, green and blue; its alpha is absent and decodes as 0. */
  lemma Rgb24RoundTrip(red: Channel, green: Channel, blue: Channel, alpha: Channel)
    ensures ShiftsInRange(FormatOf(Rgb24))
    ensures Decode(FormatOf(Rgb24), MapRgba(Rgb24, red, green, blue, alpha)) == Argb(0, red, green, blue)
  {
  }

  /** RGB32 round-trips red, green and blue and ignores the alpha argument entirely. */
  lemma Rgb32RoundTrip(red: Channel, green: Channel, blue: Channel, alpha: Channel)
    ensures ShiftsInRange(FormatOf(Rgb32))
    ensures Decode(FormatOf(Rgb32), MapRgba(Rgb32, red, green, blue, alpha)) == Argb(0, red, green, blue)
    ensures MapRgba(Rgb32, red, green, blue, alpha) == MapRgba(Rgb32, red, green, blue, 0)
  {
  }

  /** RGB16 keeps only the low five bits of each channel. */
  lemma Rgb16RoundTrip(red: Channel, green: Channel, blue: Channel, alpha: Channel)
    ensures ShiftsInRange(FormatOf(Rgb16))
    ensures Decode(FormatOf(Rgb16), MapRgba(Rgb16, red, green, blue, alpha)) == Argb(0, red & 0x1f, green & 0x1f, blue & 0x1f)
  {
  }

  /** Every ALPHA-format colour produced by `gfb_maprgba` decodes to all zeros. */
  lemma AlphaFormatMapsToZero(red: Channel, green: Channel, blue: Channel, alpha: Channel)
    ensures ShiftsInRange(FormatOf(Alpha))
    ensures Decode(FormatOf(Alpha), MapRgba(Alpha, red, green, blue, alpha)) == Argb(0, 0, 0, 0)
  {
  }
}
