/**
 * The blit engine: `gfb_soft_blit`, its six per-pixel strategies and the
 * public wrapper `gfb_blit`.
 *
 * Every strategy reads `psource->ppixels` and writes `pdest->ppixels`, the
 * front buffers. Each walks `min(w)` columns per row and, because its row
 * loop is `for (; nlines >= 0; nlines--)`, `min(h) + 1` rows. The floating
 * point blend `(uint8_t)(a * s + (1 - a) * d)` with `a = sa / 255` is the
 * parameter `blend`.
 */
module Blit {
  import opened Geometry
  import opened PixelFormats
  import opened Surfaces
  import opened Pixels
  import opened Arithmetic

  /** The six per-pixel loops, in the order `gfb_soft_blit` tries them. */
  datatype Strategy =
    | PerPixelAlpha       // gfb_alphablit
    | KeyedSurfaceAlpha   // gfb_alphacolorkeyblit
    | SurfaceAlpha        // gfb_srcalphablit
    | ColorKey            // gfb_colorkeyblit
    | Raster              // gfb_rasterblit
    | Convert             // gfb_convertblit

  /** The blend of one channel: source alpha, source value, destination value. */
  type Blend = (Channel, Channel, Channel) -> Channel

  /**
   * The decision tree of `gfb_soft_blit`. Each strategy is chosen under
   * exactly one combination of blending, per-pixel alpha in the source
   * format, colour keying and equal pixel sizes.
   */
  function SelectStrategy(src: Surface, dst: Surface): (st: Strategy)
    ensures st == PerPixelAlpha <==> Has(src.flags, ALPHABLEND) && Fmt(src).amask != 0
    ensures st == KeyedSurfaceAlpha <==>
      Has(src.flags, ALPHABLEND) && Fmt(src).amask == 0 && Has(src.flags, SRCCOLORKEY)
    ensures st == SurfaceAlpha <==>
      Has(src.flags, ALPHABLEND) && Fmt(src).amask == 0 && !Has(src.flags, SRCCOLORKEY)
    ensures st == ColorKey <==> !Has(src.flags, ALPHABLEND) && Has(src.flags, SRCCOLORKEY)
    ensures st == Raster <==>
      !Has(src.flags, ALPHABLEND) && !Has(src.flags, SRCCOLORKEY) && Bpp(dst) == Bpp(src)
    ensures st == Convert <==>
      !Has(src.flags, ALPHABLEND) && !Has(src.flags, SRCCOLORKEY) && Bpp(dst) != Bpp(src)
  {
    if Has(src.flags, ALPHABLEND) then
      if Fmt(src).amask != 0 then PerPixelAlpha
      else if Has(src.flags, SRCCOLORKEY) then KeyedSurfaceAlpha
      else SurfaceAlpha
    else if Has(src.flags, SRCCOLORKEY) then ColorKey
    else if Bpp(dst) == Bpp(src) then Raster
    else Convert
  }

  /**
   * The choice depends on nothing but the four inputs: two pairs of surfaces
   * that agree on them get the same strategy.
   */
  lemma StrategyDependsOnFourInputs(src: Surface, dst: Surface, src': Surface, dst': Surface)
    requires Has(src.flags, ALPHABLEND) == Has(src'.flags, ALPHABLEND)
    requires (Fmt(src).amask != 0) == (Fmt(src').amask != 0)
    requires Has(src.flags, SRCCOLORKEY) == Has(src'.flags, SRCCOLORKEY)
    requires (Bpp(dst) == Bpp(src)) == (Bpp(dst') == Bpp(src'))
    ensures SelectStrategy(src, dst) == SelectStrategy(src', dst')
  {
  }

  /** What one step of a strategy does to a destination pixel. */
  datatype Write = Keep | Put(value: Color)

  /** The colour-key test: the source pixel equals the key once the alpha bits are set on both sides. */
  predicate Keyed(src: Surface, c: Color)
  {
    KeyMatch(c, src.colorkey, Fmt(src).amask)
  }

  /** `(c | amask) == (key | amask)`. */
  predicate KeyMatch(c: Color, key: Color, amask: Color)
  {
    (c | amask) == (key | amask)
  }

  /** A channel of the source as `gfb_convertblit` reads it: 0 when the format has no such channel. */
  function Guarded(c: Color, mask: Color, shift: bv32): Channel
    requires shift < 32
  {
    if mask != 0 then Extract(c, mask, shift) else 0
  }

  /**
   * The body of the inner loop of each strategy, given the source pixel
   * `sc` and the destination pixel `dc` as read from memory.
   */
  function Transfer(st: Strategy, src: Surface, dst: Surface, blend: Blend, sc: Color, dc: Color): Write
  {
    var s := Decode(Fmt(src), sc);
    var d := Decode(Fmt(dst), dc);
    match st
    case PerPixelAlpha =>
      Put(MapRgba(dst.format, blend(s.a, s.r, d.r), blend(s.a, s.g, d.g), blend(s.a, s.b, d.b), d.a))
    case KeyedSurfaceAlpha =>
      if Keyed(src, sc) then Keep
      else Put(MapRgba(dst.format, blend(src.alpha, s.r, d.r), blend(src.alpha, s.g, d.g), blend(src.alpha, s.b, d.b), d.a))
    case SurfaceAlpha =>
      Put(MapRgba(dst.format, blend(src.alpha, s.r, d.r), blend(src.alpha, s.g, d.g), blend(src.alpha, s.b, d.b), d.a))
    case ColorKey =>
      if Keyed(src, sc) then Keep else Put(MapRgba(dst.format, s.r, s.g, s.b, s.a))
    case Raster =>
      Put(sc)
    case Convert =>
      var f := Fmt(src);
      Put(MapRgba(dst.format, Guarded(sc, f.rmask, f.rshift), Guarded(sc, f.gmask, f.gshift),
                  Guarded(sc, f.bmask, f.bshift), Guarded(sc, f.amask, f.ashift)))
  }

  /**
   * The two colour-key strategies skip a pixel exactly when it matches the
   * key; every other strategy writes every pixel.
   */
  lemma ColorKeySkipsExactlyKeyed(st: Strategy, src: Surface, dst: Surface, blend: Blend, sc: Color, dc: Color)
    ensures (st == ColorKey || st == KeyedSurfaceAlpha) ==>
      (Transfer(st, src, dst, blend, sc, dc).Keep? <==> Keyed(src, sc))
    ensures st != ColorKey && st != KeyedSurfaceAlpha ==> Transfer(st, src, dst, blend, sc, dc).Put?
  {
  }

  /**
   * The key test ignores the alpha bits: in a format with alpha, pixels that
   * differ only in alpha are both skipped or both written.
   */
  lemma KeyIgnoresAlphaBits(src: Surface, c: Color, a: Color)
    requires a & !Fmt(src).amask == 0
    ensures Keyed(src, c | a) <==> Keyed(src, c)
  {
    KeyMatchAbsorbs(c, a, src.colorkey, Fmt(src).amask);
  }

  /** Bits already in the mask vanish when the mask is OR-ed in. */
  lemma KeyMatchAbsorbs(c: Color, a: Color, key: Color, m: Color)
    requires a & !m == 0
    ensures KeyMatch(c | a, key, m) <==> KeyMatch(c, key, m)
  {
    assert (c | a) | m == c | m;
  }

  /**
   * The three blending strategies carry the destination pixel's alpha over
   * in every format but ALPHA: an ARGB destination pixel keeps its alpha,
   * and an RGB one has none to lose. In the ALPHA format `gfb_maprgba`
   * yields 0, so every written pixel decodes to alpha 0.
   */
  lemma BlendKeepsDestinationAlpha(st: Strategy, src: Surface, dst: Surface, blend: Blend, sc: Color, dc: Color)
    requires st == PerPixelAlpha || st == KeyedSurfaceAlpha || st == SurfaceAlpha
    ensures var w := Transfer(st, src, dst, blend, sc, dc);
      dst.format != Alpha && w.Put? ==> Decode(Fmt(dst), w.value).a == Decode(Fmt(dst), dc).a
    ensures var w := Transfer(st, src, dst, blend, sc, dc);
      dst.format == Alpha && w.Put? ==> w.value == 0 && Decode(Fmt(dst), w.value).a == 0
  {
    var s := Decode(Fmt(src), sc);
    var d := Decode(Fmt(dst), dc);
    var a := if st == PerPixelAlpha then s.a else src.alpha;
    var w := Transfer(st, src, dst, blend, sc, dc);
    if w.Put? {
      assert w.value == MapRgba(dst.format, blend(a, s.r, d.r), blend(a, s.g, d.g), blend(a, s.b, d.b), d.a);
      MappedAlpha(dst.format, blend(a, s.r, d.r), blend(a, s.g, d.g), blend(a, s.b, d.b), d.a, dc);
    }
  }

  /** The alpha a mapped colour decodes to, format by format. */
  lemma MappedAlpha(id: FormatId, red: Channel, green: Channel, blue: Channel, alpha: Channel, dc: Color)
    ensures id == Argb32 ==> Decode(FormatOf(id), MapRgba(id, red, green, blue, alpha)).a == alpha
    ensures id != Argb32 && id != Alpha ==>
      Decode(FormatOf(id), MapRgba(id, red, green, blue, alpha)).a == 0 && Decode(FormatOf(id), dc).a == 0
    ensures id == Alpha ==> MapRgba(id, red, green, blue, alpha) == 0 && Decode(FormatOf(id), 0).a == 0
  {
    match id
    case Argb32 => Argb32RoundTrip(red, green, blue, alpha);
    case Rgb16 => NoAlphaChannel(FormatOf(Rgb16), MapRgba(id, red, green, blue, alpha), dc);
    case Rgb24 => NoAlphaChannel(FormatOf(Rgb24), MapRgba(id, red, green, blue, alpha), dc);
    case Rgb32 => NoAlphaChannel(FormatOf(Rgb32), MapRgba(id, red, green, blue, alpha), dc);
    case Alpha => assert Extract(0, 0xff00_0000, 24) == 0;
  }

  /** A format without an alpha mask decodes every colour to alpha 0. */
  lemma NoAlphaChannel(f: PixelFormat, c: Color, c': Color)
    requires ShiftsInRange(f) && f.amask == 0
    ensures Decode(f, c).a == 0 && Decode(f, c').a == 0
  {
    assert c & 0 == 0 && c' & 0 == 0;
  }

  /**
   * A blend onto an ALPHA-format pixel with non-zero alpha destroys that
   * alpha: the pixel is written, as 0, unless the colour key skips it.
   */
  lemma BlendClearsAlphaFormat(st: Strategy, src: Surface, dst: Surface, blend: Blend, sc: Color, dc: Color)
    requires st == PerPixelAlpha || st == KeyedSurfaceAlpha || st == SurfaceAlpha
    requires dst.format == Alpha && Decode(Fmt(dst), dc).a != 0
    ensures var w := Transfer(st, src, dst, blend, sc, dc);
      && (st != KeyedSurfaceAlpha || !Keyed(src, sc) ==> w.Put?)
      && (w.Put? ==> w.value == 0 && Decode(Fmt(dst), w.value).a != Decode(Fmt(dst), dc).a)
  {
    BlendKeepsDestinationAlpha(st, src, dst, blend, sc, dc);
  }

  /**
   * The checks in `gfb_convertblit` on each source mask change nothing: a
   * channel a format lacks already decodes to 0, so the conversion is a
   * decode followed by the destination's encoding.
   */
  lemma ConvertIsDecodeThenEncode(src: Surface, dst: Surface, blend: Blend, sc: Color, dc: Color)
    ensures var s := Decode(Fmt(src), sc);
      Transfer(Convert, src, dst, blend, sc, dc) == Put(MapRgba(dst.format, s.r, s.g, s.b, s.a))
  {
    var f := Fmt(src);
    GuardedIsExtract(sc, f.amask, f.ashift);
    GuardedIsExtract(sc, f.rmask, f.rshift);
    GuardedIsExtract(sc, f.gmask, f.gshift);
    GuardedIsExtract(sc, f.bmask, f.bshift);
  }

  /** A channel with an empty mask extracts to 0 anyway. */
  lemma GuardedIsExtract(c: Color, mask: Color, shift: bv32)
    requires shift < 32
    ensures Guarded(c, mask, shift) == Extract(c, mask, shift)
  {
    if mask == 0 {
      assert c & mask == 0;
    }
  }

  // ---------------------------------------------------------------------
  // The row and column walk.

  /** One blit: the strategy, both surfaces, both (already clipped) rectangles and the blend. */
  datatype Job = Job(st: Strategy, src: Surface, dst: Surface, sr: Rect, dr: Rect, blend: Blend)

  /** `ncols`: the narrower of the two rectangles. */
  function Cols(job: Job): int
  {
    Mini(job.dr.w, job.sr.w)
  }

  /** `nlines` as initialised: the lower of the two rectangles. */
  function Lines(job: Job): int
  {
    Mini(job.dr.h, job.sr.h)
  }

  /** Columns the inner loop actually visits. */
  function Width(job: Job): nat
  {
    if Cols(job) < 0 then 0 else Cols(job)
  }

  /** Rows the loop `for (; nlines >= 0; nlines--)` visits: one more than `nlines`. */
  function RowsAsWritten(job: Job): nat
  {
    if Lines(job) < 0 then 0 else Lines(job) + 1
  }

  /** The slot `i` pixels right of the corner `(x, y)` in row `j` of a buffer of width `w` at `base`. */
  function At(base: int, w: int, x: int, y: int, j: int, i: int): int
  {
    base + (y + j) * w + x + i
  }

  /** Source slot read at row `j`, column `i` of the walk. */
  function SrcAt(job: Job, j: int, i: int): int
  {
    At(job.src.front, job.src.w, job.sr.x, job.sr.y, j, i)
  }

  /** Destination slot written at row `j`, column `i` of the walk. */
  function DstAt(job: Job, j: int, i: int): int
  {
    At(job.dst.front, job.dst.w, job.dr.x, job.dr.y, j, i)
  }

  /** Every slot the first `rows` rows of the walk touch lies in memory (`len` is the destination memory's length). */
  predicate Addressable(job: Job, rows: nat, len: int)
  {
    forall j, i :: 0 <= j < rows && 0 <= i < Width(job) ==>
      0 <= SrcAt(job, j, i) < |job.src.memory| && 0 <= DstAt(job, j, i) < len
  }

  /** The value the destination slot of `(j, i)` holds after its step, starting from memory `m`. */
  function Blitted(job: Job, f: PixelStep, m: seq<Color>, j: int, i: int): Color
    requires 0 <= SrcAt(job, j, i) < |job.src.memory| && 0 <= DstAt(job, j, i) < |m|
  {
    f(job.src.memory[SrcAt(job, j, i)], m[DstAt(job, j, i)])
  }

  /** What a step makes of a destination slot, from the source slot and the slot's prior contents. */
  type PixelStep = (Color, Color) -> Color

  /** The step of the job's strategy. */
  function StepOf(job: Job): PixelStep
  {
    (raw, prior) => Step(job, raw, prior)
  }

  /** One pixel step: the new contents of a destination slot holding `prior`, from a source slot holding `raw`. */
  function Step(job: Job, raw: Color, prior: Color): Color
  {
    var sc := Store(raw, Bpp(job.src));
    match Transfer(job.st, job.src, job.dst, job.blend, sc, Store(prior, Bpp(job.dst)))
    case Keep => prior
    case Put(c) => Store(c, Bpp(job.dst))
  }

  /** Columns `0 .. n-1` of row `j`, one step each, in order. */
  function RowPrefix(job: Job, f: PixelStep, m: seq<Color>, j: nat, n: nat): (r: seq<Color>)
    requires n <= Width(job) && Addressable(job, j + 1, |m|)
    ensures |r| == |m|
    decreases n
  {
    if n == 0 then m
    else
      var p := RowPrefix(job, f, m, j, n - 1);
      p[DstAt(job, j, n - 1) := Blitted(job, f, p, j, n - 1)]
  }

  /** Rows `0 .. rows-1`, each walked left to right: the reference the loops are checked against. */
  function Rows(job: Job, f: PixelStep, m: seq<Color>, rows: nat): (r: seq<Color>)
    requires Addressable(job, rows, |m|)
    ensures |r| == |m|
    decreases rows
  {
    if rows == 0 then m
    else RowPrefix(job, f, Rows(job, f, m, rows - 1), rows - 1, Width(job))
  }

  /**
   * The nested loops shared by the six strategies, run for `rows` rows over
   * the destination memory `m`. `gfb_rasterblit` moves a row with one
   * `memmove`; per pixel that is the same copy as long as the rows do
   * not overlap. The model reads the source from its own record, so a
   * source sharing memory with the destination is not modelled.
   */
  method Walk(job: Job, f: PixelStep, m: seq<Color>, rows: nat) returns (r: seq<Color>)
    requires Addressable(job, rows, |m|)
    ensures r == Rows(job, f, m, rows)
  {
    r := m;
    var j := 0;
    while j < rows
      invariant 0 <= j <= rows
      invariant r == Rows(job, f, m, j)
    {
      var i := 0;
      ghost var start := r;
      while i < Width(job)
        invariant 0 <= i <= Width(job)
        invariant |r| == |m|
        invariant r == RowPrefix(job, f, start, j, i)
      {
        var k := DstAt(job, j, i);
        r := r[k := f(job.src.memory[SrcAt(job, j, i)], r[k])];
        i := i + 1;
      }
      j := j + 1;
    }
  }

  /**
   * `gfb_soft_blit` as written: picks the strategy and walks
   * `min(h) + 1` rows of `min(w)` pixels into the destination's front
   * buffer. It always returns `GFB_OK`. A raster copy with a negative
   * column count would pass a negative size to `memmove`.
   */
  method SoftBlit(dst: Surface, dr: Rect, src: Surface, sr: Rect, blend: Blend) returns (dst': Surface, rc: ReturnCode)
    requires var job := Job(SelectStrategy(src, dst), src, dst, sr, dr, blend);
      Addressable(job, RowsAsWritten(job), |dst.memory|)
    requires SelectStrategy(src, dst) == Raster && Mini(dr.h, sr.h) >= 0 ==> Mini(dr.w, sr.w) >= 0
    ensures rc == Ok
    ensures var job := Job(SelectStrategy(src, dst), src, dst, sr, dr, blend);
      dst' == dst.(memory := Rows(job, StepOf(job), dst.memory, RowsAsWritten(job)))
  {
    var job := Job(SelectStrategy(src, dst), src, dst, sr, dr, blend);
    var m := Walk(job, StepOf(job), dst.memory, RowsAsWritten(job));
    dst' := dst.(memory := m);
    rc := Ok;
  }

  // ---------------------------------------------------------------------
  // What the walk does to each pixel.

  /** The destination slots of the first `rows` rows. */
  function Cells(job: Job, rows: nat): set<int>
  {
    set j, i | 0 <= j < rows && 0 <= i < Width(job) :: DstAt(job, j, i)
  }

  /** In a walk no wider than the destination, every slot of an earlier row precedes the start of a later row. */
  lemma RowsDisjoint(job: Job, j: int, i: int, jl: int)
    requires Width(job) <= job.dst.w
    requires j < jl && 0 <= i < Width(job)
    ensures DstAt(job, j, i) < DstAt(job, jl, 0)
  {
    var w := job.dst.w;
    assert (job.dr.y + jl) * w - (job.dr.y + j) * w == (jl - j) * w;
    MulAtLeast(jl - j, w);
  }

  /** The cells of fewer rows are among the cells of more rows. */
  lemma CellsGrow(job: Job, rows: nat, rows': nat)
    requires rows <= rows'
    ensures Cells(job, rows) <= Cells(job, rows')
  {
    forall k | k in Cells(job, rows) ensures k in Cells(job, rows') {
      var j, i :| 0 <= j < rows && 0 <= i < Width(job) && DstAt(job, j, i) == k;
    }
  }

  /** Slots of one row are consecutive. */
  lemma RowSpan(job: Job, j: int, i: int)
    ensures DstAt(job, j, i) == DstAt(job, j, 0) + i
  {
  }

  /** Within one row: the first `n` columns hold their blitted values, and no other slot changes. */
  lemma {:induction false} RowPrefixEffect(job: Job, f: PixelStep, m: seq<Color>, j: nat, n: nat)
    requires n <= Width(job) && Addressable(job, j + 1, |m|)
    ensures forall i :: 0 <= i < n ==> RowPrefix(job, f, m, j, n)[DstAt(job, j, i)] == Blitted(job, f, m, j, i)
    ensures forall k :: 0 <= k < |m| && (k < DstAt(job, j, 0) || k >= DstAt(job, j, n)) ==>
      RowPrefix(job, f, m, j, n)[k] == m[k]
    decreases n
  {
    if n > 0 {
      RowPrefixEffect(job, f, m, j, n - 1);
      var p := RowPrefix(job, f, m, j, n - 1);
      var r := RowPrefix(job, f, m, j, n);
      var kl := DstAt(job, j, n - 1);
      assert r == p[kl := Blitted(job, f, p, j, n - 1)];
      assert p[kl] == m[kl];
      assert Blitted(job, f, p, j, n - 1) == Blitted(job, f, m, j, n - 1);
      forall i | 0 <= i < n ensures r[DstAt(job, j, i)] == Blitted(job, f, m, j, i) {
        if i < n - 1 {
          assert DstAt(job, j, i) < kl;
          assert r[DstAt(job, j, i)] == p[DstAt(job, j, i)];
        }
      }
      forall k | 0 <= k < |m| && (k < DstAt(job, j, 0) || k >= DstAt(job, j, n))
        ensures r[k] == m[k]
      {
        RowSpan(job, j, n);
        RowSpan(job, j, n - 1);
        assert r[k] == p[k];
      }
    }
  }

  /**
   * A walk whose rows are no wider than the destination sets every slot it
   * visits to the strategy's result for the source pixel and the ORIGINAL
   * destination pixel there, and leaves every other slot alone.
   */
  lemma {:induction false} RowsEffect(job: Job, f: PixelStep, m: seq<Color>, rows: nat)
    requires Addressable(job, rows, |m|) && Width(job) <= job.dst.w
    ensures forall j, i :: 0 <= j < rows && 0 <= i < Width(job) ==>
      Rows(job, f, m, rows)[DstAt(job, j, i)] == Blitted(job, f, m, j, i)
    ensures forall k :: 0 <= k < |m| && k !in Cells(job, rows) ==> Rows(job, f, m, rows)[k] == m[k]
    decreases rows
  {
    if rows > 0 {
      var jl := rows - 1;
      var p := Rows(job, f, m, jl);
      RowsEffect(job, f, m, jl);
      RowPrefixEffect(job, f, p, jl, Width(job));
      var r := Rows(job, f, m, rows);
      assert r == RowPrefix(job, f, p, jl, Width(job));
      forall j', i' | 0 <= j' < jl && 0 <= i' < Width(job)
        ensures DstAt(job, j', i') < DstAt(job, jl, 0)
      {
        RowsDisjoint(job, j', i', jl);
      }
      forall j, i | 0 <= j < rows && 0 <= i < Width(job)
        ensures r[DstAt(job, j, i)] == Blitted(job, f, m, j, i)
      {
        if j == jl {
          assert DstAt(job, j, i) !in Cells(job, jl);
        }
      }
      CellsGrow(job, jl, rows);
      forall k | 0 <= k < |m| && k !in Cells(job, rows)
        ensures r[k] == m[k]
      {
        var i' := k - DstAt(job, jl, 0);
        assert 0 <= i' < Width(job) ==> DstAt(job, jl, i') in Cells(job, rows);
      }
    }
  }

  /**
   * For the colour-key strategies on a walk no wider than the destination:
   * a visited pixel keeps its value when the source pixel matches the key,
   * and receives the stored blended or converted colour otherwise.
   */
  lemma ColorKeyBlit(job: Job, m: seq<Color>, rows: nat, j: int, i: int)
    requires job.st == ColorKey || job.st == KeyedSurfaceAlpha
    requires Addressable(job, rows, |m|) && Width(job) <= job.dst.w
    requires 0 <= j < rows && 0 <= i < Width(job)
    ensures var sc := Load(job.src.memory, SrcAt(job, j, i), Bpp(job.src));
      var k := DstAt(job, j, i);
      var w := Transfer(job.st, job.src, job.dst, job.blend, sc, Load(m, k, Bpp(job.dst)));
      && (Keyed(job.src, sc) ==> Rows(job, StepOf(job), m, rows)[k] == m[k])
      && (!Keyed(job.src, sc) ==> w.Put? && Rows(job, StepOf(job), m, rows)[k] == Store(w.value, Bpp(job.dst)))
  {
    RowsEffect(job, StepOf(job), m, rows);
    var k := DstAt(job, j, i);
    StepKeyed(job, job.src.memory[SrcAt(job, j, i)], m[k]);
  }

  /** One step of a colour-key strategy: the prior contents when the source matches the key, the stored colour otherwise. */
  lemma StepKeyed(job: Job, raw: Color, prior: Color)
    requires job.st == ColorKey || job.st == KeyedSurfaceAlpha
    ensures var sc := Store(raw, Bpp(job.src));
      var w := Transfer(job.st, job.src, job.dst, job.blend, sc, Store(prior, Bpp(job.dst)));
      && (Keyed(job.src, sc) ==> StepOf(job)(raw, prior) == prior)
      && (!Keyed(job.src, sc) ==> w.Put? && StepOf(job)(raw, prior) == Store(w.value, Bpp(job.dst)))
  {
    var sc := Store(raw, Bpp(job.src));
    var w := Transfer(job.st, job.src, job.dst, job.blend, sc, Store(prior, Bpp(job.dst)));
    ColorKeySkipsExactlyKeyed(job.st, job.src, job.dst, job.blend, sc, Store(prior, Bpp(job.dst)));
    assert StepOf(job)(raw, prior) == Step(job, raw, prior);
    assert Step(job, raw, prior) == if w.Keep? then prior else Store(w.value, Bpp(job.dst));
  }

  // ---------------------------------------------------------------------
  // The extra row.

  /** Rows the copy evidently means to visit: `min(h)`, as many as both rectangles have. */
  function RowsIntended(job: Job): nat
  {
    if Lines(job) < 0 then 0 else Lines(job)
  }

  /** A rectangle lies within the `w` by `h` pixels of a surface. */
  predicate RectOnSurface(r: Rect, s: Surface)
  {
    0 <= r.x && 0 <= r.y && r.x + r.w <= s.w && r.y + r.h <= s.h
  }

  /** A pixel inside a `w` by `h` buffer has its slot inside the buffer. */
  lemma PixelInBuffer(base: int, w: int, h: int, x: int, y: int)
    requires 0 <= x < w && 0 <= y < h
    ensures base <= base + y * w + x < base + w * h
  {
    MulMono(y + 1, h, w);
    MulMono(0, y, w);
  }

  /**
   * With both rectangles inside their surfaces, `min(h)` rows touch only
   * pixels of the two front buffers.
   */
  lemma IntendedRowsStayInBuffers(job: Job)
    requires Wf(job.src) && Wf(job.dst)
    requires RectOnSurface(job.sr, job.src) && RectOnSurface(job.dr, job.dst)
    ensures forall j, i :: 0 <= j < RowsIntended(job) && 0 <= i < Width(job) ==>
      job.src.front <= SrcAt(job, j, i) < job.src.front + job.src.w * job.src.h &&
      job.dst.front <= DstAt(job, j, i) < job.dst.front + job.dst.w * job.dst.h
    ensures Addressable(job, RowsIntended(job), |job.dst.memory|)
  {
    forall j, i | 0 <= j < RowsIntended(job) && 0 <= i < Width(job)
      ensures job.src.front <= SrcAt(job, j, i) < job.src.front + job.src.w * job.src.h
      ensures job.dst.front <= DstAt(job, j, i) < job.dst.front + job.dst.w * job.dst.h
    {
      PixelInBuffer(job.src.front, job.src.w, job.src.h, job.sr.x + i, job.sr.y + j);
      PixelInBuffer(job.dst.front, job.dst.w, job.dst.h, job.dr.x + i, job.dr.y + j);
    }
  }

  /**
   * `gfb_soft_blit` as the header promises it: `min(h)` rows of `min(w)`
   * pixels, the strategy chosen as in the source.
   */
  method SoftBlitIntended(dst: Surface, dr: Rect, src: Surface, sr: Rect, blend: Blend) returns (dst': Surface, rc: ReturnCode)
    requires Wf(src) && Wf(dst) && RectOnSurface(sr, src) && RectOnSurface(dr, dst)
    ensures rc == Ok
    ensures var job := Job(SelectStrategy(src, dst), src, dst, sr, dr, blend);
      && Addressable(job, RowsIntended(job), |dst.memory|)
      && dst' == dst.(memory := Rows(job, StepOf(job), dst.memory, RowsIntended(job)))
  {
    var job := Job(SelectStrategy(src, dst), src, dst, sr, dr, blend);
    IntendedRowsStayInBuffers(job);
    var m := Walk(job, StepOf(job), dst.memory, RowsIntended(job));
    dst' := dst.(memory := m);
    rc := Ok;
  }

  /**
   * As written, the row loop overruns: copying a whole single-buffered
   * surface onto another of the same size (both rectangles NULL, so both
   * default to the full clip) visits row `h`, whose first slot is just past
   * the destination's pixel memory.
   */
  lemma WholeSurfaceBlitOverruns(dst: Surface, src: Surface, blend: Blend)
    requires Wf(dst) && Wf(src) && dst.w == src.w >= 1 && dst.h == src.h >= 1
    requires dst.clip == Rect(0, 0, dst.w, dst.h) && src.clip == Rect(0, 0, src.w, src.h)
    requires dst.front == 0 && |dst.memory| == dst.w * dst.h
    ensures var job := Job(SelectStrategy(src, dst), src, dst,
                           ClipRect(src.clip, src.clip), ClipRect(dst.clip, dst.clip), blend);
      && RowsAsWritten(job) == dst.h + 1 && RowsIntended(job) == dst.h
      && DstAt(job, dst.h, 0) == |dst.memory|
      && !Addressable(job, RowsAsWritten(job), |dst.memory|)
  {
    var job := Job(SelectStrategy(src, dst), src, dst,
                   ClipRect(src.clip, src.clip), ClipRect(dst.clip, dst.clip), blend);
    assert job.dr == dst.clip && job.sr == src.clip;
    assert DstAt(job, dst.h, 0) == dst.h * dst.w;
  }

  // ---------------------------------------------------------------------
  // The public wrapper.

  /**
   * `gfb_blit`: refuses a NULL surface; a NULL rectangle defaults to the
   * surface's clip rectangle; both rectangles are clipped with
   * `gfb_cliprect` against their surface's clip; the destination's table
   * routine does the copy.
   */
  method GfbBlit(hdst: Option<Surface>, dr: Option<Rect>, hsrc: Option<Surface>, sr: Option<Rect>, blend: Blend)
    returns (o: Outcome)
    requires hdst.Some? && hsrc.Some? && hdst.value.ops.blit == Soft ==>
      var d := ClipRect(if dr.Some? then dr.value else hdst.value.clip, hdst.value.clip);
      var s := ClipRect(if sr.Some? then sr.value else hsrc.value.clip, hsrc.value.clip);
      var job := Job(SelectStrategy(hsrc.value, hdst.value), hsrc.value, hdst.value, s, d, blend);
      && Addressable(job, RowsAsWritten(job), |hdst.value.memory|)
      && (job.st == Raster && Lines(job) >= 0 ==> Cols(job) >= 0)
    ensures hdst.None? || hsrc.None? ==> o == Done(hdst, EArgument)
    ensures hdst.Some? && hsrc.Some? && hdst.value.ops.blit == Device ==> o == Delegated
    ensures hdst.Some? && hsrc.Some? && hdst.value.ops.blit == Soft ==>
      var d := ClipRect(if dr.Some? then dr.value else hdst.value.clip, hdst.value.clip);
      var s := ClipRect(if sr.Some? then sr.value else hsrc.value.clip, hsrc.value.clip);
      var job := Job(SelectStrategy(hsrc.value, hdst.value), hsrc.value, hdst.value, s, d, blend);
      o == Done(Some(hdst.value.(memory := Rows(job, StepOf(job), hdst.value.memory, RowsAsWritten(job)))), Ok)
  {
    if hdst.None? || hsrc.None? {
      return Done(hdst, EArgument);
    }
    var dst, src := hdst.value, hsrc.value;
    var d := if dr.Some? then dr.value else dst.clip;
    var s := if sr.Some? then sr.value else src.clip;
    s := ClipRect(s, src.clip);
    d := ClipRect(d, dst.clip);
    if dst.ops.blit == Device {
      return Delegated;
    }
    var dst', rc := SoftBlit(dst, d, src, s, blend);
    return Done(Some(dst'), rc);
  }
}
