/**
 * Surfaces and their operation table: `gfb_surface_t`, `gfb_devop_t`, the
 * flag and return-code enumerations, `gfb_surface_create`,
 * `gfb_surface_destroy`, the setters `gfb_setcliprect`, `gfb_setalpha`,
 * `gfb_setcolorkey`, `gfb_maprgba` on a surface, and flipping.
 *
 * Pixel memory is modelled per pixel slot: `memory` is the whole block that
 * `ppixelmemory` points to, and `front` / `back` are the slot offsets of
 * `ppixels` / `pbuffer` inside it (byte offset divided by bytes-per-pixel).
 */
module Surfaces {
  import opened Geometry
  import opened PixelFormats

  /** An optional value, the model of a pointer that may be NULL. */
  datatype Option<T> = None | Some(value: T)

  /** `gfb_return_t`. */
  datatype ReturnCode = Ok | Error | EArgument | ENoMem | ENotSupported | EFileOpen | EFileRead | EFileWrite

  /** The integer value of each return code. */
  function Code(rc: ReturnCode): int
  {
    match rc
    case Ok => 0
    case Error => -1
    case EArgument => -2
    case ENoMem => -3
    case ENotSupported => -4
    case EFileOpen => -5
    case EFileRead => -6
    case EFileWrite => -7
  }

  /** Distinct return codes have distinct values; only `Ok` is non-negative. */
  lemma CodesDistinct(a: ReturnCode, b: ReturnCode)
    ensures Code(a) == Code(b) <==> a == b
    ensures Code(a) >= 0 <==> a == Ok
  {
  }

  /** `gfb_flag_id_t`: control flags, one bit each. */
  type Flags = bv32
  const ALPHABLEND: Flags := 1
  const SRCCOLORKEY: Flags := 2
  const PREALLOCATE: Flags := 4
  const DOUBLEBUFFER: Flags := 8

  /** `flags & f` in a C condition. */
  predicate Has(flags: Flags, f: Flags)
  {
    flags & f != 0
  }

  /** Which routine a slot of the operation table points to. */
  datatype Routine =
    | Soft    // the `gfb_soft_*` routine of this library
    | Device  // a routine supplied by the caller's backend, outside the model

  /** `gfb_devop_t`: one routine per primitive. */
  datatype DevOps = DevOps(
    putpixel: Routine, getpixel: Routine, blit: Routine, flip: Routine,
    clear: Routine, line: Routine, rectangle: Routine, circle: Routine,
    filledRectangle: Routine, filledCircle: Routine, polygon: Routine,
    floodFill: Routine, text: Routine)

  /** `gfb_soft_devops`: every slot bound to the software routine. */
  const SoftDevOps: DevOps :=
    DevOps(Soft, Soft, Soft, Soft, Soft, Soft, Soft, Soft, Soft, Soft, Soft, Soft, Soft)

  /** `gfb_surface_t` (the unused `refcount` is omitted). */
  datatype Surface = Surface(
    flags: Flags,
    colorkey: Color,
    clip: Rect,
    format: FormatId,
    w: int,
    h: int,
    pitch: int,
    alpha: Channel,
    ops: DevOps,
    memory: seq<Color>,
    front: int,
    back: int,
    rowOffsets: seq<int>,
    colOffsets: seq<int>)

  /** The surface's row of the format table (`psurface->pformat`). */
  function Fmt(s: Surface): PixelFormat
  {
    FormatOf(s.format)
  }

  /** `psurface->pformat->bytesperpixel`. */
  function Bpp(s: Surface): nat
  {
    FormatOf(s.format).bytesPerPixel
  }

  /**
   * What `gfb_surface_create` establishes and nothing else changes: the
   * pitch and both offset tables match the width, and both buffers of
   * `w * h` pixels lie inside the pixel memory.
   */
  predicate Wf(s: Surface)
  {
    && s.w >= 0 && s.h >= 0
    && s.pitch == s.w * Bpp(s)
    && |s.rowOffsets| == s.h && |s.colOffsets| == s.w
    && (forall i :: 0 <= i < s.h ==> s.rowOffsets[i] == s.pitch * i)
    && (forall i :: 0 <= i < s.w ==> s.colOffsets[i] == Bpp(s) * i)
    && 0 <= s.front && s.front + s.w * s.h <= |s.memory|
    && 0 <= s.back && s.back + s.w * s.h <= |s.memory|
  }

  /** `(x, y)` lies in the clip rectangle, half-open as `gfb_putpixel` tests it. */
  predicate InClip(s: Surface, x: int, y: int)
  {
    InRect(s.clip, x, y)
  }

  /** `(x, y)` is a pixel of the surface: both offset tables have an entry for it. */
  predicate OnSurface(s: Surface, x: int, y: int)
  {
    0 <= x < s.w && 0 <= y < s.h
  }

  /** The slot of pixel `(x, y)` in the buffer that starts at slot `base`. */
  function Slot(s: Surface, base: int, x: int, y: int): int
  {
    base + y * s.w + x
  }

  // ---------------------------------------------------------------------
  // Creation and destruction.

  /** The `gfb_surface_t **` argument: NULL, or the caller's handle variable with its current value. */
  datatype HandleRef = NullRef | Ref(target: Option<Surface>)

  /** Number of pixel slots of the memory `gfb_surface_create` uses: one buffer, or two when double-buffered. */
  function BlockPixels(width: int, height: int, flags: Flags): int
  {
    if Has(flags, DOUBLEBUFFER) then 2 * (width * height) else width * height
  }

  /** The loops filling `prowoffsets` / `pcoloffsets`: entry `i` is `step * i`. */
  method BuildOffsets(n: int, step: int) returns (offs: seq<int>)
    ensures |offs| == Maxi(n, 0)
    ensures forall i :: 0 <= i < |offs| ==> offs[i] == step * i
  {
    offs := [];
    var i := 0;
    while i < n
      invariant 0 <= i && |offs| == i
      invariant i <= Maxi(n, 0)
      invariant forall k :: 0 <= k < i ==> offs[k] == step * k
    {
      offs := offs + [step * i];
      i := i + 1;
    }
  }

  /**
   * `gfb_surface_create`. Argument errors leave the caller's handle as it
   * was. `pixels` is the caller's buffer (NULL is `None`); `devops` the
   * caller's operation table. Allocation failure is not modelled.
   */
  method Create(pp: HandleRef, width: int, height: int, format: FormatId, flags: Flags,
                pixels: Option<seq<Color>>, devops: Option<DevOps>)
    returns (pp': HandleRef, rc: ReturnCode)
    ensures rc == Ok || rc == EArgument
    ensures rc == EArgument <==>
      pp.NullRef? || width < 0 || height < 0 || (!Has(flags, PREALLOCATE) && pixels.None?)
    ensures rc == EArgument ==> pp' == pp
    ensures rc == Ok ==> pp'.Ref? && pp'.target.Some?
    ensures rc == Ok ==>
      var s := pp'.target.value;
      && s.clip == Rect(0, 0, width, height)
      && s.w == width && s.h == height && s.format == format && s.flags == flags
      && s.pitch == width * FormatOf(format).bytesPerPixel
      && |s.rowOffsets| == height && |s.colOffsets| == width
      && (forall i :: 0 <= i < height ==> s.rowOffsets[i] == s.pitch * i)
      && (forall i :: 0 <= i < width ==> s.colOffsets[i] == FormatOf(format).bytesPerPixel * i)
      && s.front == 0
      && s.back == (if Has(flags, DOUBLEBUFFER) then width * height else 0)
      && s.ops == (if devops.Some? then devops.value else SoftDevOps)
      && s.alpha == 0 && s.colorkey == 0
      && (Has(flags, PREALLOCATE) ==>
            |s.memory| == BlockPixels(width, height, flags) && forall k :: 0 <= k < |s.memory| ==> s.memory[k] == 0)
      && (!Has(flags, PREALLOCATE) ==> s.memory == pixels.value)
    ensures rc == Ok && (Has(flags, PREALLOCATE) || |pixels.value| >= BlockPixels(width, height, flags)) ==>
      Wf(pp'.target.value)
  {
    if pp.NullRef? || width < 0 || height < 0 {
      return pp, EArgument;
    }
    if !Has(flags, PREALLOCATE) && pixels.None? {
      return pp, EArgument;
    }
    var bpp := FormatOf(format).bytesPerPixel;
    var memory: seq<Color>;
    var back: int;
    if Has(flags, PREALLOCATE) {
      memory := seq(BlockPixels(width, height, flags), _ => 0);
    } else {
      memory := pixels.value;
    }
    if Has(flags, DOUBLEBUFFER) {
      back := width * height;
    } else {
      back := 0;
    }
    var pitch := width * bpp;
    var rows := BuildOffsets(height, pitch);
    var cols := BuildOffsets(width, bpp);
    var ops := if devops.Some? then devops.value else SoftDevOps;
    var s := Surface(flags, 0, Rect(0, 0, width, height), format, width, height, pitch, 0,
                     ops, memory, 0, back, rows, cols);
    pp' := Ref(Some(s));
    rc := Ok;
  }

  /** What `gfb_surface_destroy` hands back to the allocator. */
  datatype Released = Released(pixelMemory: bool, offsetTables: bool, descriptor: bool)

  /**
   * `gfb_surface_destroy`: always leaves the caller's handle NULL (a NULL
   * `ppsurface` stays NULL); frees the pixel memory only when the surface
   * allocated it itself. The `gfb_surface_t` record itself is never freed.
   */
  function Destroy(pp: HandleRef): (r: (HandleRef, Released))
    ensures pp.Ref? ==> r.0 == Ref(None)
    ensures pp.NullRef? ==> r.0 == NullRef
    ensures r.1.pixelMemory <==> pp.Ref? && pp.target.Some? && Has(pp.target.value.flags, PREALLOCATE)
    ensures r.1.offsetTables <==> pp.Ref? && pp.target.Some?
    ensures !r.1.descriptor
  {
    match pp
    case NullRef => (NullRef, Released(false, false, false))
    case Ref(None) => (Ref(None), Released(false, false, false))
    case Ref(Some(s)) => (Ref(None), Released(Has(s.flags, PREALLOCATE), true, false))
  }

  /** Destroying twice releases nothing the second time. */
  lemma DestroyIdempotent(pp: HandleRef)
    ensures Destroy(Destroy(pp).0).0 == Destroy(pp).0
    ensures Destroy(Destroy(pp).0).1 == Released(false, false, false)
  {
  }

  // ---------------------------------------------------------------------
  // Setters.

  /**
   * `gfb_setcliprect`: NULL resets the clip to the whole surface; any
   * other rectangle is copied verbatim, without clamping.
   */
  function SetClipRect(h: Option<Surface>, r: Option<Rect>): (res: (Option<Surface>, ReturnCode))
    ensures h.None? ==> res == (None, EArgument)
    ensures h.Some? ==> res.1 == Ok && res.0.Some?
    ensures h.Some? ==> res.0.value == h.value.(clip := res.0.value.clip)
    ensures h.Some? && r.None? ==> res.0.value.clip == Rect(0, 0, h.value.w, h.value.h)
    ensures h.Some? && r.Some? ==> res.0.value.clip == r.value
  {
    match h
    case None => (None, EArgument)
    case Some(s) =>
      match r
      case None => (Some(s.(clip := Rect(0, 0, s.w, s.h))), Ok)
      case Some(rect) => (Some(s.(clip := rect)), Ok)
  }

  /** The clip rectangle lies inside the surface. */
  predicate ClipInside(s: Surface)
  {
    0 <= s.clip.x && 0 <= s.clip.y && 0 <= s.clip.w && 0 <= s.clip.h
    && Right(s.clip) <= s.w && Bottom(s.clip) <= s.h
  }

  /** Resetting the clip always yields a clip inside the surface, and nothing else changes. */
  lemma ResetClipInside(s: Surface)
    requires Wf(s)
    ensures ClipInside(SetClipRect(Some(s), None).0.value)
    ensures Wf(SetClipRect(Some(s), None).0.value)
  {
  }

  /**
   * A rectangle passed to `gfb_setcliprect` is not clamped: a clip larger
   * than the surface is accepted as it is.
   */
  lemma SetClipRectDoesNotClamp(s: Surface)
    requires Wf(s)
    ensures var s' := SetClipRect(Some(s), Some(Rect(-1, -1, s.w + 2, s.h + 2))).0.value;
      !ClipInside(s') && InClip(s', -1, -1) && !OnSurface(s', -1, -1)
  {
  }

  /** The three other flag bits. */
  function Others(flags: Flags, f: Flags): Flags
  {
    flags & (0xF & !f)
  }

  /** `gfb_setalpha`: stores the alpha value and switches blending on. */
  function SetAlpha(h: Option<Surface>, alpha: Channel): (res: (Option<Surface>, ReturnCode))
    ensures h.None? ==> res == (None, EArgument)
    ensures h.Some? ==> res.1 == Ok && res.0.Some?
    ensures h.Some? ==> res.0.value.alpha == alpha && Has(res.0.value.flags, ALPHABLEND)
    ensures h.Some? ==> Others(res.0.value.flags, ALPHABLEND) == Others(h.value.flags, ALPHABLEND)
    ensures h.Some? ==> res.0.value == h.value.(alpha := alpha, flags := res.0.value.flags)
  {
    match h
    case None => (None, EArgument)
    case Some(s) => (Some(s.(alpha := alpha, flags := s.flags | ALPHABLEND)), Ok)
  }

  /** `gfb_setcolorkey`: stores the colour key and switches colour keying on. */
  function SetColorKey(h: Option<Surface>, key: Color): (res: (Option<Surface>, ReturnCode))
    ensures h.None? ==> res == (None, EArgument)
    ensures h.Some? ==> res.1 == Ok && res.0.Some?
    ensures h.Some? ==> res.0.value.colorkey == key && Has(res.0.value.flags, SRCCOLORKEY)
    ensures h.Some? ==> Others(res.0.value.flags, SRCCOLORKEY) == Others(h.value.flags, SRCCOLORKEY)
    ensures h.Some? ==> res.0.value == h.value.(colorkey := key, flags := res.0.value.flags)
  {
    match h
    case None => (None, EArgument)
    case Some(s) => (Some(s.(colorkey := key, flags := s.flags | SRCCOLORKEY)), Ok)
  }

  /** The four flags are distinct single bits. */
  lemma FlagsDistinct()
    ensures ALPHABLEND & SRCCOLORKEY == 0 && ALPHABLEND & PREALLOCATE == 0 && ALPHABLEND & DOUBLEBUFFER == 0
    ensures SRCCOLORKEY & PREALLOCATE == 0 && SRCCOLORKEY & DOUBLEBUFFER == 0 && PREALLOCATE & DOUBLEBUFFER == 0
  {
  }

  /** Setting alpha then the colour key turns on both, leaving allocation flags as created. */
  lemma SettersCommute(s: Surface, alpha: Channel, key: Color)
    ensures var t := SetColorKey(SetAlpha(Some(s), alpha).0, key).0.value;
      Has(t.flags, ALPHABLEND) && Has(t.flags, SRCCOLORKEY)
      && (Has(t.flags, PREALLOCATE) <==> Has(s.flags, PREALLOCATE))
      && (Has(t.flags, DOUBLEBUFFER) <==> Has(s.flags, DOUBLEBUFFER))
  {
  }

  /** `gfb_maprgba`: NULL yields `GFB_EARGUMENT` cast to `gfb_color_t`. */
  function MapRgbaOn(h: Option<Surface>, red: Channel, green: Channel, blue: Channel, alpha: Channel): (c: Color)
    ensures h.None? ==> c == 0xFFFF_FFFE
    ensures h.Some? ==> c == MapRgba(h.value.format, red, green, blue, alpha)
  {
    match h
    case None => 0xFFFF_FFFE
    case Some(s) => MapRgba(s.format, red, green, blue, alpha)
  }

  // ---------------------------------------------------------------------
  // Flipping.

  /** Result of a public entry point: its effect, or a hand-off to a device routine. */
  datatype Outcome =
    | Done(surface: Option<Surface>, rc: ReturnCode)
    | Delegated  // the slot binds a device routine; its effect is outside the model

  /**
   * `gfb_soft_flip`: swaps `ppixels` and `pbuffer`. It does not look at
   * `GFB_DOUBLEBUFFER`: on a single-buffered surface both point at the same
   * slot and the swap changes nothing.
   */
  function SoftFlip(s: Surface): (r: (Surface, ReturnCode))
    ensures r.1 == Ok
    ensures r.0.front == s.back && r.0.back == s.front
    ensures r.0 == s.(front := r.0.front, back := r.0.back)
  {
    (s.(front := s.back, back := s.front), Ok)
  }

  /** Flipping twice restores both pointers, and flipping keeps both inside the memory. */
  lemma FlipInvolution(s: Surface)
    ensures SoftFlip(SoftFlip(s).0).0 == s
    ensures Wf(s) ==> Wf(SoftFlip(s).0)
    ensures s.front == s.back ==> SoftFlip(s).0 == s
  {
  }

  /**
   * `gfb_flip`: a NULL surface is refused (the buffer pointers of a live
   * surface are never NULL); otherwise the call goes through the table.
   */
  function Flip(h: Option<Surface>): (o: Outcome)
    ensures h.None? ==> o == Done(None, EArgument)
    ensures h.Some? && h.value.ops.flip == Soft ==> o == Done(Some(SoftFlip(h.value).0), Ok)
    ensures h.Some? && h.value.ops.flip == Device ==> o == Delegated
  {
    match h
    case None => Done(None, EArgument)
    case Some(s) =>
      if s.ops.flip == Soft then
        var (s', rc) := SoftFlip(s);
        Done(Some(s'), rc)
      else
        Delegated
  }
}
