/**
 * Area operations: `gfb_soft_filledrectangle` (paint the first row, then
 * copy it over the rows below), `gfb_soft_clear`, the flood fill that is
 * not implemented, and their public entry points.
 *
 * Memory is one slot per pixel as elsewhere in the model; the byte
 * offsets of the source divided by the pixel size are slot offsets.
 */
module Fills {
  import opened Geometry
  import opened PixelFormats
  import opened Surfaces
  import opened Arithmetic
  import Blit

  // ---------------------------------------------------------------------
  // Rows of slots.

  /** First slot of row `j` of a block whose first row starts at `start`, rows `w` slots apart. */
  function RowStart(start: int, w: int, j: int): int
  {
    start + j * w
  }

  /** Slot `k` lies in one of the first `n` rows of `p` slots of the block. */
  predicate InRows(k: int, start: int, w: int, p: int, n: int)
  {
    exists j :: 0 <= j < n && RowStart(start, w, j) <= k < RowStart(start, w, j) + p
  }

  /** Every slot of the first `n` rows of `p` slots lies in a memory of `size` slots. */
  predicate RowsAddressable(start: int, w: int, p: int, n: int, size: int)
  {
    forall j :: 0 <= j < n ==> p <= 0 || (0 <= RowStart(start, w, j) && RowStart(start, w, j) + p <= size)
  }

  /** One row is the interval of `p` slots from `start`. */
  lemma RowsOne(start: int, w: int, p: int)
    ensures forall k :: InRows(k, start, w, p, 1) <==> start <= k < start + p
  {
    assert RowStart(start, w, 0) == start;
  }

  /** Adding row `n` adds exactly its interval. */
  lemma RowsNext(start: int, w: int, p: int, n: int)
    requires n >= 0
    ensures forall k :: InRows(k, start, w, p, n + 1) <==>
      InRows(k, start, w, p, n) || RowStart(start, w, n) <= k < RowStart(start, w, n) + p
  {
  }

  /**
   * The two loops of `gfb_soft_filledrectangle`: store `v` in the `p`
   * slots from `start`, then `memcpy` that row onto each of the `n` rows
   * below it. The copies must not overlap and must not have a negative
   * size once there is a row to copy.
   */
  method PaintRows(mem: seq<Color>, start: int, w: int, p: int, n: int, v: Color) returns (m: seq<Color>)
    requires n >= 1 ==> 0 <= p <= w
    requires RowsAddressable(start, w, p, Maxi(n, 0) + 1, |mem|)
    ensures |m| == |mem|
    ensures forall k :: 0 <= k < |m| ==> m[k] == if InRows(k, start, w, p, Maxi(n, 0) + 1) then v else mem[k]
  {
    m := mem;
    assert RowStart(start, w, 0) == start;
    var t := 0;
    while t < p
      invariant 0 <= t <= Maxi(p, 0)
      invariant |m| == |mem|
      invariant forall k :: 0 <= k < |m| ==> m[k] == if start <= k < start + t then v else mem[k]
    {
      m := m[start + t := v];
      t := t + 1;
    }
    RowsOne(start, w, p);
    var j := 0;
    while j < n
      invariant 0 <= j <= Maxi(n, 0)
      invariant |m| == |mem|
      invariant forall k :: 0 <= k < |m| ==> m[k] == if InRows(k, start, w, p, j + 1) then v else mem[k]
    {
      var dst := RowStart(start, w, j + 1);
      t := 0;
      while t < p
        invariant 0 <= t <= p
        invariant |m| == |mem|
        invariant forall k :: 0 <= k < |m| ==>
          m[k] == if InRows(k, start, w, p, j + 1) || dst <= k < dst + t then v else mem[k]
      {
        assert InRows(start + t, start, w, p, j + 1) by {
          assert RowStart(start, w, 0) <= start + t < RowStart(start, w, 0) + p;
        }
        m := m[dst + t := m[start + t]];
        t := t + 1;
      }
      RowsNext(start, w, p, j + 1);
      j := j + 1;
    }
  }

  /** A pixel of the `p` by `n` block from pixel `(x0, y0)` has its slot in the block's rows. */
  lemma PixelInRows(s: Surface, x0: int, y0: int, p: int, n: int, px: int, py: int)
    requires x0 <= px < x0 + p && y0 <= py < y0 + n
    ensures InRows(Slot(s, s.back, px, py), Slot(s, s.back, x0, y0), s.w, p, n)
  {
    var j := py - y0;
    assert RowStart(Slot(s, s.back, x0, y0), s.w, j) == s.back + py * s.w + x0 by {
      assert j * s.w + y0 * s.w == py * s.w;
    }
  }

  /**
   * Inside a surface, and when the rows fit across it, the slot of pixel
   * `(px, py)` lies in the `n` rows of `p` slots from pixel `(x0, y0)`
   * exactly when the pixel lies in the `p` by `n` block of pixels there.
   */
  lemma RowsArePixels(s: Surface, x0: int, y0: int, p: int, n: int, px: int, py: int)
    requires OnSurface(s, px, py)
    requires 0 <= x0 && 0 <= p && x0 + p <= s.w
    ensures InRows(Slot(s, s.back, px, py), Slot(s, s.back, x0, y0), s.w, p, n) <==>
      x0 <= px < x0 + p && y0 <= py < y0 + n
  {
    if x0 <= px < x0 + p && y0 <= py < y0 + n {
      PixelInRows(s, x0, y0, p, n, px, py);
    }
    if InRows(Slot(s, s.back, px, py), Slot(s, s.back, x0, y0), s.w, p, n) {
      var j := RowOf(s, x0, y0, p, n, px, py);
      RowIsPixelRow(s.w, x0, p, y0 + j, px, py);
    }
  }

  /** A witness row for a slot in the rows, relative to the pixel's own row. */
  lemma RowOf(s: Surface, x0: int, y0: int, p: int, n: int, px: int, py: int) returns (j: int)
    requires InRows(Slot(s, s.back, px, py), Slot(s, s.back, x0, y0), s.w, p, n)
    ensures 0 <= j < n
    ensures (y0 + j) * s.w + x0 <= py * s.w + px < (y0 + j) * s.w + x0 + p
  {
    var start := Slot(s, s.back, x0, y0);
    j :| 0 <= j < n && RowStart(start, s.w, j) <= Slot(s, s.back, px, py) < RowStart(start, s.w, j) + p;
    assert j * s.w + y0 * s.w == (y0 + j) * s.w;
  }

  /** Within rows `w` wide, a slot of row `q` between columns `x0` and `x0 + p` is the pixel `(px, py)` only if `py == q`. */
  lemma RowIsPixelRow(w: int, x0: int, p: int, q: int, px: int, py: int)
    requires 0 <= px < w && 0 <= x0 && x0 + p <= w
    requires q * w + x0 <= py * w + px < q * w + x0 + p
    ensures py == q && x0 <= px < x0 + p
  {
    DivUnique(py * w + px, w, py, px);
    DivUnique(py * w + px, w, q, py * w + px - q * w);
  }

  // ---------------------------------------------------------------------
  // gfb_soft_filledrectangle as written.

  /** Slot of the rectangle's first pixel in `pbuffer` (`idx1` over the pixel size). */
  function Corner(s: Surface, r: Rect): int
  {
    Slot(s, s.back, r.x, r.y)
  }

  /** `pixcount`: pixels the source paints per row, one more than the width. */
  function RowPixels(r: Rect): int
  {
    ((r.x + r.w) - r.x) + 1
  }

  /** Slot `k` is one the source writes for `r`: `r.h + 1` rows of `r.w + 1` pixels. */
  predicate Filled(s: Surface, r: Rect, k: int)
  {
    InRows(k, Corner(s, r), s.w, RowPixels(r), Maxi(r.h, 0) + 1)
  }

  /**
   * What the two loops need to stay defined: the row copies neither overlap
   * nor have a negative size, and every slot written is in the pixel memory.
   */
  predicate FillSafe(s: Surface, r: Rect)
  {
    && (r.h >= 1 ==> 0 <= RowPixels(r) <= s.w)
    && RowsAddressable(Corner(s, r), s.w, RowPixels(r), Maxi(r.h, 0) + 1, |s.memory|)
  }

  /**
   * `gfb_soft_filledrectangle`: every slot of the `r.w + 1` by `r.h + 1`
   * block from `(r.x, r.y)` in `pbuffer` receives the low bytes of the
   * colour; no other slot changes. It always reports `GFB_OK`.
   */
  method SoftFilledRectangle(s: Surface, r: Rect, c: Color) returns (s': Surface, rc: ReturnCode)
    requires Wf(s) && FillSafe(s, r)
    ensures rc == Ok && Wf(s')
    ensures s' == s.(memory := s'.memory) && |s'.memory| == |s.memory|
    ensures forall k :: 0 <= k < |s.memory| ==>
      s'.memory[k] == if Filled(s, r, k) then Store(c, Bpp(s)) else s.memory[k]
  {
    var m := PaintRows(s.memory, Corner(s, r), s.w, RowPixels(r), r.h, Store(c, Bpp(s)));
    s' := s.(memory := m);
    rc := Ok;
  }

  /**
   * In pixels: when the painted rows fit across the surface, the pixels
   * written are those with `r.x <= x <= r.x + r.w` and
   * `r.y <= y <= r.y + r.h`, both ends included.
   */
  lemma FilledPixels(s: Surface, r: Rect, px: int, py: int)
    requires Wf(s) && OnSurface(s, px, py)
    requires 0 <= r.x && -1 <= r.w && r.x + r.w < s.w
    ensures Filled(s, r, Slot(s, s.back, px, py)) <==>
      r.x <= px <= r.x + r.w && r.y <= py <= r.y + Maxi(r.h, 0)
  {
    RowsArePixels(s, r.x, r.y, RowPixels(r), Maxi(r.h, 0) + 1, px, py);
  }

  /**
   * As written, filling the whole surface overruns: with the rectangle
   * equal to the full clip (what `gfb_filledrectangle` uses for a NULL
   * rectangle), each row copy is one pixel wider than a row, so copies
   * overlap, and the last row painted lies past the end of the buffer when
   * `pbuffer` is the last buffer of the memory, as `gfb_surface_create`
   * lays it out.
   */
  lemma WholeSurfaceFillOverruns(s: Surface)
    requires Wf(s) && s.w >= 1 && s.h >= 1
    requires s.clip == Rect(0, 0, s.w, s.h) && s.back + s.w * s.h == |s.memory|
    ensures RowPixels(s.clip) == s.w + 1
    ensures !RowsAddressable(Corner(s, s.clip), s.w, RowPixels(s.clip), s.h + 1, |s.memory|)
    ensures !FillSafe(s, s.clip)
  {
    assert RowStart(Corner(s, s.clip), s.w, s.h) + RowPixels(s.clip) > |s.memory|;
  }

  // ---------------------------------------------------------------------
  // gfb_soft_filledrectangle as the header describes it.

  /** Slot `k` belongs to the `r.w` by `r.h` block of `r` in `pbuffer`. */
  predicate FilledIntended(s: Surface, r: Rect, k: int)
  {
    InRows(k, Corner(s, r), s.w, r.w, r.h)
  }

  /** A rectangle on the surface has every row of its block inside `pbuffer`. */
  lemma IntendedFillSafe(s: Surface, r: Rect)
    requires Wf(s) && Blit.RectOnSurface(r, s) && r.w >= 1 && r.h >= 1
    ensures RowsAddressable(Corner(s, r), s.w, r.w, r.h, |s.memory|)
  {
    RowsInBuffer(s.back, s.w, s.h, r.x, r.y, r.w, r.h, |s.memory|);
  }

  /** The rows of a `p` by `n` block at `(x, y)` of a `w` by `h` buffer at `base` lie inside it. */
  lemma RowsInBuffer(base: int, w: int, h: int, x: int, y: int, p: int, n: int, size: int)
    requires 0 <= base && 0 <= w && base + w * h <= size
    requires 0 <= x && 0 <= p && x + p <= w && 0 <= y && y + n <= h
    ensures RowsAddressable(base + y * w + x, w, p, n, size)
  {
    var start := base + y * w + x;
    forall j | 0 <= j < n
      ensures 0 <= RowStart(start, w, j) && RowStart(start, w, j) + p <= size
    {
      assert RowStart(start, w, j) == base + (y + j) * w + x by {
        assert y * w + j * w == (y + j) * w;
      }
      RowInBuffer(base, w, h, x, p, y + j, size);
    }
  }

  /** `p` slots from column `x` of row `y` of a `w` by `h` buffer at `base` lie inside it. */
  lemma RowInBuffer(base: int, w: int, h: int, x: int, p: int, y: int, size: int)
    requires 0 <= base && base + w * h <= size
    requires 0 <= x && 0 <= p && x + p <= w && 0 <= y < h
    ensures 0 <= base + y * w + x && base + y * w + x + p <= size
  {
    MulMono(0, y, w);
    MulMono(y, h - 1, w);
    assert (h - 1) * w + w == w * h;
  }

  /**
   * The corrected routine: `r.w` pixels per row and `r.h - 1` row copies,
   * so exactly the pixels of `r` (half-open, as `gfb_putpixel` reads a
   * rectangle) receive the colour, and any rectangle on the surface is safe.
   */
  method SoftFilledRectangleIntended(s: Surface, r: Rect, c: Color) returns (s': Surface, rc: ReturnCode)
    requires Wf(s) && Blit.RectOnSurface(r, s)
    ensures rc == Ok && Wf(s')
    ensures s' == s.(memory := s'.memory) && |s'.memory| == |s.memory|
    ensures forall k :: 0 <= k < |s.memory| ==>
      s'.memory[k] == if FilledIntended(s, r, k) then Store(c, Bpp(s)) else s.memory[k]
  {
    if r.w <= 0 || r.h <= 0 {
      return s, Ok;
    }
    IntendedFillSafe(s, r);
    var m := PaintRows(s.memory, Corner(s, r), s.w, r.w, r.h - 1, Store(c, Bpp(s)));
    s' := s.(memory := m);
    rc := Ok;
  }

  /** The corrected routine paints exactly the pixels of the rectangle. */
  lemma FilledIntendedPixels(s: Surface, r: Rect, px: int, py: int)
    requires Wf(s) && Blit.RectOnSurface(r, s) && OnSurface(s, px, py)
    ensures FilledIntended(s, r, Slot(s, s.back, px, py)) <==> InRect(r, px, py)
  {
    if r.w >= 0 {
      RowsArePixels(s, r.x, r.y, r.w, r.h, px, py);
    }
  }

  // ---------------------------------------------------------------------
  // Public entry points.

  /** The rectangle `gfb_filledrectangle` hands on: the argument clipped, or the clip for NULL. */
  function FillTarget(s: Surface, pr: Option<Rect>): Rect
  {
    if pr.Some? then ClipRect(pr.value, s.clip) else s.clip
  }

  /**
   * `gfb_filledrectangle`: NULL surface is refused; the rectangle is
   * clipped (or the clip taken for NULL) and handed to the table's routine.
   */
  method GfbFilledRectangle(h: Option<Surface>, pr: Option<Rect>, c: Color) returns (o: Outcome)
    requires h.Some? && h.value.ops.filledRectangle == Soft ==>
      Wf(h.value) && FillSafe(h.value, FillTarget(h.value, pr))
    ensures h.None? ==> o == Done(None, EArgument)
    ensures h.Some? && h.value.ops.filledRectangle == Device ==> o == Delegated
    ensures h.Some? && h.value.ops.filledRectangle == Soft ==>
      && o.Done? && o.rc == Ok && o.surface.Some?
      && var s, s' := h.value, o.surface.value;
      && s' == s.(memory := s'.memory) && |s'.memory| == |s.memory|
      && forall k :: 0 <= k < |s.memory| ==>
           s'.memory[k] == if Filled(s, FillTarget(s, pr), k) then Store(c, Bpp(s)) else s.memory[k]
  {
    if h.None? {
      return Done(None, EArgument);
    }
    var s := h.value;
    var r := FillTarget(s, pr);
    if s.ops.filledRectangle == Device {
      return Delegated;
    }
    var s', rc := SoftFilledRectangle(s, r, c);
    return Done(Some(s'), rc);
  }

  /** The clip covers the whole surface, the test `gfb_soft_clear` makes. */
  predicate FullClip(s: Surface)
  {
    s.clip.x == 0 && s.clip.y == 0 && s.clip.w == s.w && s.clip.h == s.h
  }

  /**
   * `gfb_soft_clear`: with the full clip the `w * h` slots of `pbuffer`
   * are zeroed (`memset`); otherwise the clip is filled with colour 0
   * through the public `gfb_filledrectangle`, whose table slot may be a
   * device routine.
   */
  method SoftClear(s: Surface) returns (o: Outcome)
    requires Wf(s)
    requires !FullClip(s) && s.ops.filledRectangle == Soft ==> FillSafe(s, s.clip)
    ensures FullClip(s) ==>
      && o.Done? && o.rc == Ok && o.surface.Some?
      && var s' := o.surface.value;
      && s' == s.(memory := s'.memory) && |s'.memory| == |s.memory|
      && forall k :: 0 <= k < |s.memory| ==>
           s'.memory[k] == if s.back <= k < s.back + s.w * s.h then 0 else s.memory[k]
    ensures !FullClip(s) && s.ops.filledRectangle == Device ==> o == Delegated
    ensures !FullClip(s) && s.ops.filledRectangle == Soft ==>
      && o.Done? && o.rc == Ok && o.surface.Some?
      && var s' := o.surface.value;
      && s' == s.(memory := s'.memory) && |s'.memory| == |s.memory|
      && forall k :: 0 <= k < |s.memory| ==>
           s'.memory[k] == if Filled(s, s.clip, k) then 0 else s.memory[k]
  {
    if FullClip(s) {
      var m := s.memory;
      var i := 0;
      while i < s.w * s.h
        invariant 0 <= i <= s.w * s.h
        invariant |m| == |s.memory|
        invariant forall k :: 0 <= k < |m| ==> m[k] == if s.back <= k < s.back + i then 0 else s.memory[k]
      {
        m := m[s.back + i := 0];
        i := i + 1;
      }
      return Done(Some(s.(memory := m)), Ok);
    }
    o := GfbFilledRectangle(Some(s), None, 0);
  }

  /**
   * After a software clear, every pixel of the clip reads 0, on both
   * paths, provided the clip lies on the surface and the rectangle path
   * stays within the memory.
   */
  lemma ClearBlanksClip(s: Surface, o: Outcome, px: int, py: int)
    requires Wf(s) && s.ops.filledRectangle == Soft && Blit.RectOnSurface(s.clip, s)
    requires !FullClip(s) ==> FillSafe(s, s.clip)
    requires o.Done? && o.surface.Some? && |o.surface.value.memory| == |s.memory|
    requires FullClip(s) ==> forall k :: 0 <= k < |s.memory| ==>
      o.surface.value.memory[k] == if s.back <= k < s.back + s.w * s.h then 0 else s.memory[k]
    requires !FullClip(s) ==> forall k :: 0 <= k < |s.memory| ==>
      o.surface.value.memory[k] == if Filled(s, s.clip, k) then 0 else s.memory[k]
    requires InClip(s, px, py)
    ensures 0 <= Slot(s, s.back, px, py) < |s.memory|
    ensures o.surface.value.memory[Slot(s, s.back, px, py)] == 0
  {
    Blit.PixelInBuffer(s.back, s.w, s.h, px, py);
    if !FullClip(s) {
      PixelInRows(s, s.clip.x, s.clip.y, RowPixels(s.clip), Maxi(s.clip.h, 0) + 1, px, py);
    }
  }

  /** `gfb_clear`: NULL is refused; otherwise the table's clear routine runs. */
  method GfbClear(h: Option<Surface>) returns (o: Outcome)
    requires h.Some? && h.value.ops.clear == Soft ==> Wf(h.value)
    requires h.Some? && h.value.ops.clear == Soft && !FullClip(h.value) && h.value.ops.filledRectangle == Soft ==>
      FillSafe(h.value, h.value.clip)
    ensures h.None? ==> o == Done(None, EArgument)
    ensures h.Some? && h.value.ops.clear == Device ==> o == Delegated
    ensures h.Some? && h.value.ops.clear == Soft && FullClip(h.value) ==>
      && o.Done? && o.rc == Ok && o.surface.Some?
      && forall x, y :: OnSurface(h.value, x, y) ==>
           0 <= Slot(h.value, h.value.back, x, y) < |o.surface.value.memory| &&
           o.surface.value.memory[Slot(h.value, h.value.back, x, y)] == 0
    ensures h.Some? && h.value.ops.clear == Soft && !FullClip(h.value) && h.value.ops.filledRectangle == Device ==>
      o == Delegated
    ensures h.Some? && h.value.ops.clear == Soft && !FullClip(h.value) && h.value.ops.filledRectangle == Soft ==>
      && o.Done? && o.rc == Ok && o.surface.Some?
      && var s, s' := h.value, o.surface.value;
      && s' == s.(memory := s'.memory) && |s'.memory| == |s.memory|
      && forall k :: 0 <= k < |s.memory| ==>
           s'.memory[k] == if Filled(s, s.clip, k) then 0 else s.memory[k]
  {
    if h.None? {
      return Done(None, EArgument);
    }
    if h.value.ops.clear == Device {
      return Delegated;
    }
    o := SoftClear(h.value);
    if FullClip(h.value) {
      forall x, y | OnSurface(h.value, x, y)
        ensures 0 <= Slot(h.value, h.value.back, x, y) < |o.surface.value.memory|
        ensures o.surface.value.memory[Slot(h.value, h.value.back, x, y)] == 0
      {
        Blit.PixelInBuffer(h.value.back, h.value.w, h.value.h, x, y);
      }
    }
  }

  // ---------------------------------------------------------------------
  // Flood fill.

  /** `gfb_soft_floodfill`: not implemented; the surface is left alone. */
  function SoftFloodFill(s: Surface, x: int, y: int, c: Color): (r: (Surface, ReturnCode))
    ensures r.0 == s && r.1 == ENotSupported
  {
    (s, ENotSupported)
  }

  /**
   * `gfb_floodfill`: a NULL surface or a seed outside the half-open clip is
   * refused; otherwise the table's routine runs and its return code is
   * dropped in favour of `GFB_OK`.
   */
  function GfbFloodFill(h: Option<Surface>, x: int, y: int, c: Color): (o: Outcome)
    ensures h.None? ==> o == Done(None, EArgument)
    ensures h.Some? && !InClip(h.value, x, y) ==> o == Done(h, EArgument)
    ensures h.Some? && InClip(h.value, x, y) && h.value.ops.floodFill == Device ==> o == Delegated
    ensures h.Some? && InClip(h.value, x, y) && h.value.ops.floodFill == Soft ==>
      o == Done(h, Ok)
  {
    match h
    case None => Done(None, EArgument)
    case Some(s) =>
      if s.clip.x > x || x >= s.clip.x + s.clip.w || y < s.clip.y || y >= s.clip.y + s.clip.h then
        Done(h, EArgument)
      else if s.ops.floodFill == Device then
        Delegated
      else
        var (_, _) := SoftFloodFill(s, x, y, c);
        Done(h, Ok)
  }

  /**
   * The public flood fill reports success for every seed in the clip,
   * yet with the software table no pixel changes: the routine's
   * `GFB_ENOTSUPPORTED` never reaches the caller.
   */
  lemma FloodFillHidesUnsupported(s: Surface, x: int, y: int, c: Color)
    requires s.ops.floodFill == Soft
    ensures SoftFloodFill(s, x, y, c).1 == ENotSupported
    ensures GfbFloodFill(Some(s), x, y, c).Done?
    ensures GfbFloodFill(Some(s), x, y, c).rc == Ok <==> InClip(s, x, y)
    ensures GfbFloodFill(Some(s), x, y, c).surface == Some(s)
  {
  }
}
