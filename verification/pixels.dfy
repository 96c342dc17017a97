/**
 * Single-pixel access: `gfb_soft_putpixel`, `gfb_soft_getpixel` and their
 * public wrappers `gfb_putpixel` / `gfb_getpixel`, plus plotting a
 * sequence of points, which the line and circle routines are built from.
 *
 * Nested calls that the soft routines make through `psurface->op` are
 * modelled as calls of the soft routines.
 */
module Pixels {
  import opened Geometry
  import opened PixelFormats
  import opened Surfaces
  import opened Arithmetic

  /** The pixel of `(x, y)` lies in the buffer that starts at `base`, which lies in memory. */
  lemma SlotInBuffer(s: Surface, base: int, x: int, y: int)
    requires Wf(s) && OnSurface(s, x, y)
    requires 0 <= base && base + s.w * s.h <= |s.memory|
    ensures base <= Slot(s, base, x, y) < base + s.w * s.h
  {
    MulMono(0, y, s.w);
    MulMono(y + 1, s.h, s.w);
    assert (y + 1) * s.w == y * s.w + s.w;
    assert s.h * s.w == s.w * s.h;
  }

  /**
   * The byte offset `prowoffsets[y] + pcoloffsets[x]` that
   * `gfb_soft_putpixel` uses and the offset `y * pitch + x * bpp` that
   * `gfb_soft_getpixel` computes are the same, and both address the slot of
   * `(x, y)`.
   */
  lemma OffsetsAgree(s: Surface, x: int, y: int)
    requires Wf(s) && OnSurface(s, x, y)
    ensures s.rowOffsets[y] + s.colOffsets[x] == y * s.pitch + x * Bpp(s)
    ensures (y * s.pitch + x * Bpp(s)) / Bpp(s) == y * s.w + x
  {
    var b := Bpp(s);
    assert s.rowOffsets[y] == s.pitch * y && s.colOffsets[x] == b * x;
    RowMajor(s.w, b, x, y);
    DivExact(b, y * s.w + x);
  }

  /** The slot of pixel `(x, y)` of the drawing buffer `pbuffer`. */
  function BackPixel(s: Surface, x: int, y: int): Color
    requires Wf(s) && OnSurface(s, x, y)
  {
    SlotInBuffer(s, s.back, x, y);
    s.memory[Slot(s, s.back, x, y)]
  }

  /** The value read back from a slot of `n` bytes: its low `n` bytes. */
  function Load(m: seq<Color>, k: int, n: nat): Color
    requires 0 <= k < |m|
  {
    Store(m[k], n)
  }

  /**
   * `gfb_soft_putpixel`: stores the low `bpp` bytes of the colour at the
   * slot the two offset tables give for `(x, y)` in `pbuffer`. No bounds
   * check: the caller must pass a pixel the tables have entries for.
   */
  function SoftPutPixel(s: Surface, x: int, y: int, c: Color): (r: (Surface, ReturnCode))
    requires Wf(s) && OnSurface(s, x, y)
    ensures r.1 == Ok
    ensures 0 <= Slot(s, s.back, x, y) < |s.memory|
    ensures r.0 == s.(memory := s.memory[Slot(s, s.back, x, y) := Store(c, Bpp(s))])
    ensures Wf(r.0)
  {
    OffsetsAgree(s, x, y);
    SlotInBuffer(s, s.back, x, y);
    var off := s.rowOffsets[y] + s.colOffsets[x];
    (s.(memory := s.memory[s.back + off / Bpp(s) := Store(c, Bpp(s))]), Ok)
  }

  /**
   * `gfb_soft_getpixel`: reads `bpp` bytes at `y * pitch + x * bpp` in
   * `pbuffer`. No bounds check: the slot must exist.
   */
  function SoftGetPixel(s: Surface, x: int, y: int): (c: Color)
    requires Wf(s) && 0 <= Slot(s, s.back, x, y) < |s.memory|
    ensures c == Load(s.memory, Slot(s, s.back, x, y), Bpp(s))
    ensures c == Store(c, Bpp(s))
  {
    var b := Bpp(s);
    RowMajor(s.w, b, x, y);
    DivExact(b, y * s.w + x);
    Load(s.memory, s.back + (y * s.pitch + x * b) / b, b)
  }

  /**
   * `gfb_putpixel`: refuses a NULL surface and any point outside the
   * half-open clip rectangle, otherwise calls the table's routine.
   */
  function PutPixel(h: Option<Surface>, x: int, y: int, c: Color): (o: Outcome)
    requires h.Some? ==> Wf(h.value)
    requires h.Some? && InClip(h.value, x, y) && h.value.ops.putpixel == Soft ==> OnSurface(h.value, x, y)
    ensures h.None? || !InClip(h.value, x, y) ==> o == Done(h, EArgument)
    ensures h.Some? && InClip(h.value, x, y) && h.value.ops.putpixel == Soft ==>
      o == Done(Some(SoftPutPixel(h.value, x, y, c).0), Ok)
    ensures h.Some? && InClip(h.value, x, y) && h.value.ops.putpixel == Device ==> o == Delegated
  {
    match h
    case None => Done(h, EArgument)
    case Some(s) =>
      if x < s.clip.x || y < s.clip.y || x >= s.clip.x + s.clip.w || y >= s.clip.y + s.clip.h then
        Done(h, EArgument)
      else if s.ops.putpixel == Soft then
        var (s', rc) := SoftPutPixel(s, x, y, c);
        Done(Some(s'), rc)
      else
        Delegated
  }

  /** The four output pointers of `gfb_getpixel`: NULL, or the caller's variable with its current value. */
  datatype Outputs = Outputs(a: Option<Channel>, r: Option<Channel>, g: Option<Channel>, b: Option<Channel>)

  /** Result of `gfb_getpixel`: the return value and the caller's variables afterwards. */
  datatype Read = Read(rc: ReturnCode, out: Outputs) | ReadDelegated

  /** Writing a channel through a pointer that may be NULL. */
  function Assign(p: Option<Channel>, v: Channel): Option<Channel>
  {
    if p.Some? then Some(v) else None
  }

  /**
   * `gfb_getpixel`: for a NULL surface or a point outside the clip it
   * returns 0 (which is `GFB_OK`) and writes nothing; otherwise it decodes
   * the pixel the software routine reads into every non-NULL output. For a
   * pixel of the surface that is the pixel stored in the back buffer.
   */
  function GetPixel(h: Option<Surface>, x: int, y: int, out: Outputs): (res: Read)
    requires h.Some? ==> Wf(h.value)
    requires h.Some? && InClip(h.value, x, y) && h.value.ops.getpixel == Soft ==>
      0 <= Slot(h.value, h.value.back, x, y) < |h.value.memory|
    ensures res.Read? ==> res.rc == Ok
    ensures h.None? || !InClip(h.value, x, y) ==> res == Read(Ok, out)
    ensures h.Some? && InClip(h.value, x, y) && h.value.ops.getpixel == Device ==> res == ReadDelegated
    ensures h.Some? && InClip(h.value, x, y) && h.value.ops.getpixel == Soft ==>
      var d := Decode(Fmt(h.value), SoftGetPixel(h.value, x, y));
      res == Read(Ok, Outputs(Assign(out.a, d.a), Assign(out.r, d.r), Assign(out.g, d.g), Assign(out.b, d.b)))
    ensures h.Some? && InClip(h.value, x, y) && h.value.ops.getpixel == Soft && OnSurface(h.value, x, y) ==>
      var d := Decode(Fmt(h.value), BackPixel(h.value, x, y));
      res == Read(Ok, Outputs(Assign(out.a, d.a), Assign(out.r, d.r), Assign(out.g, d.g), Assign(out.b, d.b)))
  {
    match h
    case None => Read(Ok, out)
    case Some(s) =>
      if x < s.clip.x || y < s.clip.y || x >= s.clip.x + s.clip.w || y >= s.clip.y + s.clip.h then
        Read(Ok, out)
      else if s.ops.getpixel == Device then
        ReadDelegated
      else
        var c := SoftGetPixel(s, x, y);
        DecodeIgnoresHighBytes(s.format, s.memory[Slot(s, s.back, x, y)]);
        var d := Decode(Fmt(s), c);
        Read(Ok, Outputs(Assign(out.a, d.a), Assign(out.r, d.r), Assign(out.g, d.g), Assign(out.b, d.b)))
  }

  /**
   * A put followed by a get of the same in-clip pixel yields the channels
   * of the colour that was put (as far as the format carries them).
   */
  lemma PutThenGet(s: Surface, x: int, y: int, c: Color)
    requires Wf(s) && InClip(s, x, y) && OnSurface(s, x, y)
    requires s.ops.putpixel == Soft && s.ops.getpixel == Soft
    ensures var o := PutPixel(Some(s), x, y, c);
      o.Done? && o.rc == Ok && o.surface.Some? &&
      GetPixel(o.surface, x, y, Outputs(Some(0), Some(0), Some(0), Some(0))) ==
        var d := Decode(Fmt(s), c);
        Read(Ok, Outputs(Some(d.a), Some(d.r), Some(d.g), Some(d.b)))
  {
    var s' := SoftPutPixel(s, x, y, c).0;
    SlotInBuffer(s, s.back, x, y);
    DecodeIgnoresHighBytes(s.format, c);
    assert s'.memory[Slot(s', s'.back, x, y)] == Store(c, Bpp(s));
  }

  // ---------------------------------------------------------------------
  // Plotting a sequence of points.

  /** Every point of `pts` is a pixel of the surface. */
  predicate AllOnSurface(s: Surface, pts: seq<Point>)
  {
    forall k :: 0 <= k < |pts| ==> OnSurface(s, pts[k].x, pts[k].y)
  }

  /** The slots of the back buffer that the points address. */
  function Slots(s: Surface, pts: seq<Point>): set<int>
  {
    set k | 0 <= k < |pts| :: Slot(s, s.back, pts[k].x, pts[k].y)
  }

  /** `gfb_soft_putpixel` applied to every point of `pts`, in order. */
  function PlotAll(s: Surface, pts: seq<Point>, c: Color): (r: Surface)
    requires Wf(s) && AllOnSurface(s, pts)
    ensures Wf(r) && r == s.(memory := r.memory) && |r.memory| == |s.memory|
    decreases |pts|
  {
    if pts == [] then s
    else
      var s' := SoftPutPixel(s, pts[0].x, pts[0].y, c).0;
      PlotAll(s', pts[1..], c)
  }

  /**
   * Plotting sets exactly the slots of the plotted points to the stored
   * colour and leaves every other slot of the memory as it was.
   */
  lemma PlotAllEffect(s: Surface, pts: seq<Point>, c: Color)
    requires Wf(s) && AllOnSurface(s, pts)
    ensures forall k :: 0 <= k < |pts| ==>
      0 <= Slot(s, s.back, pts[k].x, pts[k].y) < |s.memory| &&
      PlotAll(s, pts, c).memory[Slot(s, s.back, pts[k].x, pts[k].y)] == Store(c, Bpp(s))
    ensures forall i :: 0 <= i < |s.memory| && i !in Slots(s, pts) ==> PlotAll(s, pts, c).memory[i] == s.memory[i]
  {
    PlotAllSets(s, pts, c);
    PlotAllKeeps(s, pts, c);
  }

  /** `PlotAllSets` for one point: the slot of `pts[k]` holds the stored colour. */
  lemma PlotAllSetsAt(s: Surface, pts: seq<Point>, c: Color, k: int)
    requires Wf(s) && AllOnSurface(s, pts) && 0 <= k < |pts|
    ensures 0 <= Slot(s, s.back, pts[k].x, pts[k].y) < |s.memory|
    ensures PlotAll(s, pts, c).memory[Slot(s, s.back, pts[k].x, pts[k].y)] == Store(c, Bpp(s))
  {
    PlotAllSets(s, pts, c);
  }

  /** `PlotAllKeeps` for one slot: a slot no point addresses keeps its contents. */
  lemma PlotAllKeepsAt(s: Surface, pts: seq<Point>, c: Color, i: int)
    requires Wf(s) && AllOnSurface(s, pts) && 0 <= i < |s.memory| && i !in Slots(s, pts)
    ensures PlotAll(s, pts, c).memory[i] == s.memory[i]
  {
    PlotAllKeeps(s, pts, c);
  }

  /** The first plot of a non-empty list, and the rest of the list still on the surface it leaves. */
  lemma PlotFirst(s: Surface, pts: seq<Point>, c: Color) returns (s': Surface)
    requires Wf(s) && AllOnSurface(s, pts) && pts != []
    ensures s' == SoftPutPixel(s, pts[0].x, pts[0].y, c).0
    ensures Wf(s') && AllOnSurface(s', pts[1..]) && s'.w == s.w && s'.back == s.back && Bpp(s') == Bpp(s)
    ensures PlotAll(s, pts, c) == PlotAll(s', pts[1..], c)
  {
    s' := SoftPutPixel(s, pts[0].x, pts[0].y, c).0;
    var rest := pts[1..];
    forall k | 0 <= k < |rest| ensures OnSurface(s', rest[k].x, rest[k].y) {
      assert rest[k] == pts[k + 1];
    }
  }

  /** Slots no point addresses keep their contents. */
  lemma {:induction false} PlotAllKeeps(s: Surface, pts: seq<Point>, c: Color)
    requires Wf(s) && AllOnSurface(s, pts)
    ensures forall i :: 0 <= i < |s.memory| && i !in Slots(s, pts) ==> PlotAll(s, pts, c).memory[i] == s.memory[i]
    decreases |pts|
  {
    if pts != [] {
      var s' := PlotFirst(s, pts, c);
      PlotAllKeeps(s', pts[1..], c);
      SlotsCons(s, s', pts);
      var p0 := Slot(s, s.back, pts[0].x, pts[0].y);
      forall i | 0 <= i < |s.memory| && i !in Slots(s, pts)
        ensures PlotAll(s, pts, c).memory[i] == s.memory[i]
      {
        assert i != p0 && i !in Slots(s', pts[1..]);
      }
    }
  }

  /** Every slot a point addresses ends up holding the stored colour. */
  lemma {:induction false} PlotAllSets(s: Surface, pts: seq<Point>, c: Color)
    requires Wf(s) && AllOnSurface(s, pts)
    ensures forall k :: 0 <= k < |pts| ==>
      0 <= Slot(s, s.back, pts[k].x, pts[k].y) < |s.memory| &&
      PlotAll(s, pts, c).memory[Slot(s, s.back, pts[k].x, pts[k].y)] == Store(c, Bpp(s))
    decreases |pts|
  {
    if pts != [] {
      var s' := PlotFirst(s, pts, c);
      var rest := pts[1..];
      PlotAllSets(s', rest, c);
      PlotAllKeeps(s', rest, c);
      var r := PlotAll(s', rest, c);
      var p0, v := Slot(s, s.back, pts[0].x, pts[0].y), Store(c, Bpp(s));
      assert s'.memory[p0] == v;
      forall k | 0 <= k < |pts|
        ensures 0 <= Slot(s, s.back, pts[k].x, pts[k].y) < |s.memory|
        ensures r.memory[Slot(s, s.back, pts[k].x, pts[k].y)] == v
      {
        SlotInBuffer(s, s.back, pts[k].x, pts[k].y);
        if k > 0 {
          assert pts[k] == rest[k - 1];
        } else if p0 in Slots(s', rest) {
          var j :| 0 <= j < |rest| && Slot(s', s'.back, rest[j].x, rest[j].y) == p0;
        }
      }
    }
  }

  /** The slots of a non-empty list: its first point's, then the rest's (in a surface of the same geometry). */
  lemma SlotsCons(s: Surface, t: Surface, pts: seq<Point>)
    requires pts != [] && t.w == s.w && t.back == s.back
    ensures Slots(s, pts) == {Slot(s, s.back, pts[0].x, pts[0].y)} + Slots(t, pts[1..])
  {
    var rest := pts[1..];
    forall i | i in Slots(s, pts)
      ensures i in {Slot(s, s.back, pts[0].x, pts[0].y)} + Slots(t, rest)
    {
      var k :| 0 <= k < |pts| && i == Slot(s, s.back, pts[k].x, pts[k].y);
      if k > 0 {
        assert pts[k] == rest[k - 1];
      }
    }
    forall i | i in Slots(t, rest)
      ensures i in Slots(s, pts)
    {
      var k :| 0 <= k < |rest| && i == Slot(t, t.back, rest[k].x, rest[k].y);
      assert rest[k] == pts[k + 1];
    }
  }
}
