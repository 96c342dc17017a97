/**
 * Lines and the shapes drawn from them: `gfb_soft_line` (Bresenham),
 * `gfb_line`, `gfb_soft_rectangle` / `gfb_rectangle` and
 * `gfb_soft_polygon` / `gfb_polygon`.
 *
 * `gfb_soft_line` accepts a line only when both end points lie in the
 * INCLUSIVE ranges `[clip.x, clip.x + clip.w]` and `[clip.y, clip.y +
 * clip.h]`, and plots through the table's `putpixel`, which does no clip
 * check of its own.
 */
module Lines {
  import opened Geometry
  import opened PixelFormats
  import opened Surfaces
  import opened Pixels
  import opened Arithmetic

  /** `abs`. */
  function Abs(v: int): nat
  {
    if v < 0 then -v else v
  }

  /** `sgn`: `(0 < x) - (x < 0)`. */
  function Sgn(v: int): int
  {
    (if 0 < v then 1 else 0) - (if v < 0 then 1 else 0)
  }

  /** `t` unit steps from `a` in the direction of `d`'s sign. */
  function Along(a: int, d: int, t: int): int
  {
    if d < 0 then a - t else a + t
  }

  /**
   * The ideal minor-axis offset after `t` of `n` major steps on a line
   * rising `m` over `n`: `t * m / n` rounded, halves rounded up.
   */
  function MinorOffset(n: int, m: int, t: int): int
    requires n > 0
  {
    (t * m + n / 2) / n
  }

  /**
   * Point `t` of a walk along a longer axis from `a` by `da` while a
   * shorter axis goes from `b` by `db`: (major, minor) coordinates.
   */
  function Walk(a: int, da: int, b: int, db: int, t: int): (int, int)
    requires da != 0
  {
    (Along(a, da, t), Along(b, db, MinorOffset(Abs(da), Abs(db), t)))
  }

  /**
   * The pixels of the line from `(x1, y1)` to `(x2, y2)`: one per unit of
   * the longer axis, the other coordinate rounded to the ideal line.
   */
  function LinePoints(x1: int, y1: int, x2: int, y2: int): (pts: seq<Point>)
    ensures |pts| == Maxi(Abs(x2 - x1), Abs(y2 - y1)) + 1
  {
    var dx, dy := x2 - x1, y2 - y1;
    if dx == 0 && dy == 0 then [Point(x1, y1)]
    else if Abs(dx) >= Abs(dy) then
      seq(Abs(dx) + 1, t => Point(Walk(x1, dx, y1, dy, t).0, Walk(x1, dx, y1, dy, t).1))
    else
      seq(Abs(dy) + 1, t => Point(Walk(y1, dy, x1, dx, t).1, Walk(y1, dy, x1, dx, t).0))
  }

  /** The rounded offset starts at 0 and ends at `m`. */
  lemma MinorEnds(n: int, m: int)
    requires n > 0
    ensures MinorOffset(n, m, 0) == 0 && MinorOffset(n, m, n) == m
  {
    DivUnique(n / 2, n, 0, n / 2);
    assert n * m + n / 2 == m * n + n / 2;
    DivUnique(n * m + n / 2, n, m, n / 2);
  }

  /** On a walk no steeper than 1, the rounded offset grows by 0 or 1 per major step. */
  lemma MinorStep(n: int, m: int, t: int)
    requires n > 0 && 0 <= m <= n
    ensures MinorOffset(n, m, t + 1) - MinorOffset(n, m, t) in {0, 1}
  {
    var a := t * m + n / 2;
    var q, r := a / n, a % n;
    assert (t + 1) * m + n / 2 == a + m;
    if r + m < n {
      DivUnique(a + m, n, q, r + m);
    } else {
      DivUnique(a + m, n, q + 1, r + m - n);
    }
  }

  /** The rounded offset never leaves `[0, m]`. */
  lemma MinorRange(n: int, m: int, t: int)
    requires n > 0 && 0 <= m && 0 <= t <= n
    ensures 0 <= MinorOffset(n, m, t) <= m
  {
    MulMono(t, n, m);
    MulMono(0, t, m);
    assert n * m + n / 2 < (m + 1) * n;
    DivBounds(t * m + n / 2, n, m);
  }

  /** The walk starts at `(a, b)` and ends at `(a + da, b + db)`. */
  lemma WalkEnds(a: int, da: int, b: int, db: int)
    requires da != 0
    ensures Walk(a, da, b, db, 0) == (a, b)
    ensures Walk(a, da, b, db, Abs(da)) == (a + da, b + db)
  {
    MinorEnds(Abs(da), Abs(db));
  }

  /** Every point of the walk lies between its end points on both axes. */
  lemma WalkInBox(a: int, da: int, b: int, db: int, t: int)
    requires da != 0 && 0 <= t <= Abs(da)
    ensures var w := Walk(a, da, b, db, t);
      Mini(a, a + da) <= w.0 <= Maxi(a, a + da) && Mini(b, b + db) <= w.1 <= Maxi(b, b + db)
  {
    MinorRange(Abs(da), Abs(db), t);
  }

  /** With `|db| <= |da|`, each step moves the major axis by exactly one and the minor by at most one. */
  lemma WalkStep(a: int, da: int, b: int, db: int, t: int)
    requires da != 0 && Abs(db) <= Abs(da)
    ensures var w, w' := Walk(a, da, b, db, t), Walk(a, da, b, db, t + 1);
      w'.0 - w.0 == Sgn(da) && w'.1 - w.1 in {0, Sgn(db)}
  {
    MinorStep(Abs(da), Abs(db), t);
  }

  /** Both end points of a line are pixels of it, the first one first. */
  lemma LineEnds(x1: int, y1: int, x2: int, y2: int)
    ensures var pts := LinePoints(x1, y1, x2, y2);
      pts[0] == Point(x1, y1) && pts[|pts| - 1] == Point(x2, y2)
  {
    var dx, dy := x2 - x1, y2 - y1;
    if dx == 0 && dy == 0 {
    } else if Abs(dx) >= Abs(dy) {
      WalkEnds(x1, dx, y1, dy);
    } else {
      WalkEnds(y1, dy, x1, dx);
    }
  }

  /** Every pixel of a line lies in the box its end points span. */
  lemma LineInBox(x1: int, y1: int, x2: int, y2: int)
    ensures var pts := LinePoints(x1, y1, x2, y2);
      forall t :: 0 <= t < |pts| ==>
        Mini(x1, x2) <= pts[t].x <= Maxi(x1, x2) && Mini(y1, y2) <= pts[t].y <= Maxi(y1, y2)
  {
    var dx, dy := x2 - x1, y2 - y1;
    var pts := LinePoints(x1, y1, x2, y2);
    forall t | 0 <= t < |pts|
      ensures Mini(x1, x2) <= pts[t].x <= Maxi(x1, x2) && Mini(y1, y2) <= pts[t].y <= Maxi(y1, y2)
    {
      if dx == 0 && dy == 0 {
      } else if Abs(dx) >= Abs(dy) {
        WalkInBox(x1, dx, y1, dy, t);
      } else {
        WalkInBox(y1, dy, x1, dx, t);
      }
    }
  }

  /**
   * Each step of a line moves its longer axis by exactly one towards the
   * second end point and the other axis by at most one, also towards it.
   */
  lemma LineSteps(x1: int, y1: int, x2: int, y2: int)
    ensures var pts := LinePoints(x1, y1, x2, y2);
      && (Abs(x2 - x1) >= Abs(y2 - y1) ==> forall t :: 0 <= t < |pts| - 1 ==>
            pts[t + 1].x - pts[t].x == Sgn(x2 - x1) && pts[t + 1].y - pts[t].y in {0, Sgn(y2 - y1)})
      && (Abs(x2 - x1) < Abs(y2 - y1) ==> forall t :: 0 <= t < |pts| - 1 ==>
            pts[t + 1].y - pts[t].y == Sgn(y2 - y1) && pts[t + 1].x - pts[t].x in {0, Sgn(x2 - x1)})
  {
    var dx, dy := x2 - x1, y2 - y1;
    if dx == 0 && dy == 0 {
    } else if Abs(dx) >= Abs(dy) {
      StepsAlongX(x1, y1, x2, y2);
    } else {
      StepsAlongY(x1, y1, x2, y2);
    }
  }

  /** The steps of a line walked along `x`. */
  lemma StepsAlongX(x1: int, y1: int, x2: int, y2: int)
    requires x2 != x1 && Abs(x2 - x1) >= Abs(y2 - y1)
    ensures var pts := LinePoints(x1, y1, x2, y2);
      forall t :: 0 <= t < |pts| - 1 ==>
        pts[t + 1].x - pts[t].x == Sgn(x2 - x1) && pts[t + 1].y - pts[t].y in {0, Sgn(y2 - y1)}
  {
    var dx, dy := x2 - x1, y2 - y1;
    var pts := LinePoints(x1, y1, x2, y2);
    assert forall t :: 0 <= t < |pts| ==> pts[t] == Point(Walk(x1, dx, y1, dy, t).0, Walk(x1, dx, y1, dy, t).1);
    WalkSteps(x1, dx, y1, dy, seq(|pts|, t requires 0 <= t < |pts| => (pts[t].x, pts[t].y)));
  }

  /** The steps of a line walked along `y`. */
  lemma StepsAlongY(x1: int, y1: int, x2: int, y2: int)
    requires Abs(x2 - x1) < Abs(y2 - y1)
    ensures var pts := LinePoints(x1, y1, x2, y2);
      forall t :: 0 <= t < |pts| - 1 ==>
        pts[t + 1].y - pts[t].y == Sgn(y2 - y1) && pts[t + 1].x - pts[t].x in {0, Sgn(x2 - x1)}
  {
    var dx, dy := x2 - x1, y2 - y1;
    var pts := LinePoints(x1, y1, x2, y2);
    assert forall t :: 0 <= t < |pts| ==> pts[t] == Point(Walk(y1, dy, x1, dx, t).1, Walk(y1, dy, x1, dx, t).0);
    WalkSteps(y1, dy, x1, dx, seq(|pts|, t requires 0 <= t < |pts| => (pts[t].y, pts[t].x)));
  }

  /** Every step of a walk, as `WalkStep` states it for one, read off the walk's pixels `w`. */
  lemma WalkSteps(a: int, da: int, b: int, db: int, w: seq<(int, int)>)
    requires da != 0 && Abs(db) <= Abs(da) && |w| == Abs(da) + 1
    requires forall t :: 0 <= t < |w| ==> w[t] == Walk(a, da, b, db, t)
    ensures forall t :: 0 <= t < |w| - 1 ==> w[t + 1].0 - w[t].0 == Sgn(da) && w[t + 1].1 - w[t].1 in {0, Sgn(db)}
  {
    forall t | 0 <= t < |w| - 1
      ensures w[t + 1].0 - w[t].0 == Sgn(da) && w[t + 1].1 - w[t].1 in {0, Sgn(db)}
    {
      WalkStep(a, da, b, db, t);
    }
  }

  /** A horizontal line is every pixel between its end points, left to right or right to left. */
  lemma HorizontalLine(x1: int, x2: int, y: int)
    ensures var pts := LinePoints(x1, y, x2, y);
      forall t :: 0 <= t < |pts| ==> pts[t] == Point(Along(x1, x2 - x1, t), y)
  {
    var n := Abs(x2 - x1);
    if n > 0 {
      forall t | 0 <= t <= n ensures MinorOffset(n, 0, t) == 0 {
        DivUnique(t * 0 + n / 2, n, 0, n / 2);
      }
    }
  }

  /** A vertical line is every pixel between its end points. */
  lemma VerticalLine(x: int, y1: int, y2: int)
    ensures var pts := LinePoints(x, y1, x, y2);
      forall t :: 0 <= t < |pts| ==> pts[t] == Point(x, Along(y1, y2 - y1, t))
  {
    var n := Abs(y2 - y1);
    if n > 0 {
      forall t | 0 <= t <= n ensures MinorOffset(n, 0, t) == 0 {
        DivUnique(t * 0 + n / 2, n, 0, n / 2);
      }
    }
  }

  /**
   * One step of the accumulator keeps `k * n + acc == n / 2 + i * m` with
   * `0 <= acc < n`, so the minor offset `k` stays the rounded one. The
   * values after the step are `i'`, `k'` and `acc'`.
   */
  lemma AccumulatorStep(n: int, m: int, i: int, k: int, acc: int, i': int, k': int, acc': int)
    requires n > 0 && 0 <= m <= n && 0 <= acc < n
    requires k * n + acc == n / 2 + i * m
    requires i' == i + 1
    requires acc + m >= n ==> k' == k + 1 && acc' == acc + m - n
    requires acc + m < n ==> k' == k && acc' == acc + m
    ensures k' * n + acc' == n / 2 + i' * m
    ensures 0 <= acc' < n && k' == MinorOffset(n, m, i')
  {
    assert i' * m == i * m + m;
    assert k' * n == k * n + (k' - k) * n;
    DivUnique(i' * m + n / 2, n, k', acc');
  }

  /**
   * The minor offset and the accumulator of `gfb_soft_line` after `i`
   * major steps: the accumulator starts at `n / 2`, gains `m` per step and
   * gives back `n`, moving the minor offset, whenever it reaches `n`.
   */
  function AccumulatorAfter(n: int, m: int, i: nat): (int, int)
  {
    if i == 0 then (0, n / 2)
    else
      var (k, acc) := AccumulatorAfter(n, m, i - 1);
      if acc + m >= n then (k + 1, acc + m - n) else (k, acc + m)
  }

  /** The accumulator's minor offset is the rounded ideal one, and the accumulator stays in `[0, n)`. */
  lemma AccumulatorRounds(n: int, m: int, i: nat)
    requires n > 0 && 0 <= m <= n
    ensures var (k, acc) := AccumulatorAfter(n, m, i);
      0 <= acc < n && k == MinorOffset(n, m, i)
  {
    AccumulatorTracks(n, m, i);
  }

  /** The accumulator's invariant: `k * n + acc == n / 2 + i * m`, with `acc` in `[0, n)`. */
  lemma {:induction false} AccumulatorTracks(n: int, m: int, i: nat)
    requires n > 0 && 0 <= m <= n
    ensures var (k, acc) := AccumulatorAfter(n, m, i);
      k * n + acc == n / 2 + i * m && 0 <= acc < n && k == MinorOffset(n, m, i)
  {
    if i == 0 {
      MinorEnds(n, m);
    } else {
      AccumulatorTracks(n, m, i - 1);
      var (k0, acc0) := AccumulatorAfter(n, m, i - 1);
      var (k, acc) := AccumulatorAfter(n, m, i);
      AccumulatorStep(n, m, i - 1, k0, acc0, i, k, acc);
    }
  }

  /** Point `t` of a walk whose minor offset is known to be `k`. */
  lemma WalkAt(a: int, da: int, b: int, db: int, t: int, k: int)
    requires da != 0 && k == MinorOffset(Abs(da), Abs(db), t)
    ensures Walk(a, da, b, db, t) == (Along(a, da, t), Along(b, db, k))
  {
  }

  /**
   * One branch of the loop of `gfb_soft_line`, with the longer axis called
   * major: the accumulator starts at half the longer distance, gains the
   * shorter one per step and, when it reaches the longer one, gives it back
   * and moves the minor coordinate one unit. The points it visits are
   * exactly the rounded ideal line.
   */
  method TraceWalk(a: int, da: int, b: int, db: int) returns (ws: seq<(int, int)>)
    requires Abs(db) <= Abs(da)
    ensures |ws| == Abs(da) + 1 && ws[0] == (a, b)
    ensures da != 0 ==> forall t :: 0 <= t < |ws| ==> ws[t] == Walk(a, da, b, db, t)
  {
    var n, m := Abs(da), Abs(db);
    var sa, sb := Sgn(da), Sgn(db);
    var acc := n / 2;
    var pa, pb := a, b;
    ws := [(pa, pb)];
    if n > 0 {
      MinorEnds(n, m);
      WalkAt(a, da, b, db, 0, 0);
    }
    var i := 0;
    ghost var k := 0;
    while i < n
      invariant 0 <= i <= n && |ws| == i + 1 && ws[0] == (a, b)
      invariant pa == Along(a, da, i) && pb == Along(b, db, k)
      invariant (k, acc) == AccumulatorAfter(n, m, i)
      invariant n > 0 ==> forall t :: 0 <= t <= i ==> ws[t] == Walk(a, da, b, db, t)
    {
      ghost var prev := ws;
      acc := acc + m;
      if acc >= n {
        acc := acc - n;
        pb := pb + sb;
        k := k + 1;
      }
      pa := pa + sa;
      i := i + 1;
      ws := ws + [(pa, pb)];
      AccumulatorRounds(n, m, i);
      WalkAt(a, da, b, db, i, k);
      assert forall t :: 0 <= t < i ==> ws[t] == prev[t];
    }
    assert i == n && |ws| == n + 1;
  }

  /**
   * `gfb_soft_line`'s pixel walk: the horizontal branch when `|dx| >= |dy|`
   * (which also covers a single point), the vertical one otherwise. It
   * visits exactly the pixels of `LinePoints`.
   */
  method TraceLine(x1: int, y1: int, x2: int, y2: int) returns (pts: seq<Point>)
    ensures pts == LinePoints(x1, y1, x2, y2)
  {
    var dx, dy := x2 - x1, y2 - y1;
    if Abs(dx) >= Abs(dy) {
      var ws := TraceWalk(x1, dx, y1, dy);
      pts := seq(|ws|, t requires 0 <= t < |ws| => Point(ws[t].0, ws[t].1));
    } else {
      var ws := TraceWalk(y1, dy, x1, dx);
      pts := seq(|ws|, t requires 0 <= t < |ws| => Point(ws[t].1, ws[t].0));
    }
  }

  // ---------------------------------------------------------------------
  // Drawing a line.

  /** Both end points lie in the inclusive clip ranges `gfb_soft_line` tests. */
  predicate LineAccepted(s: Surface, x1: int, y1: int, x2: int, y2: int)
  {
    && Inside(x1, s.clip.x, s.clip.x + s.clip.w) && Inside(y1, s.clip.y, s.clip.y + s.clip.h)
    && Inside(x2, s.clip.x, s.clip.x + s.clip.w) && Inside(y2, s.clip.y, s.clip.y + s.clip.h)
  }

  /** A line `gfb_soft_line` accepts only writes pixels of the surface: its end points have offset-table entries. */
  predicate LineSafe(s: Surface, x1: int, y1: int, x2: int, y2: int)
  {
    LineAccepted(s, x1, y1, x2, y2) ==> OnSurface(s, x1, y1) && OnSurface(s, x2, y2)
  }

  /**
   * The table draws lines in software down to the pixel: only then does a
   * line touch pixel memory directly, so only then must it stay on the
   * surface.
   */
  predicate SoftDrawing(s: Surface)
  {
    s.ops.line == Soft && s.ops.putpixel == Soft
  }

  /** With both end points on the surface, so is every pixel of the line. */
  lemma LineOnSurface(s: Surface, x1: int, y1: int, x2: int, y2: int)
    requires OnSurface(s, x1, y1) && OnSurface(s, x2, y2)
    ensures AllOnSurface(s, LinePoints(x1, y1, x2, y2))
  {
    LineInBox(x1, y1, x2, y2);
  }

  /**
   * `gfb_soft_line`: `GFB_EARGUMENT` when an end point is outside the
   * inclusive clip ranges, otherwise every pixel of the line is put with the
   * software `putpixel` (whose result is always `GFB_OK`, so the loop's
   * early return never fires).
   */
  function SoftLine(s: Surface, x1: int, y1: int, x2: int, y2: int, c: Color): (r: (Surface, ReturnCode))
    requires Wf(s) && LineSafe(s, x1, y1, x2, y2)
    ensures r.1 == Ok <==> LineAccepted(s, x1, y1, x2, y2)
    ensures r.1 != Ok ==> r.1 == EArgument && r.0 == s
    ensures Wf(r.0) && r.0 == s.(memory := r.0.memory) && |r.0.memory| == |s.memory|
  {
    if Outside(x1, s.clip.x, s.clip.x + s.clip.w) || Outside(y1, s.clip.y, s.clip.y + s.clip.h)
       || Outside(x2, s.clip.x, s.clip.x + s.clip.w) || Outside(y2, s.clip.y, s.clip.y + s.clip.h)
    then
      (s, EArgument)
    else
      LineOnSurface(s, x1, y1, x2, y2);
      (PlotAll(s, LinePoints(x1, y1, x2, y2), c), Ok)
  }

  /**
   * An accepted line sets every one of its pixels to the stored colour and
   * leaves every other slot of the memory alone.
   */
  lemma SoftLineEffect(s: Surface, x1: int, y1: int, x2: int, y2: int, c: Color)
    requires Wf(s) && LineSafe(s, x1, y1, x2, y2) && LineAccepted(s, x1, y1, x2, y2)
    ensures var pts := LinePoints(x1, y1, x2, y2);
      var m := SoftLine(s, x1, y1, x2, y2, c).0.memory;
      && (forall t :: 0 <= t < |pts| ==>
            0 <= Slot(s, s.back, pts[t].x, pts[t].y) < |m| && m[Slot(s, s.back, pts[t].x, pts[t].y)] == Store(c, Bpp(s)))
      && (forall k :: 0 <= k < |m| && k !in Slots(s, pts) ==> m[k] == s.memory[k])
  {
    LineOnSurface(s, x1, y1, x2, y2);
    PlotAllEffect(s, LinePoints(x1, y1, x2, y2), c);
  }

  /**
   * `psurface->op->line(...)` from inside a soft routine: the software line
   * when the table has it (delegated if it reaches a device `putpixel`).
   */
  function LineVia(s: Surface, x1: int, y1: int, x2: int, y2: int, c: Color): (o: Outcome)
    requires Wf(s) && (SoftDrawing(s) ==> LineSafe(s, x1, y1, x2, y2))
    ensures o.Done? ==> o.surface.Some? && Wf(o.surface.value) && o.surface.value == s.(memory := o.surface.value.memory)
    ensures o.Done? ==> (o.rc == Ok <==> LineAccepted(s, x1, y1, x2, y2))
    ensures s.ops.line == Soft && !LineAccepted(s, x1, y1, x2, y2) ==> o == Done(Some(s), EArgument)
    ensures s.ops.line == Soft && s.ops.putpixel == Soft ==> o == Done(Some(SoftLine(s, x1, y1, x2, y2, c).0), SoftLine(s, x1, y1, x2, y2, c).1)
    ensures s.ops.line == Device ==> o == Delegated
  {
    if s.ops.line == Device then Delegated
    else if !LineAccepted(s, x1, y1, x2, y2) then Done(Some(s), EArgument)
    else if s.ops.putpixel == Device then Delegated
    else Done(Some(SoftLine(s, x1, y1, x2, y2, c).0), Ok)
  }

  /** The end points `gfb_line` passes on: each clamped to the inclusive clip range. */
  function ClampLine(s: Surface, x1: int, y1: int, x2: int, y2: int): (r: (int, int, int, int))
    ensures s.clip.w >= 0 && s.clip.h >= 0 ==> LineAccepted(s, r.0, r.1, r.2, r.3)
    ensures LineAccepted(s, x1, y1, x2, y2) ==> r == (x1, y1, x2, y2)
  {
    (Clampi(x1, s.clip.x, s.clip.x + s.clip.w), Clampi(y1, s.clip.y, s.clip.y + s.clip.h),
     Clampi(x2, s.clip.x, s.clip.x + s.clip.w), Clampi(y2, s.clip.y, s.clip.y + s.clip.h))
  }

  /**
   * `gfb_line`: refuses a NULL surface, clamps the end points into the
   * inclusive clip ranges and calls the table's `line`. On a clip with
   * non-negative size the soft line therefore never refuses.
   */
  function GfbLine(h: Option<Surface>, x1: int, y1: int, x2: int, y2: int, c: Color): (o: Outcome)
    requires h.Some? ==> Wf(h.value)
    requires h.Some? && SoftDrawing(h.value) ==>
      var e := ClampLine(h.value, x1, y1, x2, y2); LineSafe(h.value, e.0, e.1, e.2, e.3)
    ensures h.None? ==> o == Done(None, EArgument)
    ensures h.Some? ==> var e := ClampLine(h.value, x1, y1, x2, y2); o == LineVia(h.value, e.0, e.1, e.2, e.3, c)
    ensures h.Some? && h.value.clip.w >= 0 && h.value.clip.h >= 0 && o.Done? ==> o.rc == Ok
  {
    match h
    case None => Done(None, EArgument)
    case Some(s) =>
      var e := ClampLine(s, x1, y1, x2, y2);
      LineVia(s, e.0, e.1, e.2, e.3, c)
  }

  /**
   * Clamping to the inclusive range lets a line reach column `clip.x +
   * clip.w`: on a surface whose clip is the whole surface, a line from
   * the left edge towards any point right of the surface is clamped to end
   * at column `w`, which the soft line accepts although it is not a pixel
   * of the surface.
   */
  lemma ClampedLineLeavesSurface(s: Surface, y: int, x2: int)
    requires Wf(s) && s.clip == Rect(0, 0, s.w, s.h) && 0 <= y < s.h && x2 >= s.w
    ensures var e := ClampLine(s, 0, y, x2, y);
      && e == (0, y, s.w, y)
      && LineAccepted(s, e.0, e.1, e.2, e.3)
      && LinePoints(e.0, e.1, e.2, e.3)[s.w] == Point(s.w, y)
      && !OnSurface(s, s.w, y)
  {
    LineEnds(0, y, s.w, y);
  }

  /** The end points clamped to the half-open clip, the range every other primitive treats as the clip. */
  function ClampLineIntended(s: Surface, x1: int, y1: int, x2: int, y2: int): (r: (int, int, int, int))
  {
    (Clampi(x1, s.clip.x, s.clip.x + s.clip.w - 1), Clampi(y1, s.clip.y, s.clip.y + s.clip.h - 1),
     Clampi(x2, s.clip.x, s.clip.x + s.clip.w - 1), Clampi(y2, s.clip.y, s.clip.y + s.clip.h - 1))
  }

  /**
   * `gfb_line` clamping into the half-open clip: with a non-empty clip that
   * lies inside the surface, every line it draws stays on the surface and
   * is accepted.
   */
  function GfbLineIntended(h: Option<Surface>, x1: int, y1: int, x2: int, y2: int, c: Color): (o: Outcome)
    requires h.Some? ==> Wf(h.value) && ClipInside(h.value) && h.value.clip.w >= 1 && h.value.clip.h >= 1
    ensures h.None? ==> o == Done(None, EArgument)
    ensures h.Some? ==>
      var e := ClampLineIntended(h.value, x1, y1, x2, y2);
      && InClip(h.value, e.0, e.1) && InClip(h.value, e.2, e.3)
      && AllOnSurface(h.value, LinePoints(e.0, e.1, e.2, e.3))
      && o == LineVia(h.value, e.0, e.1, e.2, e.3, c)
    ensures h.Some? && o.Done? ==> o.rc == Ok
  {
    match h
    case None => Done(None, EArgument)
    case Some(s) =>
      var e := ClampLineIntended(s, x1, y1, x2, y2);
      ClampIntendedInClip(s, x1, y1, x2, y2);
      LineOnSurface(s, e.0, e.1, e.2, e.3);
      LineVia(s, e.0, e.1, e.2, e.3, c)
  }

  /** Clamping into the half-open clip gives end points in the clip, on the surface and accepted. */
  lemma ClampIntendedInClip(s: Surface, x1: int, y1: int, x2: int, y2: int)
    requires ClipInside(s) && s.clip.w >= 1 && s.clip.h >= 1
    ensures var e := ClampLineIntended(s, x1, y1, x2, y2);
      && InClip(s, e.0, e.1) && InClip(s, e.2, e.3)
      && OnSurface(s, e.0, e.1) && OnSurface(s, e.2, e.3)
      && LineAccepted(s, e.0, e.1, e.2, e.3)
  {
  }

  // ---------------------------------------------------------------------
  // Rectangles.

  /** The four sides `gfb_soft_rectangle` draws, in its order: top, right, left, bottom. */
  function Sides(r: Rect): seq<(Point, Point)>
  {
    [(Point(r.x, r.y), Point(r.x + r.w, r.y)),
     (Point(r.x + r.w, r.y), Point(r.x + r.w, r.y + r.h)),
     (Point(r.x, r.y), Point(r.x, r.y + r.h)),
     (Point(r.x, r.y + r.h), Point(r.x + r.w, r.y + r.h))]
  }

  /**
   * Segments drawn one after the other, stopping at the first that is
   * refused: each is safe to draw if every earlier one was accepted.
   */
  predicate ChainSafe(s: Surface, segs: seq<(Point, Point)>)
    decreases |segs|
  {
    segs != [] ==>
      && LineSafe(s, segs[0].0.x, segs[0].0.y, segs[0].1.x, segs[0].1.y)
      && (LineAccepted(s, segs[0].0.x, segs[0].0.y, segs[0].1.x, segs[0].1.y) ==> ChainSafe(s, segs[1..]))
  }

  /** Every segment is accepted. */
  predicate AllAccepted(s: Surface, segs: seq<(Point, Point)>)
    decreases |segs|
  {
    segs != [] ==>
      LineAccepted(s, segs[0].0.x, segs[0].0.y, segs[0].1.x, segs[0].1.y) && AllAccepted(s, segs[1..])
  }

  /** Whether a chain is safe and accepted depends on the surface's geometry, not its pixels. */
  lemma ChainIgnoresMemory(s: Surface, m: seq<Color>, segs: seq<(Point, Point)>)
    ensures ChainSafe(s.(memory := m), segs) == ChainSafe(s, segs)
    ensures AllAccepted(s.(memory := m), segs) == AllAccepted(s, segs)
    decreases |segs|
  {
    if segs != [] {
      ChainIgnoresMemory(s, m, segs[1..]);
    }
  }

  /** The pixels of the segments, in drawing order. */
  function Trace(segs: seq<(Point, Point)>): seq<Point>
  {
    if segs == [] then []
    else LinePoints(segs[0].0.x, segs[0].0.y, segs[0].1.x, segs[0].1.y) + Trace(segs[1..])
  }

  /**
   * Drawing segments with `op->line`, returning at the first result that is
   * not `GFB_OK`: refused segments return `GFB_EARGUMENT`, otherwise all are
   * plotted in order and the result is `GFB_OK`.
   */
  function DrawChain(s: Surface, segs: seq<(Point, Point)>, c: Color): (o: Outcome)
    requires Wf(s) && (SoftDrawing(s) ==> ChainSafe(s, segs))
    ensures o.Done? ==> o.surface.Some? && Wf(o.surface.value) && o.surface.value == s.(memory := o.surface.value.memory)
    ensures o.Done? ==> (o.rc == Ok <==> AllAccepted(s, segs))
    ensures o.Done? && o.rc != Ok ==> o.rc == EArgument
    ensures s.ops.line == Soft && s.ops.putpixel == Soft ==> o.Done?
    decreases |segs|
  {
    if segs == [] then Done(Some(s), Ok)
    else
      var p, q := segs[0].0, segs[0].1;
      var first := LineVia(s, p.x, p.y, q.x, q.y, c);
      if first.Delegated? then Delegated
      else if first.rc != Ok then first
      else
        var s' := first.surface.value;
        ChainIgnoresMemory(s, s'.memory, segs[1..]);
        DrawChain(s', segs[1..], c)
  }

  /**
   * With software `line` and `putpixel`, a chain whose segments are all
   * accepted is exactly the pixels of its segments plotted in order.
   */
  lemma {:induction false} DrawChainPlots(s: Surface, segs: seq<(Point, Point)>, c: Color)
    requires Wf(s) && ChainSafe(s, segs) && AllAccepted(s, segs)
    requires s.ops.line == Soft && s.ops.putpixel == Soft
    ensures AllOnSurface(s, Trace(segs))
    ensures DrawChain(s, segs, c) == Done(Some(PlotAll(s, Trace(segs), c)), Ok)
    decreases |segs|
  {
    if segs != [] {
      var rest := segs[1..];
      var s' := FirstSegment(s, segs, c);
      ChainIgnoresMemory(s, s'.memory, rest);
      assert DrawChain(s, segs, c) == DrawChain(s', rest, c);
      DrawChainPlots(s', rest, c);
      TraceStep(s, s', segs, c);
    }
  }

  /** The first segment of a chain, accepted and drawn by software, plots its pixels. */
  lemma FirstSegment(s: Surface, segs: seq<(Point, Point)>, c: Color) returns (s': Surface)
    requires Wf(s) && segs != [] && s.ops.line == Soft && s.ops.putpixel == Soft
    requires LineSafe(s, segs[0].0.x, segs[0].0.y, segs[0].1.x, segs[0].1.y)
    requires LineAccepted(s, segs[0].0.x, segs[0].0.y, segs[0].1.x, segs[0].1.y)
    ensures AllOnSurface(s, LinePoints(segs[0].0.x, segs[0].0.y, segs[0].1.x, segs[0].1.y))
    ensures s' == PlotAll(s, LinePoints(segs[0].0.x, segs[0].0.y, segs[0].1.x, segs[0].1.y), c)
    ensures LineVia(s, segs[0].0.x, segs[0].0.y, segs[0].1.x, segs[0].1.y, c) == Done(Some(s'), Ok)
  {
    var p, q := segs[0].0, segs[0].1;
    LineOnSurface(s, p.x, p.y, q.x, q.y);
    s' := PlotAll(s, LinePoints(p.x, p.y, q.x, q.y), c);
  }

  /**
   * Once the first segment is plotted, plotting the rest of the trace
   * completes plotting the whole trace.
   */
  lemma TraceStep(s: Surface, s': Surface, segs: seq<(Point, Point)>, c: Color)
    requires Wf(s) && segs != []
    requires AllOnSurface(s, LinePoints(segs[0].0.x, segs[0].0.y, segs[0].1.x, segs[0].1.y))
    requires s' == PlotAll(s, LinePoints(segs[0].0.x, segs[0].0.y, segs[0].1.x, segs[0].1.y), c)
    requires AllOnSurface(s', Trace(segs[1..]))
    ensures AllOnSurface(s, Trace(segs))
    ensures PlotAll(s, Trace(segs), c) == PlotAll(s', Trace(segs[1..]), c)
  {
    var first := LinePoints(segs[0].0.x, segs[0].0.y, segs[0].1.x, segs[0].1.y);
    var rest := Trace(segs[1..]);
    assert Trace(segs) == first + rest;
    assert AllOnSurface(s, rest) by {
      forall k | 0 <= k < |rest| ensures OnSurface(s, rest[k].x, rest[k].y) {
        assert OnSurface(s', rest[k].x, rest[k].y);
      }
    }
    PlotAllAppend(s, first, rest, c);
  }

  /** Plotting a concatenation plots the first part, then the second. */
  lemma {:induction false} PlotAllAppend(s: Surface, a: seq<Point>, b: seq<Point>, c: Color)
    requires Wf(s) && AllOnSurface(s, a) && AllOnSurface(s, b)
    ensures AllOnSurface(s, a + b)
    ensures AllOnSurface(PlotAll(s, a, c), b)
    ensures PlotAll(s, a + b, c) == PlotAll(PlotAll(s, a, c), b, c)
    decreases |a|
  {
    if a != [] {
      var s' := SoftPutPixel(s, a[0].x, a[0].y, c).0;
      assert (a + b)[1..] == a[1..] + b;
      assert AllOnSurface(s', a[1..]) by {
        forall k | 0 <= k < |a[1..]| ensures OnSurface(s', a[1..][k].x, a[1..][k].y) {
          assert a[1..][k] == a[k + 1];
        }
      }
      PlotAllAppend(s', a[1..], b, c);
    } else {
      assert a + b == b;
    }
  }

  /**
   * `gfb_soft_rectangle`: the four sides as lines, returning the first
   * result that is not `GFB_OK`.
   */
  function SoftRectangle(s: Surface, r: Rect, c: Color): (o: Outcome)
    requires Wf(s) && (SoftDrawing(s) ==> ChainSafe(s, Sides(r)))
    ensures o.Done? ==> (o.rc == Ok <==> AllAccepted(s, Sides(r)))
    ensures o.Done? && o.rc != Ok ==> o.rc == EArgument
    ensures s.ops.line == Soft && s.ops.putpixel == Soft ==> o.Done?
  {
    DrawChain(s, Sides(r), c)
  }

  /** With software routines, an accepted rectangle is its four sides plotted in order. */
  lemma SoftRectanglePlots(s: Surface, r: Rect, c: Color)
    requires Wf(s) && ChainSafe(s, Sides(r)) && AllAccepted(s, Sides(r))
    requires s.ops.line == Soft && s.ops.putpixel == Soft
    ensures AllOnSurface(s, Trace(Sides(r)))
    ensures SoftRectangle(s, r, c) == Done(Some(PlotAll(s, Trace(Sides(r)), c)), Ok)
  {
    DrawChainPlots(s, Sides(r), c);
  }

  /** Element `u` of a concatenation comes from the first part or, shifted, from the second. */
  lemma AppendAt<T>(a: seq<T>, b: seq<T>, u: int)
    requires 0 <= u < |a| + |b|
    ensures u < |a| ==> (a + b)[u] == a[u]
    ensures u >= |a| ==> (a + b)[u] == b[u - |a|]
  {
  }

  /** Pixel `t` of segment `i` appears in the trace of the chain. */
  lemma {:induction false} TraceHas(segs: seq<(Point, Point)>, i: int, t: int) returns (u: int)
    requires 0 <= i < |segs| && 0 <= t < |LinePoints(segs[i].0.x, segs[i].0.y, segs[i].1.x, segs[i].1.y)|
    ensures 0 <= u < |Trace(segs)| && Trace(segs)[u] == LinePoints(segs[i].0.x, segs[i].0.y, segs[i].1.x, segs[i].1.y)[t]
    decreases i
  {
    var first := LinePoints(segs[0].0.x, segs[0].0.y, segs[0].1.x, segs[0].1.y);
    var rest := Trace(segs[1..]);
    assert Trace(segs) == first + rest;
    if i == 0 {
      u := t;
      AppendAt(first, rest, u);
    } else {
      assert segs[1..][i - 1] == segs[i];
      var u' := TraceHas(segs[1..], i - 1, t);
      u := |first| + u';
      AppendAt(first, rest, u);
    }
  }

  /**
   * With software routines and every segment accepted, each pixel of each
   * segment ends up holding the stored colour.
   */
  lemma ChainPixel(s: Surface, segs: seq<(Point, Point)>, c: Color, i: int, t: int, px: int, py: int)
    requires Wf(s) && ChainSafe(s, segs) && AllAccepted(s, segs)
    requires s.ops.line == Soft && s.ops.putpixel == Soft
    requires 0 <= i < |segs| && 0 <= t < |LinePoints(segs[i].0.x, segs[i].0.y, segs[i].1.x, segs[i].1.y)|
    requires LinePoints(segs[i].0.x, segs[i].0.y, segs[i].1.x, segs[i].1.y)[t] == Point(px, py)
    ensures OnSurface(s, px, py)
    ensures var o := DrawChain(s, segs, c);
      && o.Done? && o.surface.Some?
      && 0 <= Slot(s, s.back, px, py) < |o.surface.value.memory|
      && o.surface.value.memory[Slot(s, s.back, px, py)] == Store(c, Bpp(s))
  {
    var pts := Trace(segs);
    DrawChainPlots(s, segs, c);
    var u := TraceHas(segs, i, t);
    PlotAllEffect(s, pts, c);
    var m := PlotAll(s, pts, c).memory;
    assert m[Slot(s, s.back, pts[u].x, pts[u].y)] == Store(c, Bpp(s));
  }

  /**
   * The outline of an accepted rectangle: every pixel of its top and
   * bottom rows from `x` to `x + w` and of its left and right columns from
   * `y` to `y + h` holds the stored colour.
   */
  lemma RectangleOutline(s: Surface, r: Rect, c: Color, px: int, py: int)
    requires Wf(s) && ChainSafe(s, Sides(r)) && AllAccepted(s, Sides(r))
    requires s.ops.line == Soft && s.ops.putpixel == Soft
    requires r.w >= 0 && r.h >= 0
    requires (r.x <= px <= r.x + r.w && (py == r.y || py == r.y + r.h))
          || (r.y <= py <= r.y + r.h && (px == r.x || px == r.x + r.w))
    ensures OnSurface(s, px, py)
    ensures var o := SoftRectangle(s, r, c);
      && o.Done? && o.surface.Some? && 0 <= Slot(s, s.back, px, py) < |o.surface.value.memory|
      && o.surface.value.memory[Slot(s, s.back, px, py)] == Store(c, Bpp(s))
  {
    SidesOutline(s, r, c, px, py);
  }

  /** `RectangleOutline` for the chain of the four sides. */
  lemma SidesOutline(s: Surface, r: Rect, c: Color, px: int, py: int)
    requires Wf(s) && ChainSafe(s, Sides(r)) && AllAccepted(s, Sides(r))
    requires s.ops.line == Soft && s.ops.putpixel == Soft
    requires r.w >= 0 && r.h >= 0
    requires (r.x <= px <= r.x + r.w && (py == r.y || py == r.y + r.h))
          || (r.y <= py <= r.y + r.h && (px == r.x || px == r.x + r.w))
    ensures OnSurface(s, px, py)
    ensures var o := DrawChain(s, Sides(r), c);
      && o.Done? && o.surface.Some? && 0 <= Slot(s, s.back, px, py) < |o.surface.value.memory|
      && o.surface.value.memory[Slot(s, s.back, px, py)] == Store(c, Bpp(s))
  {
    var sides := Sides(r);
    var x0, y0, x1, y1 := r.x, r.y, r.x + r.w, r.y + r.h;
    if x0 <= px <= x1 && (py == y0 || py == y1) {
      HorizontalLine(x0, x1, py);
      assert LinePoints(x0, py, x1, py)[px - x0] == Point(px, py);
      if py == y0 {
        ChainPixel(s, sides, c, 0, px - x0, px, py);
      } else {
        ChainPixel(s, sides, c, 3, px - x0, px, py);
      }
    } else {
      VerticalLine(px, y0, y1);
      assert LinePoints(px, y0, px, y1)[py - y0] == Point(px, py);
      if px == x1 {
        ChainPixel(s, sides, c, 1, py - y0, px, py);
      } else {
        ChainPixel(s, sides, c, 2, py - y0, px, py);
      }
    }
  }

  /**
   * `gfb_rectangle`: refuses a NULL surface; draws the given rectangle
   * clipped with `gfb_cliprect`, or the clip rectangle itself.
   */
  function GfbRectangle(h: Option<Surface>, r: Option<Rect>, c: Color): (o: Outcome)
    requires h.Some? ==> Wf(h.value)
    requires h.Some? && h.value.ops.rectangle == Soft && SoftDrawing(h.value) ==>
      ChainSafe(h.value, Sides(if r.Some? then ClipRect(r.value, h.value.clip) else h.value.clip))
    ensures h.None? ==> o == Done(None, EArgument)
    ensures h.Some? && h.value.ops.rectangle == Device ==> o == Delegated
    ensures h.Some? && h.value.ops.rectangle == Soft ==>
      o == SoftRectangle(h.value, if r.Some? then ClipRect(r.value, h.value.clip) else h.value.clip, c)
  {
    match h
    case None => Done(None, EArgument)
    case Some(s) =>
      var rect := if r.Some? then ClipRect(r.value, s.clip) else s.clip;
      if s.ops.rectangle == Device then Delegated else SoftRectangle(s, rect, c)
  }

  /**
   * `gfb_rectangle(s, NULL, c)` on a surface whose clip is the whole
   * surface, as after `gfb_surface_create`: the rectangle drawn is the clip,
   * and its top side runs to column `w`, which the soft line accepts (its
   * clip test is inclusive) although it is not a pixel of the surface, so
   * the last pixel of that side is written outside the pixel block.
   */
  lemma WholeClipRectangleLeavesSurface(s: Surface)
    requires Wf(s) && s.w >= 1 && s.h >= 1 && s.clip == Rect(0, 0, s.w, s.h)
    ensures Sides(s.clip)[0] == (Point(0, 0), Point(s.w, 0))
    ensures LineAccepted(s, 0, 0, s.w, 0)
    ensures |LinePoints(0, 0, s.w, 0)| == s.w + 1 && LinePoints(0, 0, s.w, 0)[s.w] == Point(s.w, 0)
    ensures !OnSurface(s, s.w, 0)
    ensures !ChainSafe(s, Sides(s.clip))
  {
    var pts := LinePoints(0, 0, s.w, 0);
    LineEnds(0, 0, s.w, 0);
    assert |pts| == s.w + 1;
    var segs := Sides(s.clip);
    assert segs[0] == (Point(0, 0), Point(s.w, 0));
    assert !LineSafe(s, 0, 0, s.w, 0);
  }

  /** The rectangle lies within the half-open clip. */
  predicate RectInClip(s: Surface, r: Rect)
  {
    s.clip.x <= r.x && s.clip.y <= r.y && Right(r) <= Right(s.clip) && Bottom(r) <= Bottom(s.clip)
  }

  /** The sides of the outline through the rectangle's last column `x + w - 1` and last row `y + h - 1`. */
  function InnerSides(r: Rect): seq<(Point, Point)>
  {
    Sides(Rect(r.x, r.y, r.w - 1, r.h - 1))
  }

  /**
   * The inner sides of any non-empty rectangle on the surface are safe to
   * draw, and all four are accepted when the rectangle lies in the clip.
   */
  lemma InnerSidesSafe(s: Surface, r: Rect)
    requires Wf(s) && r.w >= 1 && r.h >= 1
    requires 0 <= r.x && 0 <= r.y && Right(r) <= s.w && Bottom(r) <= s.h
    ensures ChainSafe(s, InnerSides(r))
    ensures RectInClip(s, r) ==> AllAccepted(s, InnerSides(r))
  {
    var segs := InnerSides(r);
    assert ChainSafe(s, segs[3..]);
    assert ChainSafe(s, segs[2..]) by { assert segs[2..][1..] == segs[3..]; }
    assert ChainSafe(s, segs[1..]) by { assert segs[1..][1..] == segs[2..]; }
    assert segs[1..] == segs[0..][1..];
    if RectInClip(s, r) {
      assert AllAccepted(s, segs[3..]);
      assert AllAccepted(s, segs[2..]) by { assert segs[2..][1..] == segs[3..]; }
      assert AllAccepted(s, segs[1..]) by { assert segs[1..][1..] == segs[2..]; }
    }
  }

  /**
   * The rectangle outline through the last column and row: nothing is
   * drawn for an empty rectangle, otherwise the four inner sides.
   */
  function SoftRectangleIntended(s: Surface, r: Rect, c: Color): (o: Outcome)
    requires Wf(s)
    requires r.w >= 1 && r.h >= 1 ==> 0 <= r.x && 0 <= r.y && Right(r) <= s.w && Bottom(r) <= s.h
    ensures r.w < 1 || r.h < 1 ==> o == Done(Some(s), Ok)
    ensures o.Done? ==> o.surface.Some? && o.surface.value == s.(memory := o.surface.value.memory)
    ensures RectInClip(s, r) && o.Done? ==> o.rc == Ok
    ensures s.ops.line == Soft && s.ops.putpixel == Soft ==> o.Done?
  {
    if r.w < 1 || r.h < 1 then Done(Some(s), Ok)
    else
      InnerSidesSafe(s, r);
      DrawChain(s, InnerSides(r), c)
  }

  /**
   * With software routines, every pixel of the outline of a non-empty
   * rectangle in the clip (its first and last rows and columns) is a pixel
   * of the rectangle and holds the stored colour.
   */
  lemma RectangleIntendedOutline(s: Surface, r: Rect, c: Color, px: int, py: int)
    requires Wf(s) && ClipInside(s) && RectInClip(s, r) && r.w >= 1 && r.h >= 1
    requires s.ops.line == Soft && s.ops.putpixel == Soft
    requires (r.x <= px < Right(r) && (py == r.y || py == Bottom(r) - 1))
          || (r.y <= py < Bottom(r) && (px == r.x || px == Right(r) - 1))
    ensures InRect(r, px, py) && OnSurface(s, px, py)
    ensures var o := SoftRectangleIntended(s, r, c);
      && o.Done? && o.surface.Some? && 0 <= Slot(s, s.back, px, py) < |o.surface.value.memory|
      && o.surface.value.memory[Slot(s, s.back, px, py)] == Store(c, Bpp(s))
  {
    InnerSidesSafe(s, r);
    InnerOutline(s, r, c, px, py);
    assert SoftRectangleIntended(s, r, c) == DrawChain(s, InnerSides(r), c);
  }

  /** `RectangleIntendedOutline` for the chain of the four inner sides. */
  lemma InnerOutline(s: Surface, r: Rect, c: Color, px: int, py: int)
    requires Wf(s) && r.w >= 1 && r.h >= 1 && ChainSafe(s, InnerSides(r)) && AllAccepted(s, InnerSides(r))
    requires s.ops.line == Soft && s.ops.putpixel == Soft
    requires (r.x <= px < Right(r) && (py == r.y || py == Bottom(r) - 1))
          || (r.y <= py < Bottom(r) && (px == r.x || px == Right(r) - 1))
    ensures InRect(r, px, py) && OnSurface(s, px, py)
    ensures var o := DrawChain(s, InnerSides(r), c);
      && o.Done? && o.surface.Some? && 0 <= Slot(s, s.back, px, py) < |o.surface.value.memory|
      && o.surface.value.memory[Slot(s, s.back, px, py)] == Store(c, Bpp(s))
  {
    SidesOutline(s, Rect(r.x, r.y, r.w - 1, r.h - 1), c, px, py);
  }

  /**
   * `gfb_rectangle` drawing the outline through the last column and row of
   * the intersection of the argument with the clip: with the clip inside
   * the surface every call succeeds and stays on the surface.
   */
  function GfbRectangleIntended(h: Option<Surface>, r: Option<Rect>, c: Color): (o: Outcome)
    requires h.Some? ==> Wf(h.value) && ClipInside(h.value)
    ensures h.None? ==> o == Done(None, EArgument)
    ensures h.Some? && h.value.ops.rectangle == Device ==> o == Delegated
    ensures h.Some? && h.value.ops.rectangle == Soft ==>
      var rect := if r.Some? then Intersect(r.value, h.value.clip) else h.value.clip;
      && (rect.w >= 1 && rect.h >= 1 ==> RectInClip(h.value, rect))
      && o == SoftRectangleIntended(h.value, rect, c)
    ensures h.Some? && o.Done? ==> o.rc == Ok
  {
    match h
    case None => Done(None, EArgument)
    case Some(s) =>
      var rect := if r.Some? then Intersect(r.value, s.clip) else s.clip;
      if s.ops.rectangle == Device then Delegated else SoftRectangleIntended(s, rect, c)
  }

  // ---------------------------------------------------------------------
  // Polygons.

  /** The `count - 1` segments between consecutive points; the last point is not joined to the first. */
  function Segments(pts: seq<Point>): (segs: seq<(Point, Point)>)
    ensures |segs| == if |pts| < 2 then 0 else |pts| - 1
    ensures forall i :: 0 <= i < |segs| ==> segs[i] == (pts[i], pts[i + 1])
  {
    if |pts| < 2 then [] else seq(|pts| - 1, i requires 0 <= i < |pts| - 1 => (pts[i], pts[i + 1]))
  }

  /**
   * `gfb_soft_polygon`: a line between each pair of consecutive points,
   * returning at the first result that is not `GFB_OK`. With `count == 0`
   * the `size_t` loop bound `count - 1` wraps around, so at least one
   * point is required.
   */
  function SoftPolygon(s: Surface, pts: seq<Point>, c: Color): (o: Outcome)
    requires |pts| >= 1
    requires Wf(s) && (SoftDrawing(s) ==> ChainSafe(s, Segments(pts)))
    ensures o.Done? ==> (o.rc == Ok <==> AllAccepted(s, Segments(pts)))
    ensures o.Done? && o.rc != Ok ==> o.rc == EArgument
    ensures s.ops.line == Soft && s.ops.putpixel == Soft ==> o.Done?
  {
    DrawChain(s, Segments(pts), c)
  }

  /** With software routines, an accepted polygon is its `count - 1` segments plotted in order. */
  lemma SoftPolygonPlots(s: Surface, pts: seq<Point>, c: Color)
    requires |pts| >= 1
    requires Wf(s) && ChainSafe(s, Segments(pts)) && AllAccepted(s, Segments(pts))
    requires s.ops.line == Soft && s.ops.putpixel == Soft
    ensures AllOnSurface(s, Trace(Segments(pts)))
    ensures SoftPolygon(s, pts, c) == Done(Some(PlotAll(s, Trace(Segments(pts)), c)), Ok)
  {
    DrawChainPlots(s, Segments(pts), c);
  }

  /**
   * The polygon is left open: when the first point does not recur, no
   * drawn segment ends at it, so the closing edge from the last point
   * back to the first is never drawn.
   */
  lemma PolygonIsOpen(pts: seq<Point>)
    requires |pts| >= 3
    ensures |Segments(pts)| == |pts| - 1
    ensures pts[0] !in pts[1..] ==> forall k :: 0 <= k < |Segments(pts)| ==> Segments(pts)[k].1 != pts[0]
    ensures pts[0] !in pts[1..] ==> (pts[|pts| - 1], pts[0]) !in Segments(pts)
  {
    if pts[0] !in pts[1..] {
      forall k | 0 <= k < |Segments(pts)|
        ensures Segments(pts)[k].1 != pts[0]
      {
        assert Segments(pts)[k].1 == pts[1..][k];
      }
    }
  }

  /**
   * `gfb_polygon`: refuses a NULL surface, a NULL point array and fewer
   * than three points; otherwise calls the table's `polygon`.
   */
  function GfbPolygon(h: Option<Surface>, pts: Option<seq<Point>>, c: Color): (o: Outcome)
    requires h.Some? ==> Wf(h.value)
    requires h.Some? && pts.Some? && |pts.value| >= 3 && h.value.ops.polygon == Soft && SoftDrawing(h.value) ==>
      ChainSafe(h.value, Segments(pts.value))
    ensures h.None? || pts.None? || |pts.value| < 3 ==> o == Done(h, EArgument)
    ensures h.Some? && pts.Some? && |pts.value| >= 3 && h.value.ops.polygon == Device ==> o == Delegated
    ensures h.Some? && pts.Some? && |pts.value| >= 3 && h.value.ops.polygon == Soft ==>
      o == SoftPolygon(h.value, pts.value, c)
  {
    if h.None? || pts.None? || |pts.value| < 3 then Done(h, EArgument)
    else if h.value.ops.polygon == Device then Delegated
    else SoftPolygon(h.value, pts.value, c)
  }
}
