/**
 * Circles: the midpoint walk shared by `gfb_soft_circle` and
 * `gfb_soft_filledcircle`, the two soft routines, and the `gfb_circle` /
 * `gfb_filledcircle` wrappers.
 *
 * The walk visits one octant, `(X, Y)` with `Y` counting up from 0 and `X`
 * from the radius down, while `Y <= X`; each offset is mirrored into the
 * eight octants.
 */
module Circles {
  import opened Geometry
  import opened PixelFormats
  import opened Surfaces
  import opened Pixels
  import opened Arithmetic
  import opened Lines

  // ---------------------------------------------------------------------
  // The midpoint walk.

  /** How far `X^2 + Y^2` is from `r^2`. */
  function Excess(r: int, x: int, y: int): int
  {
    x * x + y * y - r * r
  }

  /**
   * The walk from `(X, Y)` with decision value `d`: while `Y <= X`, emit
   * `(X, Y)`, step `Y`, and step `X` back when the decision value is
   * positive.
   */
  function MidpointFrom(x: int, y: int, d: int): seq<(int, int)>
    decreases if y <= x then x - y + 1 else 0
  {
    if y > x then []
    else
      var y' := y + 1;
      [(x, y)] + (if d <= 0 then MidpointFrom(x, y', d + 2 * y' + 1)
                  else MidpointFrom(x - 1, y', d + 2 * (y' - (x - 1)) + 1))
  }

  /** The offsets of one octant of the circle of radius `radius`: `X = radius`, `Y = 0`, decision `1 - X`. */
  function Midpoint(radius: int): seq<(int, int)>
  {
    MidpointFrom(radius, 0, 1 - radius)
  }

  /**
   * `X` is the column nearest the circle on row `Y`: `X^2 + Y^2` is within
   * `X` of `r^2`, and once the radius is at least 1, `r^2 - Y^2` lies in
   * the half-open band `[X^2 - X, X^2 + X)`.
   */
  predicate NearCircle(r: int, x: int, y: int)
  {
    -x <= Excess(r, x, y) <= x && (r >= 1 ==> -x < Excess(r, x, y))
  }

  /** What the walk keeps at every step: the decision value tracks the excess, and the current point is near the circle. */
  predicate WalkInv(r: int, x: int, y: int, d: int)
  {
    && 0 <= y && x <= r
    && d == Excess(r, x, y) - x + 2 * y + 1
    && (y <= x ==> NearCircle(r, x, y))
  }

  /** One step of the walk keeps `WalkInv`. */
  lemma MidpointStep(r: int, x: int, y: int, d: int)
    requires WalkInv(r, x, y, d) && y <= x
    ensures d <= 0 ==> WalkInv(r, x, y + 1, d + 2 * (y + 1) + 1)
    ensures d > 0 ==> WalkInv(r, x - 1, y + 1, d + 2 * ((y + 1) - (x - 1)) + 1)
  {
    assert Excess(r, x, y + 1) == Excess(r, x, y) + 2 * y + 1;
    assert Excess(r, x - 1, y + 1) == Excess(r, x, y) + 2 * y + 2 - 2 * x;
  }

  /**
   * The offsets `o` of a walk that starts on row `y` with column at most
   * `x`: rows count up one per offset, `0 <= Y <= X <= x`, every offset is
   * near the circle, the column falls by 0 or 1 per offset, and the last
   * offset is on or next to the diagonal.
   */
  predicate Shaped(r: int, x: int, y: int, o: seq<(int, int)>)
  {
    && (forall k :: 0 <= k < |o| ==> o[k].1 == y + k && 0 <= o[k].1 <= o[k].0 <= x && NearCircle(r, o[k].0, o[k].1))
    && (forall k :: 0 <= k < |o| - 1 ==> o[k].0 - o[k + 1].0 in {0, 1})
    && (|o| > 0 ==> o[|o| - 1].0 - o[|o| - 1].1 <= 1)
  }

  /** Putting a near offset in front of a shaped walk that continues from it keeps the shape. */
  lemma ShapedCons(r: int, x: int, y: int, x': int, rest: seq<(int, int)>)
    requires 0 <= y <= x && NearCircle(r, x, y) && x - x' in {0, 1}
    requires Shaped(r, x', y + 1, rest)
    requires rest == [] ==> y + 1 > x'
    requires rest != [] ==> rest[0].0 == x'
    ensures Shaped(r, x, y, [(x, y)] + rest)
  {
    var o := [(x, y)] + rest;
    forall k | 1 <= k < |o| ensures o[k] == rest[k - 1] {
    }
  }

  /** The state after emitting `(x, y)`: the rest of the walk continues from it and it keeps `WalkInv`. */
  lemma MidpointNext(r: int, x: int, y: int, d: int) returns (x': int, d': int)
    requires WalkInv(r, x, y, d) && y <= x
    ensures x - x' in {0, 1} && WalkInv(r, x', y + 1, d')
    ensures MidpointFrom(x, y, d) == [(x, y)] + MidpointFrom(x', y + 1, d')
  {
    MidpointStep(r, x, y, d);
    if d <= 0 {
      x', d' := x, d + 2 * (y + 1) + 1;
    } else {
      x', d' := x - 1, d + 2 * ((y + 1) - (x - 1)) + 1;
    }
  }

  /**
   * Every offset of the walk from a state satisfying `WalkInv`: `Y` counts
   * up from the start one per offset, `0 <= Y <= X`, `X` never grows and
   * falls by at most one per offset, every offset is near the circle, and
   * the last one is on or next to the diagonal.
   */
  lemma {:induction false} MidpointFromShape(r: int, x: int, y: int, d: int)
    requires WalkInv(r, x, y, d)
    ensures y <= x <==> |MidpointFrom(x, y, d)| > 0
    ensures |MidpointFrom(x, y, d)| > 0 ==> MidpointFrom(x, y, d)[0].0 == x
    ensures Shaped(r, x, y, MidpointFrom(x, y, d))
    decreases if y <= x then x - y + 1 else 0
  {
    if y <= x {
      var x', d' := MidpointNext(r, x, y, d);
      MidpointFromShape(r, x', y + 1, d');
      ShapedCons(r, x, y, x', MidpointFrom(x', y + 1, d'));
    }
  }

  /**
   * The walk of a circle of radius `r >= 0` starts at `(r, 0)` and is
   * `Shaped` from there: offset `k` is on row `Y = k`, with
   * `0 <= Y <= X <= r` and `X` the column nearest the circle on that row;
   * `X` never grows, falls by at most one per row, and the walk stops on
   * reaching the diagonal. A negative radius draws nothing.
   */
  lemma MidpointShape(r: int)
    ensures r < 0 ==> Midpoint(r) == []
    ensures r >= 0 ==> var o := Midpoint(r);
      |o| > 0 && o[0] == (r, 0) && Shaped(r, r, 0, o)
  {
    if r >= 0 {
      assert Excess(r, r, 0) == 0;
      assert WalkInv(r, r, 0, 1 - r);
      MidpointFromShape(r, r, 0, 1 - r);
      var o := Midpoint(r);
      assert o == MidpointFrom(r, 0, 1 - r);
      assert o[0].0 == r && o[0].1 == 0;
    }
  }

  /** `X^2 - X` grows with `X >= 1`. */
  lemma BandMono(a: int, b: int)
    requires 1 <= a <= b
    ensures a * a - a <= b * b - b
  {
    MulMono(a - 1, b - 1, a);
    MulMono(a, b, b - 1);
  }

  /**
   * The bands of distinct columns do not overlap: for `1 <= a < b`, all of
   * `[a^2 - a, a^2 + a)` lies below `b^2 - b`.
   */
  lemma BandsDisjoint(a: int, b: int)
    requires 1 <= a < b
    ensures a * a + a <= b * b - b
  {
    BandMono(a + 1, b);
    assert (a + 1) * (a + 1) - (a + 1) == a * a + a;
  }

  /** On each row at most one column `X >= 1` is near the circle. */
  lemma NearColumnUnique(r: int, a: int, b: int, y: int)
    requires r >= 1 && 1 <= a && 1 <= b
    requires NearCircle(r, a, y) && NearCircle(r, b, y)
    ensures a == b
  {
    if a < b {
      BandsDisjoint(a, b);
    } else if b < a {
      BandsDisjoint(b, a);
    }
  }

  /**
   * The midpoint walk picks, on each of its rows, the one column near the
   * circle: any column `X >= 1` near the circle on that row is the walk's.
   */
  lemma WalkColumnIsNearColumn(r: int, k: int, col: int)
    requires r >= 1 && 0 <= k < |Midpoint(r)| && col >= 1
    requires NearCircle(r, col, Midpoint(r)[k].1)
    ensures Midpoint(r)[k].0 == col
  {
    MidpointShape(r);
    var o := Midpoint(r);
    assert NearCircle(r, o[k].0, o[k].1);
    NearColumnUnique(r, o[k].0, col, o[k].1);
  }

  // ---------------------------------------------------------------------
  // Mirroring into eight octants.

  /** The eight points `gfb_soft_circle` puts for one offset, in its order. */
  function Mirror8(x: int, y: int, o: (int, int)): seq<Point>
  {
    var (ox, oy) := o;
    [Point(ox + x, oy + y), Point(oy + x, ox + y), Point(-ox + x, oy + y), Point(-oy + x, ox + y),
     Point(-ox + x, -oy + y), Point(-oy + x, -ox + y), Point(ox + x, -oy + y), Point(oy + x, -ox + y)]
  }

  /** The same eight points in the order of `gfb_soft_filledcircle`'s second walk. */
  function Mirror8Filled(x: int, y: int, o: (int, int)): seq<Point>
  {
    var (ox, oy) := o;
    [Point(ox + x, oy + y), Point(-ox + x, oy + y), Point(oy + x, ox + y), Point(-oy + x, ox + y),
     Point(-ox + x, -oy + y), Point(ox + x, -oy + y), Point(-oy + x, -ox + y), Point(oy + x, -ox + y)]
  }

  /** The four chords `gfb_soft_filledcircle`'s first walk draws for one offset, in its order. */
  function Chords4(x: int, y: int, o: (int, int)): seq<(Point, Point)>
  {
    var (ox, oy) := o;
    [(Point(-ox + x, oy + y), Point(ox + x, oy + y)),
     (Point(-oy + x, ox + y), Point(oy + x, ox + y)),
     (Point(-ox + x, -oy + y), Point(ox + x, -oy + y)),
     (Point(-oy + x, -ox + y), Point(oy + x, -ox + y))]
  }

  /** Blocks laid end to end. */
  function Concat<T>(blocks: seq<seq<T>>): seq<T>
  {
    if blocks == [] then [] else blocks[0] + Concat(blocks[1..])
  }

  /** Element `j` of block `k` sits at `n * k + j` when every block has `n` elements. */
  lemma {:induction false} ConcatAt<T>(blocks: seq<seq<T>>, n: nat, k: int, j: int)
    requires forall b :: 0 <= b < |blocks| ==> |blocks[b]| == n
    requires 0 <= k < |blocks| && 0 <= j < n
    ensures |Concat(blocks)| == n * |blocks|
    ensures n * k + j < |Concat(blocks)| && Concat(blocks)[n * k + j] == blocks[k][j]
    decreases k
  {
    ConcatLength(blocks, n);
    if k > 0 {
      ConcatAt(blocks[1..], n, k - 1, j);
      assert n * k + j == n + (n * (k - 1) + j);
    }
  }

  /** The length of blocks of `n` laid end to end. */
  lemma {:induction false} ConcatLength<T>(blocks: seq<seq<T>>, n: nat)
    requires forall b :: 0 <= b < |blocks| ==> |blocks[b]| == n
    ensures |Concat(blocks)| == n * |blocks|
    decreases |blocks|
  {
    if blocks != [] {
      ConcatLength(blocks[1..], n);
      assert n * |blocks| == n + n * (|blocks| - 1);
    }
  }

  /** Every element of blocks laid end to end comes from some block. */
  lemma ConcatSplit<T>(blocks: seq<seq<T>>, n: nat, i: int) returns (k: int, j: int)
    requires n > 0 && forall b :: 0 <= b < |blocks| ==> |blocks[b]| == n
    requires 0 <= i < |Concat(blocks)|
    ensures 0 <= k < |blocks| && 0 <= j < n && Concat(blocks)[i] == blocks[k][j]
  {
    ConcatLength(blocks, n);
    DivSplit(i, n, |blocks|);
    k, j := i / n, i % n;
    ConcatAt(blocks, n, k, j);
  }

  /** The mirror images of each offset, one block per offset. */
  function MirrorBlocks(x: int, y: int, offs: seq<(int, int)>): (b: seq<seq<Point>>)
    ensures |b| == |offs| && forall k :: 0 <= k < |b| ==> |b[k]| == 8 && b[k] == Mirror8(x, y, offs[k])
  {
    seq(|offs|, k requires 0 <= k < |offs| => Mirror8(x, y, offs[k]))
  }

  /** The second walk's points of each offset, one block per offset. */
  function OutlineBlocks(x: int, y: int, offs: seq<(int, int)>): (b: seq<seq<Point>>)
    ensures |b| == |offs| && forall k :: 0 <= k < |b| ==> |b[k]| == 8 && b[k] == Mirror8Filled(x, y, offs[k])
  {
    seq(|offs|, k requires 0 <= k < |offs| => Mirror8Filled(x, y, offs[k]))
  }

  /** The chords of each offset, one block per offset. */
  function ChordBlocks(x: int, y: int, offs: seq<(int, int)>): (b: seq<seq<(Point, Point)>>)
    ensures |b| == |offs| && forall k :: 0 <= k < |b| ==> |b[k]| == 4 && b[k] == Chords4(x, y, offs[k])
  {
    seq(|offs|, k requires 0 <= k < |offs| => Chords4(x, y, offs[k]))
  }

  /** The eight-way points of every offset, in drawing order. */
  function CirclePoints(x: int, y: int, offs: seq<(int, int)>): seq<Point>
  {
    Concat(MirrorBlocks(x, y, offs))
  }

  /** The second walk's points of `gfb_soft_filledcircle`, in drawing order. */
  function OutlinePoints(x: int, y: int, offs: seq<(int, int)>): seq<Point>
  {
    Concat(OutlineBlocks(x, y, offs))
  }

  /** The chords of every offset, in drawing order. */
  function ChordSegments(x: int, y: int, offs: seq<(int, int)>): seq<(Point, Point)>
  {
    Concat(ChordBlocks(x, y, offs))
  }

  /** Point `i` of the second walk is one of the mirror images of some offset. */
  lemma OutlinePointFrom(x: int, y: int, offs: seq<(int, int)>, i: int) returns (k: int, j: int)
    requires 0 <= i < |OutlinePoints(x, y, offs)|
    ensures 0 <= k < |offs| && 0 <= j < 8 && OutlinePoints(x, y, offs)[i] == Mirror8Filled(x, y, offs[k])[j]
  {
    k, j := ConcatSplit(OutlineBlocks(x, y, offs), 8, i);
  }

  /** Chord `i` is one of the four chords of some offset. */
  lemma ChordFrom(x: int, y: int, offs: seq<(int, int)>, i: int) returns (k: int, j: int)
    requires 0 <= i < |ChordSegments(x, y, offs)|
    ensures 0 <= k < |offs| && 0 <= j < 4 && ChordSegments(x, y, offs)[i] == Chords4(x, y, offs[k])[j]
  {
    k, j := ConcatSplit(ChordBlocks(x, y, offs), 4, i);
  }

  /** Pixel `i` of the circle is one of the eight mirror images of some offset of the walk. */
  lemma CirclePointFrom(x: int, y: int, offs: seq<(int, int)>, i: int) returns (k: int, j: int)
    requires 0 <= i < |CirclePoints(x, y, offs)|
    ensures 0 <= k < |offs| && 0 <= j < 8 && CirclePoints(x, y, offs)[i] == Mirror8(x, y, offs[k])[j]
  {
    k, j := ConcatSplit(MirrorBlocks(x, y, offs), 8, i);
  }

  /** Every mirror image of every offset of the walk is a pixel of the circle. */
  lemma CirclePointOf(x: int, y: int, offs: seq<(int, int)>, k: int, j: int)
    requires 0 <= k < |offs| && 0 <= j < 8
    ensures Mirror8(x, y, offs[k])[j] in CirclePoints(x, y, offs)
  {
    ConcatAt(MirrorBlocks(x, y, offs), 8, k, j);
  }

  /**
   * Each mirror image of an offset `(X, Y)` with `0 <= Y <= X` is at the
   * same distance from the centre, and its larger coordinate is `X`.
   */
  lemma MirrorDistance(x: int, y: int, o: (int, int), j: int)
    requires 0 <= o.1 <= o.0 && 0 <= j < 8
    ensures var p := Mirror8(x, y, o)[j];
      var a, b := p.x - x, p.y - y;
      && a * a + b * b == o.0 * o.0 + o.1 * o.1
      && Maxi(Abs(a), Abs(b)) == o.0
  {
    var (ox, oy) := o;
    assert (-ox) * (-ox) == ox * ox && (-oy) * (-oy) == oy * oy;
  }

  /** The images of offset `(a, b)` from `(x, y)` under the eight symmetries of the square: `(±a, ±b)` and `(±b, ±a)`. */
  function Images(x: int, y: int, a: int, b: int): seq<Point>
  {
    [Point(x + a, y + b), Point(x - a, y + b), Point(x + a, y - b), Point(x - a, y - b),
     Point(x + b, y + a), Point(x - b, y + a), Point(x + b, y - a), Point(x - b, y - a)]
  }

  /** The eight mirror images of an offset are closed under the symmetries of the square. */
  lemma MirrorClosed(x: int, y: int, o: (int, int), j: int)
    requires 0 <= j < 8
    ensures var m := Mirror8(x, y, o);
      forall q :: q in Images(x, y, m[j].x - x, m[j].y - y) ==> q in m
  {
  }

  /** All eight mirror images of every offset of the walk are pixels of the circle. */
  lemma MirrorInCircle(x: int, y: int, offs: seq<(int, int)>, k: int)
    requires 0 <= k < |offs|
    ensures forall q :: q in Mirror8(x, y, offs[k]) ==> q in CirclePoints(x, y, offs)
  {
    forall j | 0 <= j < 8 ensures Mirror8(x, y, offs[k])[j] in CirclePoints(x, y, offs) {
      CirclePointOf(x, y, offs, k, j);
    }
  }

  /**
   * Every pixel of the circle of radius `r >= 1` centred on `(x, y)` lies
   * within `r` of the centre on both axes and is near the circle: with
   * `(a, b)` its offset from the centre and `M = max(|a|, |b|)`,
   * `-M < a^2 + b^2 - r^2 <= M`.
   */
  lemma CircleNear(x: int, y: int, r: int, i: int)
    requires r >= 1 && 0 <= i < |CirclePoints(x, y, Midpoint(r))|
    ensures var p := CirclePoints(x, y, Midpoint(r))[i];
      var a, b := p.x - x, p.y - y;
      var big := Maxi(Abs(a), Abs(b));
      && Abs(a) <= r && Abs(b) <= r
      && -big < a * a + b * b - r * r <= big
  {
    var offs := Midpoint(r);
    MidpointShape(r);
    var k, j := CirclePointFrom(x, y, offs, i);
    assert NearCircle(r, offs[k].0, offs[k].1);
    MirrorDistance(x, y, offs[k], j);
  }

  /**
   * The circle is symmetric under the eight symmetries of the square: if
   * the pixel at offset `(a, b)` from the centre is drawn, so are those at
   * `(±a, ±b)` and `(±b, ±a)`.
   */
  lemma CircleSymmetric(x: int, y: int, r: int, i: int)
    requires 0 <= i < |CirclePoints(x, y, Midpoint(r))|
    ensures var pts := CirclePoints(x, y, Midpoint(r));
      forall q :: q in Images(x, y, pts[i].x - x, pts[i].y - y) ==> q in pts
  {
    var offs := Midpoint(r);
    var pts := CirclePoints(x, y, offs);
    var k, j := CirclePointFrom(x, y, offs, i);
    var m := Mirror8(x, y, offs[k]);
    assert pts[i] == m[j];
    MirrorClosed(x, y, offs[k], j);
    MirrorInCircle(x, y, offs, k);
  }

  // ---------------------------------------------------------------------
  // gfb_soft_circle and gfb_circle.

  /** The points of `pts` that lie in `clip`, in order. */
  function InClipPoints(clip: Rect, pts: seq<Point>): (r: seq<Point>)
    ensures forall q :: q in r <==> q in pts && InRect(clip, q.x, q.y)
    ensures |r| <= |pts|
  {
    if pts == [] then []
    else (if InRect(clip, pts[0].x, pts[0].y) then [pts[0]] else []) + InClipPoints(clip, pts[1..])
  }

  /** `gfb_putpixel` is safe on every point: those it does not refuse are pixels of the surface. */
  predicate ClipPointsSafe(s: Surface, pts: seq<Point>)
  {
    forall k :: 0 <= k < |pts| ==> InClip(s, pts[k].x, pts[k].y) ==> OnSurface(s, pts[k].x, pts[k].y)
  }

  /**
   * `gfb_putpixel` on each point in turn, its result ignored: points
   * outside the clip are refused and change nothing.
   */
  function PutEach(s: Surface, pts: seq<Point>, c: Color): (o: Outcome)
    requires Wf(s) && (s.ops.putpixel == Soft ==> ClipPointsSafe(s, pts))
    ensures o.Done? ==> o.rc == Ok && o.surface.Some? && Wf(o.surface.value) && o.surface.value == s.(memory := o.surface.value.memory)
    ensures s.ops.putpixel == Soft ==> o.Done?
    decreases |pts|
  {
    if pts == [] then Done(Some(s), Ok)
    else
      var first := PutPixel(Some(s), pts[0].x, pts[0].y, c);
      if first.Delegated? then Delegated
      else
        var s' := first.surface.value;
        assert s'.ops.putpixel == Soft ==> ClipPointsSafe(s', pts[1..]) by {
          if s'.ops.putpixel == Soft {
            forall k | 0 <= k < |pts[1..]| ensures InClip(s', pts[1..][k].x, pts[1..][k].y) ==> OnSurface(s', pts[1..][k].x, pts[1..][k].y) {
              assert pts[1..][k] == pts[k + 1];
            }
          }
        }
        PutEach(s', pts[1..], c)
  }

  /** With a software `putpixel`, putting each point is plotting exactly the points inside the clip. */
  lemma {:induction false} PutEachPlots(s: Surface, pts: seq<Point>, c: Color)
    requires Wf(s) && ClipPointsSafe(s, pts) && s.ops.putpixel == Soft
    ensures AllOnSurface(s, InClipPoints(s.clip, pts))
    ensures PutEach(s, pts, c) == Done(Some(PlotAll(s, InClipPoints(s.clip, pts), c)), Ok)
    decreases |pts|
  {
    if pts != [] {
      var p := pts[0];
      var rest := pts[1..];
      assert ClipPointsSafe(s, rest) by {
        forall k | 0 <= k < |rest| ensures InClip(s, rest[k].x, rest[k].y) ==> OnSurface(s, rest[k].x, rest[k].y) {
          assert rest[k] == pts[k + 1];
        }
      }
      if InClip(s, p.x, p.y) {
        var s' := SoftPutPixel(s, p.x, p.y, c).0;
        assert ClipPointsSafe(s', rest);
        PutEachPlots(s', rest, c);
        var kept := InClipPoints(s.clip, pts);
        assert kept == [p] + InClipPoints(s.clip, rest);
        assert kept[1..] == InClipPoints(s.clip, rest);
        assert AllOnSurface(s, kept) by {
          forall k | 0 <= k < |kept| ensures OnSurface(s, kept[k].x, kept[k].y) {
            if k > 0 {
              assert kept[k] == InClipPoints(s.clip, rest)[k - 1];
            }
          }
        }
      } else {
        PutEachPlots(s, rest, c);
        assert InClipPoints(s.clip, pts) == InClipPoints(s.clip, rest);
      }
    }
  }

  /**
   * `gfb_soft_circle`: the eight mirror images of every offset of the walk,
   * each through `gfb_putpixel` (which refuses points outside the clip);
   * always `GFB_OK`.
   */
  function SoftCircle(s: Surface, x: int, y: int, radius: int, c: Color): (o: Outcome)
    requires Wf(s) && (s.ops.putpixel == Soft ==> ClipPointsSafe(s, CirclePoints(x, y, Midpoint(radius))))
    ensures o.Done? ==> o.rc == Ok && o.surface.Some? && o.surface.value == s.(memory := o.surface.value.memory)
    ensures s.ops.putpixel == Soft ==> o.Done?
  {
    PutEach(s, CirclePoints(x, y, Midpoint(radius)), c)
  }

  /**
   * What `gfb_soft_circle` leaves behind with a software `putpixel`: each
   * circle pixel inside the clip holds the stored colour, and every slot
   * that is not one of those pixels is unchanged.
   */
  lemma SoftCircleEffect(s: Surface, x: int, y: int, radius: int, c: Color)
    requires Wf(s) && ClipPointsSafe(s, CirclePoints(x, y, Midpoint(radius))) && s.ops.putpixel == Soft
    ensures var pts := CirclePoints(x, y, Midpoint(radius));
      var kept := InClipPoints(s.clip, pts);
      var m := SoftCircle(s, x, y, radius, c).surface.value.memory;
      && |m| == |s.memory|
      && (forall k :: 0 <= k < |pts| && InClip(s, pts[k].x, pts[k].y) ==>
            0 <= Slot(s, s.back, pts[k].x, pts[k].y) < |m| && m[Slot(s, s.back, pts[k].x, pts[k].y)] == Store(c, Bpp(s)))
      && (forall i :: 0 <= i < |m| && i !in Slots(s, kept) ==> m[i] == s.memory[i])
  {
    var pts := CirclePoints(x, y, Midpoint(radius));
    var kept := InClipPoints(s.clip, pts);
    PutEachPlots(s, pts, c);
    PlotAllEffect(s, kept, c);
    forall k | 0 <= k < |pts| && InClip(s, pts[k].x, pts[k].y)
      ensures exists j :: 0 <= j < |kept| && kept[j] == pts[k]
    {
      assert pts[k] in kept;
    }
  }

  /** The bounding box `[x - r, x + r] x [y - r, y + r]` fits in the clip, as `gfb_circle` requires. */
  predicate BoxInClip(s: Surface, x: int, y: int, radius: int)
  {
    !(x - radius < s.clip.x || x + radius >= s.clip.x + s.clip.w
      || y - radius < s.clip.y || y + radius >= s.clip.y + s.clip.h)
  }

  /** A circle whose box passes `gfb_circle`'s check lies wholly inside the clip, so no pixel is refused. */
  lemma CircleInClip(s: Surface, x: int, y: int, radius: int)
    requires BoxInClip(s, x, y, radius)
    ensures forall q :: q in CirclePoints(x, y, Midpoint(radius)) ==> InClip(s, q.x, q.y)
    ensures InClipPoints(s.clip, CirclePoints(x, y, Midpoint(radius))) == CirclePoints(x, y, Midpoint(radius))
  {
    var pts := CirclePoints(x, y, Midpoint(radius));
    var offs := Midpoint(radius);
    MidpointShape(radius);
    forall i | 0 <= i < |pts| ensures InClip(s, pts[i].x, pts[i].y) {
      var k, j := CirclePointFrom(x, y, offs, i);
      MirrorInClip(s, x, y, radius, offs[k], j);
    }
    InClipAll(s.clip, pts);
  }

  /** Filtering keeps a sequence whose points all lie in the clip unchanged. */
  lemma {:induction false} InClipAll(clip: Rect, pts: seq<Point>)
    requires forall i :: 0 <= i < |pts| ==> InRect(clip, pts[i].x, pts[i].y)
    ensures InClipPoints(clip, pts) == pts
    decreases |pts|
  {
    if pts != [] {
      InClipAll(clip, pts[1..]);
    }
  }

  /**
   * `gfb_circle`: refuses a NULL surface and a circle whose bounding box
   * leaves the half-open clip; otherwise calls the table's `circle`.
   */
  function GfbCircle(h: Option<Surface>, x: int, y: int, radius: int, c: Color): (o: Outcome)
    requires h.Some? ==> Wf(h.value)
    requires h.Some? && h.value.ops.circle == Soft && BoxInClip(h.value, x, y, radius) && h.value.ops.putpixel == Soft ==>
      ClipPointsSafe(h.value, CirclePoints(x, y, Midpoint(radius)))
    ensures h.None? ==> o == Done(None, EArgument)
    ensures h.Some? && !BoxInClip(h.value, x, y, radius) ==> o == Done(h, EArgument)
    ensures h.Some? && BoxInClip(h.value, x, y, radius) && h.value.ops.circle == Device ==> o == Delegated
    ensures h.Some? && BoxInClip(h.value, x, y, radius) && h.value.ops.circle == Soft ==>
      o == SoftCircle(h.value, x, y, radius, c)
  {
    match h
    case None => Done(None, EArgument)
    case Some(s) =>
      if !BoxInClip(s, x, y, radius) then Done(h, EArgument)
      else if s.ops.circle == Device then Delegated
      else SoftCircle(s, x, y, radius, c)
  }

  // ---------------------------------------------------------------------
  // gfb_soft_filledcircle and gfb_filledcircle.

  /** Every chord is safe for `gfb_soft_line`. */
  predicate ChordsSafe(s: Surface, segs: seq<(Point, Point)>)
  {
    forall i :: 0 <= i < |segs| ==> LineSafe(s, segs[i].0.x, segs[i].0.y, segs[i].1.x, segs[i].1.y)
  }

  /**
   * `op->line` on each segment in turn, its result ignored: refused
   * segments change nothing and drawing goes on.
   */
  function LineEach(s: Surface, segs: seq<(Point, Point)>, c: Color): (o: Outcome)
    requires Wf(s) && (SoftDrawing(s) ==> ChordsSafe(s, segs))
    ensures o.Done? ==> o.rc == Ok && o.surface.Some? && Wf(o.surface.value) && o.surface.value == s.(memory := o.surface.value.memory)
    ensures s.ops.line == Soft && s.ops.putpixel == Soft ==> o.Done?
    decreases |segs|
  {
    if segs == [] then Done(Some(s), Ok)
    else
      var first := LineVia(s, segs[0].0.x, segs[0].0.y, segs[0].1.x, segs[0].1.y, c);
      if first.Delegated? then Delegated
      else
        var s' := first.surface.value;
        assert SoftDrawing(s') ==> ChordsSafe(s', segs[1..]) by {
          if SoftDrawing(s') {
            forall i | 0 <= i < |segs[1..]|
              ensures LineSafe(s', segs[1..][i].0.x, segs[1..][i].0.y, segs[1..][i].1.x, segs[1..][i].1.y)
            {
              assert segs[1..][i] == segs[i + 1];
            }
          }
        }
        LineEach(s', segs[1..], c)
  }

  /** With software routines and every segment accepted, drawing each is plotting all their pixels in order. */
  lemma {:induction false} LineEachPlots(s: Surface, segs: seq<(Point, Point)>, c: Color)
    requires Wf(s) && ChordsSafe(s, segs) && AllAccepted(s, segs)
    requires s.ops.line == Soft && s.ops.putpixel == Soft
    ensures AllOnSurface(s, Trace(segs))
    ensures LineEach(s, segs, c) == Done(Some(PlotAll(s, Trace(segs), c)), Ok)
    decreases |segs|
  {
    if segs != [] {
      var rest := segs[1..];
      assert LineSafe(s, segs[0].0.x, segs[0].0.y, segs[0].1.x, segs[0].1.y);
      var s' := FirstSegment(s, segs, c);
      ChainIgnoresMemory(s, s'.memory, rest);
      assert ChordsSafe(s', rest) by {
        forall i | 0 <= i < |rest| ensures LineSafe(s', rest[i].0.x, rest[i].0.y, rest[i].1.x, rest[i].1.y) {
          assert rest[i] == segs[i + 1];
        }
      }
      assert LineEach(s, segs, c) == LineEach(s', rest, c);
      LineEachPlots(s', rest, c);
      TraceStep(s, s', segs, c);
    }
  }

  /**
   * `op->putpixel` on each point with no clip check: the software routine
   * plots them all; a device routine takes over as soon as there is one.
   */
  function PutEachUnchecked(s: Surface, pts: seq<Point>, c: Color): (o: Outcome)
    requires Wf(s) && (s.ops.putpixel == Soft ==> AllOnSurface(s, pts))
    ensures s.ops.putpixel == Soft ==> o == Done(Some(PlotAll(s, pts, c)), Ok)
    ensures s.ops.putpixel == Device ==> (o.Done? <==> pts == [])
  {
    if pts == [] then Done(Some(s), Ok)
    else if s.ops.putpixel == Device then Delegated
    else Done(Some(PlotAll(s, pts, c)), Ok)
  }

  /**
   * `gfb_soft_filledcircle`: a first walk draws four horizontal chords per
   * offset in the fill colour `colorb` with the table's `line` (results
   * ignored), then a second walk puts the eight mirror images of every
   * offset in `colorf` with the table's `putpixel`, unchecked; always
   * `GFB_OK`.
   */
  function SoftFilledCircle(s: Surface, x: int, y: int, radius: int, colorf: Color, colorb: Color): (o: Outcome)
    requires Wf(s) && (SoftDrawing(s) ==> ChordsSafe(s, ChordSegments(x, y, Midpoint(radius))))
    requires s.ops.putpixel == Soft ==> AllOnSurface(s, OutlinePoints(x, y, Midpoint(radius)))
    ensures o.Done? ==> o.rc == Ok && o.surface.Some? && o.surface.value == s.(memory := o.surface.value.memory)
    ensures s.ops.line == Soft && s.ops.putpixel == Soft ==> o.Done?
  {
    var offs := Midpoint(radius);
    var first := LineEach(s, ChordSegments(x, y, offs), colorb);
    if first.Delegated? then Delegated
    else
      var s' := first.surface.value;
      assert s'.ops.putpixel == Soft ==> AllOnSurface(s', OutlinePoints(x, y, offs));
      PutEachUnchecked(s', OutlinePoints(x, y, offs), colorf)
  }

  /** Two pixels of a surface share a slot exactly when they are the same pixel. */
  lemma SlotInjective(s: Surface, base: int, x1: int, y1: int, x2: int, y2: int)
    requires OnSurface(s, x1, y1) && OnSurface(s, x2, y2)
    ensures Slot(s, base, x1, y1) == Slot(s, base, x2, y2) <==> x1 == x2 && y1 == y2
  {
    DivUnique(y1 * s.w + x1, s.w, y1, x1);
    DivUnique(y2 * s.w + x2, s.w, y2, x2);
  }

  /** A pixel that is not among `pts` does not share a slot with any of them. */
  lemma NotPlotted(s: Surface, pts: seq<Point>, px: int, py: int)
    requires AllOnSurface(s, pts) && OnSurface(s, px, py) && Point(px, py) !in pts
    ensures Slot(s, s.back, px, py) !in Slots(s, pts)
  {
    forall k | 0 <= k < |pts| ensures Slot(s, s.back, pts[k].x, pts[k].y) != Slot(s, s.back, px, py) {
      SlotInjective(s, s.back, pts[k].x, pts[k].y, px, py);
    }
  }

  /**
   * Plotting `first` in `cb` and then `second` in `cf`: a pixel of `first`
   * ends up holding `cf` if `second` has it and `cb` otherwise.
   */
  lemma TwoPassPixel(s: Surface, first: seq<Point>, second: seq<Point>, cb: Color, cf: Color, u: int)
    requires Wf(s) && AllOnSurface(s, first) && AllOnSurface(s, second) && 0 <= u < |first|
    ensures var p, m := first[u], PlotAll(PlotAll(s, first, cb), second, cf).memory;
      && OnSurface(s, p.x, p.y) && 0 <= Slot(s, s.back, p.x, p.y) < |m|
      && m[Slot(s, s.back, p.x, p.y)] == Store(if p in second then cf else cb, Bpp(s))
  {
    var p := first[u];
    var q := Slot(s, s.back, p.x, p.y);
    var s1 := PlotAll(s, first, cb);
    PlotAllSetsAt(s, first, cb, u);
    assert s1.w == s.w && s1.h == s.h && s1.back == s.back && Bpp(s1) == Bpp(s);
    assert AllOnSurface(s1, second);
    assert OnSurface(s, p.x, p.y);
    var m := PlotAll(s1, second, cf).memory;
    if p in second {
      var k :| 0 <= k < |second| && second[k] == p;
      PlotAllSetsAt(s1, second, cf, k);
      assert Slot(s1, s1.back, second[k].x, second[k].y) == q;
      assert m[q] == Store(cf, Bpp(s));
    } else {
      NotPlotted(s1, second, p.x, p.y);
      PlotAllKeepsAt(s1, second, cf, q);
      assert m[q] == Store(cb, Bpp(s));
    }
  }

  /**
   * What `gfb_soft_filledcircle` leaves behind with software routines and
   * every chord accepted: each pixel of each chord holds `colorf` if the
   * second walk put it and `colorb` otherwise.
   */
  lemma FilledCircleEffect(s: Surface, x: int, y: int, radius: int, colorf: Color, colorb: Color, i: int, t: int)
    requires Wf(s) && s.ops.line == Soft && s.ops.putpixel == Soft
    requires ChordsSafe(s, ChordSegments(x, y, Midpoint(radius))) && AllAccepted(s, ChordSegments(x, y, Midpoint(radius)))
    requires AllOnSurface(s, OutlinePoints(x, y, Midpoint(radius)))
    requires var segs := ChordSegments(x, y, Midpoint(radius));
      0 <= i < |segs| && 0 <= t < |LinePoints(segs[i].0.x, segs[i].0.y, segs[i].1.x, segs[i].1.y)|
    ensures var segs := ChordSegments(x, y, Midpoint(radius));
      var p := LinePoints(segs[i].0.x, segs[i].0.y, segs[i].1.x, segs[i].1.y)[t];
      var o := SoftFilledCircle(s, x, y, radius, colorf, colorb);
      && OnSurface(s, p.x, p.y) && o.Done? && o.surface.Some?
      && 0 <= Slot(s, s.back, p.x, p.y) < |o.surface.value.memory|
      && o.surface.value.memory[Slot(s, s.back, p.x, p.y)]
         == Store(if p in OutlinePoints(x, y, Midpoint(radius)) then colorf else colorb, Bpp(s))
  {
    var segs := ChordSegments(x, y, Midpoint(radius));
    var outline := OutlinePoints(x, y, Midpoint(radius));
    FilledCircleTwoPasses(s, x, y, radius, colorf, colorb);
    var u := TraceHas(segs, i, t);
    TwoPassPixel(s, Trace(segs), outline, colorb, colorf, u);
  }

  /** With software routines and every chord accepted, the two walks plot the chords, then the outline. */
  lemma FilledCircleTwoPasses(s: Surface, x: int, y: int, radius: int, colorf: Color, colorb: Color)
    requires Wf(s) && s.ops.line == Soft && s.ops.putpixel == Soft
    requires ChordsSafe(s, ChordSegments(x, y, Midpoint(radius))) && AllAccepted(s, ChordSegments(x, y, Midpoint(radius)))
    requires AllOnSurface(s, OutlinePoints(x, y, Midpoint(radius)))
    ensures AllOnSurface(s, Trace(ChordSegments(x, y, Midpoint(radius))))
    ensures var s1 := PlotAll(s, Trace(ChordSegments(x, y, Midpoint(radius))), colorb);
      && AllOnSurface(s1, OutlinePoints(x, y, Midpoint(radius)))
      && SoftFilledCircle(s, x, y, radius, colorf, colorb)
         == Done(Some(PlotAll(s1, OutlinePoints(x, y, Midpoint(radius)), colorf)), Ok)
  {
    var segs := ChordSegments(x, y, Midpoint(radius));
    LineEachPlots(s, segs, colorb);
    var s1 := PlotAll(s, Trace(segs), colorb);
    assert LineEach(s, segs, colorb) == Done(Some(s1), Ok);
  }

  /** The chords of one offset are horizontal, centred on `x` and symmetric. */
  lemma ChordsHorizontal(x: int, y: int, offs: seq<(int, int)>, i: int)
    requires 0 <= i < |ChordSegments(x, y, offs)|
    ensures var seg := ChordSegments(x, y, offs)[i];
      seg.0.y == seg.1.y && seg.0.x - x == -(seg.1.x - x)
  {
    var k, j := ChordFrom(x, y, offs, i);
  }

  /** Each chord of an offset inside the radius is accepted when the box passes the check. */
  lemma ChordAccepted(s: Surface, x: int, y: int, radius: int, o: (int, int), j: int)
    requires BoxInClip(s, x, y, radius) && 0 <= o.1 <= o.0 <= radius && 0 <= j < 4
    ensures var seg := Chords4(x, y, o)[j]; LineAccepted(s, seg.0.x, seg.0.y, seg.1.x, seg.1.y)
  {
  }

  /** Each mirror image of an offset inside the radius is in the clip when the box passes the check. */
  lemma MirrorInClip(s: Surface, x: int, y: int, radius: int, o: (int, int), j: int)
    requires BoxInClip(s, x, y, radius) && 0 <= o.1 <= o.0 <= radius && 0 <= j < 8
    ensures InClip(s, Mirror8(x, y, o)[j].x, Mirror8(x, y, o)[j].y)
    ensures InClip(s, Mirror8Filled(x, y, o)[j].x, Mirror8Filled(x, y, o)[j].y)
  {
  }

  /**
   * A filled circle whose box passes `gfb_filledcircle`'s check: every
   * chord is accepted and every outline point is in the clip.
   */
  lemma FilledCircleInClip(s: Surface, x: int, y: int, radius: int)
    requires BoxInClip(s, x, y, radius)
    ensures AllAccepted(s, ChordSegments(x, y, Midpoint(radius)))
    ensures forall q :: q in OutlinePoints(x, y, Midpoint(radius)) ==> InClip(s, q.x, q.y)
  {
    var offs := Midpoint(radius);
    var segs := ChordSegments(x, y, offs);
    var outline := OutlinePoints(x, y, offs);
    MidpointShape(radius);
    forall i | 0 <= i < |segs|
      ensures LineAccepted(s, segs[i].0.x, segs[i].0.y, segs[i].1.x, segs[i].1.y)
    {
      var k, j := ChordFrom(x, y, offs, i);
      ChordAccepted(s, x, y, radius, offs[k], j);
    }
    AcceptedFromEach(s, segs);
    forall i | 0 <= i < |outline| ensures InClip(s, outline[i].x, outline[i].y) {
      var k, j := OutlinePointFrom(x, y, offs, i);
      MirrorInClip(s, x, y, radius, offs[k], j);
    }
  }

  /** `AllAccepted` from acceptance of each segment. */
  lemma {:induction false} AcceptedFromEach(s: Surface, segs: seq<(Point, Point)>)
    requires forall i :: 0 <= i < |segs| ==> LineAccepted(s, segs[i].0.x, segs[i].0.y, segs[i].1.x, segs[i].1.y)
    ensures AllAccepted(s, segs)
    decreases |segs|
  {
    if segs != [] {
      assert forall i :: 0 <= i < |segs[1..]| ==> segs[1..][i] == segs[i + 1];
      AcceptedFromEach(s, segs[1..]);
    }
  }

  /**
   * `gfb_filledcircle`: refuses a NULL surface and a circle whose bounding
   * box leaves the half-open clip; otherwise calls the table's
   * `filledcircle`.
   */
  function GfbFilledCircle(h: Option<Surface>, x: int, y: int, radius: int, colorf: Color, colorb: Color): (o: Outcome)
    requires h.Some? ==> Wf(h.value)
    requires h.Some? && h.value.ops.filledCircle == Soft && BoxInClip(h.value, x, y, radius) ==>
      && (SoftDrawing(h.value) ==> ChordsSafe(h.value, ChordSegments(x, y, Midpoint(radius))))
      && (h.value.ops.putpixel == Soft ==> AllOnSurface(h.value, OutlinePoints(x, y, Midpoint(radius))))
    ensures h.None? || !BoxInClip(h.value, x, y, radius) ==> o == Done(h, EArgument)
    ensures h.Some? && BoxInClip(h.value, x, y, radius) && h.value.ops.filledCircle == Device ==> o == Delegated
    ensures h.Some? && BoxInClip(h.value, x, y, radius) && h.value.ops.filledCircle == Soft ==>
      o == SoftFilledCircle(h.value, x, y, radius, colorf, colorb)
  {
    if h.None? || !BoxInClip(h.value, x, y, radius) then Done(h, EArgument)
    else if h.value.ops.filledCircle == Device then Delegated
    else SoftFilledCircle(h.value, x, y, radius, colorf, colorb)
  }
}
