/**
 * Integer helpers and rectangle clipping of libgfb (the `gfb_mini`,
 * `gfb_maxi`, `gfb_clampi`, `gfb_inside`, `gfb_outside` and `gfb_round4`
 * helpers of the header, and the file-local `gfb_cliprect`).
 *
 * C `int` is modelled as unbounded `int`; overflow is not modelled.
 */
module Geometry {

  /** A 2-D position (`gfb_point_t`). */
  datatype Point = Point(x: int, y: int)

  /** A rectangle (`gfb_rect_t`): top-left corner and extent in pixels. */
  datatype Rect = Rect(x: int, y: int, w: int, h: int)

  /** `gfb_mini`: the smaller of two integers. */
  function Mini(a: int, b: int): (r: int)
    ensures r <= a && r <= b
    ensures r == a || r == b
  {
    if a < b then a else b
  }

  /** `gfb_maxi`: the larger of two integers. */
  function Maxi(a: int, b: int): (r: int)
    ensures r >= a && r >= b
    ensures r == a || r == b
  {
    if a > b then a else b
  }

  /**
   * `gfb_clampi`: the macro tests `high` first, so with `low > high` it
   * still yields a value (`high` or `low` or `x`); only `low <= high`
   * gives a value inside the interval.
   */
  function Clampi(x: int, low: int, high: int): (r: int)
    ensures low <= high ==> low <= r <= high
    ensures low <= x <= high ==> r == x
    ensures x > high ==> r == high
    ensures x <= high && x < low ==> r == low
  {
    if x > high then high else if x < low then low else x
  }

  /** Clamping twice is clamping once. */
  lemma ClampiIdempotent(x: int, low: int, high: int)
    requires low <= high
    ensures Clampi(Clampi(x, low, high), low, high) == Clampi(x, low, high)
  {
  }

  /** `gfb_inside`: `a <= x <= b`, both ends inclusive. */
  predicate Inside(x: int, a: int, b: int)
  {
    x >= a && x <= b
  }

  /** `gfb_outside`: written independently in the header, it is the exact negation of `Inside`. */
  predicate Outside(x: int, a: int, b: int): (r: bool)
    ensures r <==> !Inside(x, a, b)
  {
    x < a || x > b
  }

  /**
   * `gfb_round4(n)`, `(n + 3) & ~3`, on the unsigned 32-bit values it is
   * applied to (BMP row sizes): the least multiple of four that is at
   * least `n`.
   */
  function Round4(n: bv32): (r: bv32)
    requires n <= 0xFFFF_FFFC
    ensures r % 4 == 0
    ensures n <= r && r - n < 4
  {
    (n + 3) & !3
  }

  /** The right edge `x + w` of a rectangle, one past its last column. */
  function Right(r: Rect): int { r.x + r.w }

  /** The bottom edge `y + h` of a rectangle, one past its last row. */
  function Bottom(r: Rect): int { r.y + r.h }

  /**
   * `gfb_cliprect(prect1, prect2)`: the corner of `r1` is clamped into the
   * closed range `[r2.x, r2.x + r2.w]`, but the extent is computed from the
   * UNCLAMPED corner, `min(r1.w, (r2.x + r2.w) - r1.x)`. (The NULL-pointer
   * branch returning the zero rectangle is never reached: every caller
   * passes the addresses of two rectangles.)
   */
  function ClipRect(r1: Rect, r2: Rect): (r: Rect)
    ensures r2.w >= 0 ==> r2.x <= r.x <= Right(r2)
    ensures r2.h >= 0 ==> r2.y <= r.y <= Bottom(r2)
    ensures r.w <= r1.w && r.h <= r1.h
    // Starting inside the container, the result is the exact intersection.
    ensures r2.x <= r1.x <= Right(r2) ==> r.x == r1.x && Right(r) == Mini(Right(r1), Right(r2))
    ensures r2.y <= r1.y <= Bottom(r2) ==> r.y == r1.y && Bottom(r) == Mini(Bottom(r1), Bottom(r2))
  {
    Rect(Clampi(r1.x, r2.x, r2.x + r2.w),
         Clampi(r1.y, r2.y, r2.y + r2.h),
         Mini(r1.w, (r2.x + r2.w) - r1.x),
         Mini(r1.h, (r2.y + r2.h) - r1.y))
  }

  /** Whether `(x, y)` lies in the half-open area `[x, x+w) x [y, y+h)` of `r`. */
  predicate InRect(r: Rect, x: int, y: int)
  {
    r.x <= x < Right(r) && r.y <= y < Bottom(r)
  }

  /**
   * Clipping never produces a pixel outside the container when the corner
   * starts inside it: every pixel of the result lies in both rectangles.
   */
  lemma ClipRectInsideBoth(r1: Rect, r2: Rect, x: int, y: int)
    requires r2.x <= r1.x <= Right(r2) && r2.y <= r1.y <= Bottom(r2)
    requires InRect(ClipRect(r1, r2), x, y)
    ensures InRect(r1, x, y) && InRect(r2, x, y)
  {
  }

  /**
   * A rectangle whose corner lies right of the container clips to a
   * NEGATIVE width: the extent is taken from the unclamped corner.
   */
  lemma ClipRectWidthNegative(r1: Rect, r2: Rect)
    requires r1.x > Right(r2) && r1.w > 0
    ensures ClipRect(r1, r2).w < 0
    ensures ClipRect(r1, r2).x == Right(r2)
  {
  }

  /**
   * A rectangle starting left of the container is moved to the container's
   * edge but keeps the width measured from its own corner, so the result is
   * `r1` shifted right by the overhang: its last column lies beyond `r1`,
   * and when `r1` ends before the container starts none of the result is in
   * `r1` at all. For the container (0,0,100,100) and the rectangle
   * (-10,0,5,1) the result is (0,0,5,1), while `r1` covers only columns
   * -10..-6.
   */
  lemma ClipRectShiftsLeftOverhang(r1: Rect, r2: Rect)
    requires r2.w >= 0 && r1.x < r2.x && 0 < r1.w <= Right(r2) - r1.x
    requires r1.h > 0 && r2.y <= r1.y < Bottom(r2)
    ensures ClipRect(r1, r2).x == r2.x && ClipRect(r1, r2).w == r1.w
    ensures Right(ClipRect(r1, r2)) == Right(r1) + (r2.x - r1.x)
    ensures InRect(ClipRect(r1, r2), Right(ClipRect(r1, r2)) - 1, r1.y)
    ensures !InRect(r1, Right(ClipRect(r1, r2)) - 1, r1.y)
    ensures Right(r1) <= r2.x ==> forall px, py :: InRect(ClipRect(r1, r2), px, py) ==> !InRect(r1, px, py)
  {
    assert Clampi(r1.x, r2.x, Right(r2)) == r2.x;
    assert Clampi(r1.y, r2.y, Bottom(r2)) == r1.y;
  }

  /**
   * The intersection of two rectangles, with zero width or height when they
   * do not overlap: the rectangle `gfb_cliprect` evidently means to compute.
   */
  function Intersect(r1: Rect, r2: Rect): (r: Rect)
    ensures r.w >= 0 && r.h >= 0
    ensures forall px, py :: InRect(r, px, py) <==> InRect(r1, px, py) && InRect(r2, px, py)
    ensures r.w > 0 && r.h > 0 ==> r2.x <= r.x && r2.y <= r.y && Right(r) <= Right(r2) && Bottom(r) <= Bottom(r2)
  {
    var x, y := Maxi(r1.x, r2.x), Maxi(r1.y, r2.y);
    Rect(x, y, Maxi(Mini(Right(r1), Right(r2)) - x, 0), Maxi(Mini(Bottom(r1), Bottom(r2)) - y, 0))
  }

  /**
   * When `r1` starts inside the closed range of `r2` in both directions,
   * `gfb_cliprect` computes the intersection.
   */
  lemma ClipRectIsIntersection(r1: Rect, r2: Rect)
    requires r2.x <= r1.x <= Right(r2) && r2.y <= r1.y <= Bottom(r2)
    requires r1.w >= 0 && r1.h >= 0
    ensures ClipRect(r1, r2) == Intersect(r1, r2)
  {
    assert Clampi(r1.x, r2.x, Right(r2)) == r1.x;
    assert Clampi(r1.y, r2.y, Bottom(r2)) == r1.y;
  }
}
