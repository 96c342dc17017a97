# libgfb core, modelled in Dafny

libgfb is a small software frame-buffer graphics library written in C. A
*surface* describes a block of pixel memory:

- its width, height and pitch;
- a pixel format;
- a clip rectangle, a colour key and a surface alpha;
- control flags;
- row and column offset tables;
- two pointers, `ppixels` (front) and `pbuffer` (back), into the block;
- an operation table (`gfb_devop_t`) that holds either the software
  routines or a device's accelerated ones.

Public entry points (`gfb_putpixel`, `gfb_blit`, `gfb_line`, …) check their
arguments and then dispatch through the surface's operation table. The
software routines draw pixels, lines, rectangles, circles and polygons, and
copy rectangles between surfaces with six blit strategies. `gfb_text`
decodes a UTF-8 string before handing it to a glyph renderer.

This project models that core as pure Dafny over immutable records:

- `geometry.dfy` (`Geometry`): the integer helpers of the header
  (`gfb_mini`, `gfb_maxi`, `gfb_clampi`, `gfb_inside`/`gfb_outside`,
  `gfb_round4`) and `gfb_cliprect`.
- `pixelformat.dfy` (`PixelFormats`): the five-entry format table, the
  pixel-encode macros, `gfb_maprgba`, and decoding by `(c & mask) >> shift`.
- `surface.dfy` (`Surfaces`): the surface record, return codes, flags and
  the operation table, plus create/destroy, the setters, `gfb_maprgba` on a
  handle, and flip.
- `pixels.dfy` (`Pixels`): the software and public put/get pixel routines,
  and `PlotAll`, a sequence of pixel writes that every drawing routine
  reduces to.
- `blit.dfy` (`Blit`): strategy selection, the per-pixel transfer of each
  strategy, the row/column walk that all six loops share, `gfb_soft_blit`
  and `gfb_blit`.
- `line.dfy` (`Lines`): the Bresenham line, the `gfb_line` wrapper with its
  endpoint clamping, rectangles and polygons.
- `circle.dfy` (`Circles`): the midpoint circle walk, the eight-way mirror,
  the outline circle and the filled circle.
- `fill.dfy` (`Fills`): the filled rectangle, clear and flood fill.
- `utf8.dfy` (`Utf8`): `utf8_get_next_char`, a reference UTF-8 encoder, and
  the decode-and-filter loop of `gfb_text`.
- `arithmetic.dfy` (`Arithmetic`): helper lemmas on integer multiplication
  and division.

Representation choices:

- A colour is a `bv32` and a channel a `bv8`.
- Pixel memory is a `seq<Color>` with one element per pixel slot of the
  whole `ppixelmemory` block. `front` and `back` are the pixel offsets of
  `ppixels` and `pbuffer` in it.
- A stored pixel keeps only its format's low `Bpp` bytes. This is the effect
  of the `memcpy` on a little-endian host.
- An operation-table slot is `Soft` or `Device`. A call that reaches a
  `Device` slot yields the outcome `Delegated`, because the device routine
  is not part of this model.
- The C code has no checks against memory overruns. Where it would read or
  write outside a C array (the pixel block, the font store, the static text
  buffer), which is undefined behaviour in C, the model states the in-bounds
  condition as a precondition. Everything the C code does check is modelled
  as a branch with its return code.

The code and its documentation disagree in nine places. The model follows
the code:

- `gfb_setcliprect` copies a caller's rectangle verbatim. It does not clamp
  it to the surface (`Surfaces.SetClipRectDoesNotClamp`).
- The blit reads and writes the front buffer `ppixels` of both surfaces,
  not the back buffer.
- A new surface's alpha is 0 (the descriptor comes from `calloc`), not
  opaque.
- `gfb_surface_create` is documented to set the handle to NULL and return
  `GFB_ERROR` on failure. The code returns `GFB_EARGUMENT` for bad arguments
  and leaves the handle alone (`Surfaces.Create`). It returns `GFB_ENOMEM`
  when an allocation fails, a case listed under "Left out".
- `gfb_blit` is documented to place the source at (0, 0) when the
  destination rectangle is NULL. The code uses the destination's clip
  rectangle (`Blit.GfbBlit`).
- `gfb_floodfill` returns `GFB_OK` even though the software flood fill
  returns `GFB_ENOTSUPPORTED` (`Fills.FloodFillHidesUnsupported`).
- `gfb_surface_destroy` is documented to free all memory a surface
  allocated. It frees the pixel block (only with `GFB_PREALLOCATE`) and the
  offset tables, but never the surface descriptor itself
  (`Surfaces.Destroy`).
- `gfb_getpixel` is documented to return an error code on failure. For a
  NULL surface or a point outside the clip it returns 0, which is `GFB_OK`
  (`Pixels.GetPixel`).
- `gfb_cliprect` is documented to return a rectangle inside the container,
  or a zero rectangle on failure. It clamps only the origin and computes the
  size from the unclamped origin, so a rectangle starting right of the
  container gets a negative width and one starting left of it is shifted
  rather than cut (`Geometry.ClipRectWidthNegative`,
  `Geometry.ClipRectShiftsLeftOverhang`).

## Model

| member | source | states |
|---|---|---|
| Geometry.Mini | src/libgfb.h:77 | the result is one of the two arguments and no greater than either |
| Geometry.Maxi | src/libgfb.h:69 | the result is one of the two arguments and no smaller than either |
| Geometry.Clampi | src/libgfb.h:79-80 | with low ≤ high the result lies in [low, high] and is x when x is already in range; above high it is high, below low it is low |
| Geometry.ClampiIdempotent | src/libgfb.h:79-80 | clamping an already clamped value changes nothing |
| Geometry.Outside | src/libgfb.h:60-61 | `gfb_outside` is exactly the negation of `gfb_inside` |
| Geometry.Round4 | src/libgfb.h:57-58 | the result is the least multiple of 4 that is at least n |
| Geometry.ClipRect | src/libgfb.c:71-85 | the clipped origin lies in the container's inclusive range, the size never grows, and a rectangle that starts inside the container is cut to the exact intersection |
| Geometry.ClipRectInsideBoth | src/libgfb.c:71-85 | for a rectangle starting inside the container, every point of the clipped rectangle lies in both inputs |
| Geometry.ClipRectWidthNegative | src/libgfb.c:71-85 | a rectangle that starts right of the container comes out with a negative width, because the width is computed from the unclamped x |
| Geometry.Intersect | src/libgfb.c:71-85 | a point is in the result exactly when it is in both rectangles, and a non-empty result lies in the container |
| Geometry.ClipRectIsIntersection | src/libgfb.c:71-85 | for a rectangle starting in the container's closed range, `gfb_cliprect` computes the intersection |
| Geometry.ClipRectShiftsLeftOverhang | src/libgfb.c:71-85 | for every rectangle starting left of the container (and ending inside it), the result starts at the container's edge with the original width, i.e. it is the rectangle shifted right by the overhang; its last column lies outside the original, and when the original ends before the container none of the result overlaps it |
| PixelFormats.FormatOf | src/libgfb.c:36-43 | each table row has the requested id, 2 to 4 bytes per pixel and shifts below 32 |
| PixelFormats.MapRgba | src/libgfb.c:1220-1235 | the ALPHA format maps to 0 and RGB32 always carries top byte 0xff |
| PixelFormats.TableWellFormed | src/libgfb.c:36-43 | the four channel masks of every format are pairwise disjoint |
| PixelFormats.DecodeIgnoresHighBytes | src/libgfb.c:36-43 | decoding a colour and decoding its low Bpp bytes give the same channels |
| PixelFormats.MapRgbaFitsPixel | src/libgfb.h:180-190 | every encoded colour fits in its format's bytes per pixel |
| PixelFormats.Argb32RoundTrip | src/libgfb.h:189-190 | decoding an ARGB32 encoding returns all four channels exactly |
| PixelFormats.Argb32Complete | src/libgfb.h:189-190 | every 32-bit colour is the ARGB32 encoding of its decoded channels |
| PixelFormats.Rgb24RoundTrip | src/libgfb.h:183-184 | decoding an RGB24 encoding returns red, green and blue exactly, with alpha 0 |
| PixelFormats.Rgb32RoundTrip | src/libgfb.h:186-187 | decoding an RGB32 encoding returns red, green and blue exactly, and the alpha argument has no effect |
| PixelFormats.Rgb16RoundTrip | src/libgfb.h:180-181 | decoding an RGB16 encoding returns the low 5 bits of each channel |
| PixelFormats.AlphaFormatMapsToZero | src/libgfb.c:1232-1233 | the ALPHA format decodes the mapped colour to all-zero channels |
| Surfaces.CodesDistinct | src/libgfb.h:133-141 | the return codes are distinct and only GFB_OK is non-negative |
| Surfaces.BuildOffsets | src/libgfb.c:900-994 | an offset table holds step·i at index i, one entry per row or column |
| Surfaces.Create | src/libgfb.c:900-994 | EARGUMENT exactly for a NULL handle, a negative size or missing memory without PREALLOCATE; on success the clip is the whole surface, pitch is w·Bpp, the offset tables are pitch·i and Bpp·i, the back buffer is w·h pixels on exactly when DOUBLEBUFFER is set, the op table is the supplied one or the software one, and preallocated memory is zero |
| Surfaces.Destroy | src/libgfb.c:996-1017 | the caller's handle ends up NULL, a NULL handle is left alone, pixel memory is released only with PREALLOCATE, and the surface descriptor itself is never released |
| Surfaces.DestroyIdempotent | src/libgfb.c:996-1017 | destroying twice leaves the same handle and releases nothing the second time |
| Surfaces.SetClipRect | src/libgfb.c:1238-1252 | NULL surface gives EARGUMENT; NULL rect resets the clip to the whole surface, any other rect is copied verbatim; nothing else changes |
| Surfaces.ResetClipInside | src/libgfb.c:1238-1252 | after a reset the clip lies inside the surface |
| Surfaces.SetClipRectDoesNotClamp | src/libgfb.h:475-484 | a rect larger than the surface is kept as given, so a point off the surface counts as inside the clip |
| Surfaces.SetAlpha | src/libgfb.c:1264-1271 | stores the alpha and switches on ALPHABLEND, keeping every other flag and field |
| Surfaces.SetColorKey | src/libgfb.c:1254-1262 | stores the key and switches on SRCCOLORKEY, keeping every other flag and field |
| Surfaces.FlagsDistinct | src/libgfb.h:126-131 | the four flags are distinct single bits |
| Surfaces.SettersCommute | src/libgfb.c:1254-1271 | after both setters both flags are on and PREALLOCATE and DOUBLEBUFFER are as before |
| Surfaces.MapRgbaOn | src/libgfb.c:1218-1236 | a NULL surface gives (gfb_color_t)GFB_EARGUMENT, otherwise the surface format's encoding |
| Surfaces.SoftFlip | src/libgfb.c:432-437 | swaps the front and back buffers, changes nothing else and returns OK |
| Surfaces.FlipInvolution | src/libgfb.c:432-437 | two flips restore the surface, flipping keeps both buffers inside the pixel block, and on a single-buffered surface a flip changes nothing |
| Surfaces.Flip | src/libgfb.c:1314-1317 | NULL gives EARGUMENT; otherwise the call goes to the surface's flip slot |
| Pixels.SlotInBuffer | src/libgfb.c:384-390 | a pixel on the surface lies inside its w·h buffer |
| Pixels.OffsetsAgree | src/libgfb.c:384-397 | the offset tables give the same byte offset as y·pitch + x·Bpp, which is pixel slot y·w + x |
| Pixels.SoftPutPixel | src/libgfb.c:384-390 | writes the colour, cut to Bpp bytes, to that pixel's back-buffer slot and nowhere else |
| Pixels.SoftGetPixel | src/libgfb.c:392-397 | reads that pixel's back-buffer slot, which holds at most Bpp bytes |
| Pixels.PutPixel | src/libgfb.c:1277-1280 | outside the half-open clip or with a NULL surface the result is EARGUMENT; inside, the call goes to the putpixel slot; the point must be on the surface only when that slot is the software routine |
| Pixels.GetPixel | src/libgfb.c:1282-1292 | outside the clip it returns 0 (GFB_OK) and leaves every output untouched; inside, it stores the decoded channels of the word the software routine reads in the outputs that are present, which for a point on the surface is the stored back-buffer pixel; only the software slot needs the word to be in memory |
| Pixels.PutThenGet | src/libgfb.c:1277-1292 | inside the clip, a put followed by a get yields the stored colour's decoded channels |
| Pixels.PlotAll | src/libgfb.c:384-390 | a sequence of soft pixel writes changes only pixel memory and keeps the surface well formed |
| Pixels.PlotAllEffect | src/libgfb.c:384-390 | after the writes each listed pixel holds the colour and every other slot is unchanged |
| Pixels.PlotAllKeeps | src/libgfb.c:384-390 | slots not addressed by any listed pixel are unchanged |
| Pixels.PlotAllSets | src/libgfb.c:384-390 | each listed pixel holds the colour afterwards |
| Blit.SelectStrategy | src/libgfb.c:399-430 | exactly one of the six strategies, chosen in the code's priority order from ALPHABLEND, amask ≠ 0, SRCCOLORKEY and equal Bpp |
| Blit.StrategyDependsOnFourInputs | src/libgfb.c:399-430 | surfaces that agree on those four inputs get the same strategy |
| Blit.ColorKeySkipsExactlyKeyed | src/libgfb.c:140-190 | in the two colour-key strategies a pixel is skipped exactly when it matches the key after the amask is OR-ed into both sides; the other strategies write every pixel |
| Blit.KeyIgnoresAlphaBits | src/libgfb.c:160 | alpha bits of the source colour do not affect the key test |
| Blit.BlendKeepsDestinationAlpha | src/libgfb.c:88-238 | the three blending strategies keep the destination's alpha in the ARGB32 format, and RGB destinations have alpha 0 before and after; in the ALPHA format every written pixel is 0 |
| Blit.BlendClearsAlphaFormat | src/libgfb.c:88-238 | a blend onto an ALPHA-format pixel with non-zero alpha writes 0 (unless the colour key skips it), destroying that alpha |
| Blit.ConvertIsDecodeThenEncode | src/libgfb.c:291-324 | a converting blit writes the destination format's encoding of the source's decoded channels |
| Blit.GuardedIsExtract | src/libgfb.c:291-324 | the convert loop's extraction of a channel is the plain mask-and-shift decode |
| Blit.Walk | src/libgfb.c:88-324 | the loop over rows and columns computes the reference row-by-row transfer |
| Blit.RowPrefixEffect | src/libgfb.c:88-324 | processing a row prefix writes exactly that prefix's destination slots |
| Blit.RowsEffect | src/libgfb.c:88-324 | after n rows each cell of those rows holds its transferred value and every other slot is unchanged |
| Blit.ColorKeyBlit | src/libgfb.c:240-275 | in a colour-key blit a keyed source pixel leaves its destination unchanged and any other one writes its colour |
| Blit.SoftBlit | src/libgfb.c:399-430 | always returns OK, and runs the selected strategy over min(h)+1 rows of min(w) columns of the front buffers |
| Blit.GfbBlit | src/libgfb.c:1294-1312 | a NULL surface gives EARGUMENT; both rects default to the clip rects and are clipped before the call goes to the blit slot |
| Blit.WholeSurfaceBlitOverruns | src/libgfb.c:88-138 | a whole-surface blit between equal surfaces runs h+1 rows, and its last row starts past the end of the pixel block |
| Blit.IntendedRowsStayInBuffers | src/libgfb.c:88-324 | with min(h) rows every source and destination cell of rectangles on their surfaces lies inside the front buffers |
| Blit.SoftBlitIntended | src/libgfb.c:399-430 | the corrected blit with min(h) rows needs no precondition beyond rectangles on their surfaces |
| Lines.LinePoints | src/libgfb.c:455-508 | the line has max(\|dx\|, \|dy\|) + 1 points |
| Lines.LineEnds | src/libgfb.c:455-508 | the first point is (x1, y1) and the last is (x2, y2) |
| Lines.LineInBox | src/libgfb.c:455-508 | every point lies in the box spanned by the endpoints |
| Lines.LineSteps | src/libgfb.c:455-508 | each step moves the major axis by exactly one toward the end and the minor axis by zero or one |
| Lines.HorizontalLine | src/libgfb.c:455-508 | a horizontal line visits consecutive x at fixed y |
| Lines.VerticalLine | src/libgfb.c:455-508 | a vertical line visits consecutive y at fixed x |
| Lines.AccumulatorTracks | src/libgfb.c:466-505 | the loop's error accumulator stays in [0, n) and the minor offset equals the exact rounded value |
| Lines.TraceWalk | src/libgfb.c:466-505 | the Bresenham loop produces the reference walk, one point per major step |
| Lines.TraceLine | src/libgfb.c:455-508 | the traced points are exactly the reference line |
| Lines.LineOnSurface | src/libgfb.c:455-508 | a line between two on-surface points stays on the surface |
| Lines.SoftLine | src/libgfb.c:455-508 | OK exactly when both endpoints lie in the inclusive clip range, otherwise EARGUMENT with the surface unchanged |
| Lines.SoftLineEffect | src/libgfb.c:455-508 | an accepted line writes the colour to every line point and nowhere else |
| Lines.LineVia | src/libgfb.c:455-508 | the line slot's call either delegates or gives the soft line's result; only a line drawn by the software line and putpixel must stay on the surface |
| Lines.ClampLine | src/libgfb.c:1324-1331 | clamped endpoints are always accepted by the soft line, and endpoints already accepted are unchanged |
| Lines.GfbLine | src/libgfb.c:1324-1331 | NULL gives EARGUMENT; otherwise the clamped line is passed to the line slot, with no condition when a device routine draws it, and reports OK |
| Lines.ClampedLineLeavesSurface | src/libgfb.c:1324-1331 | with a whole-surface clip, a line running right off the surface is clamped to x = w, one pixel past the surface |
| Lines.GfbLineIntended | src/libgfb.c:1324-1331 | clamping to the last clip pixel keeps every line point on the surface |
| Lines.ClampIntendedInClip | src/libgfb.c:1324-1331 | corrected clamping puts both endpoints inside the clip and on the surface |
| Lines.DrawChain | src/libgfb.c:510-517 | a chain of lines succeeds exactly when every segment is accepted, otherwise EARGUMENT |
| Lines.DrawChainPlots | src/libgfb.c:510-517 | a successful chain writes exactly the concatenated line points |
| Lines.ChainPixel | src/libgfb.c:510-517 | each point of each segment holds the colour after a chain |
| Lines.SoftRectangle | src/libgfb.c:510-517 | the rectangle is four lines and succeeds exactly when all four are accepted |
| Lines.SoftRectanglePlots | src/libgfb.c:510-517 | an accepted rectangle writes exactly the points of its four sides |
| Lines.RectangleOutline | src/libgfb.c:510-517 | every point on the inclusive outline holds the colour |
| Lines.GfbRectangle | src/libgfb.c:1333-1348 | NULL gives EARGUMENT; the rect defaults to the clip and is clipped before the call goes to the rectangle slot |
| Lines.WholeClipRectangleLeavesSurface | src/libgfb.c:510-517 | on a surface whose clip is the whole surface, the default rectangle's top side ends at column w, which the line accepts although it is off the surface, so the rectangle is not safe to draw |
| Lines.InnerSidesSafe | src/libgfb.c:510-517 | the sides through the last column and row of any non-empty rectangle on the surface are safe to draw, and all are accepted when the rectangle lies in the clip |
| Lines.SoftRectangleIntended | src/libgfb.c:510-517 | an empty rectangle draws nothing; a rectangle in the clip always succeeds; only pixel memory changes |
| Lines.RectangleIntendedOutline | src/libgfb.c:510-517 | every pixel of the first and last rows and columns of a rectangle in the clip is a pixel of the rectangle and holds the colour |
| Lines.GfbRectangleIntended | src/libgfb.c:1333-1348 | NULL gives EARGUMENT; the rectangle drawn, the intersection with the clip or the clip itself, lies in the clip when non-empty, and every call that is not delegated succeeds |
| Lines.Segments | src/libgfb.c:620-636 | the polygon's segments join consecutive points: count−1 of them |
| Lines.SoftPolygon | src/libgfb.c:620-636 | succeeds exactly when every segment is accepted |
| Lines.SoftPolygonPlots | src/libgfb.c:620-636 | an accepted polygon writes exactly the points of its segments |
| Lines.PolygonIsOpen | src/libgfb.c:620-636 | one segment fewer than points; when the first point does not recur, no segment ends at it, so the closing edge from the last point back to the first is not drawn |
| Lines.GfbPolygon | src/libgfb.c:1394-1400 | NULL surface, NULL points or fewer than three points give EARGUMENT, otherwise the call goes to the polygon slot |
| Circles.MidpointStep | src/libgfb.c:533-539 | one midpoint step keeps the decision variable consistent with the offset |
| Circles.NearColumnUnique | src/libgfb.c:519-543 | on each row at most one column X ≥ 1 lies within one unit of the circle |
| Circles.WalkColumnIsNearColumn | src/libgfb.c:519-543 | on each of its rows the midpoint walk's column is the only column X ≥ 1 near the circle |
| Circles.MidpointShape | src/libgfb.c:519-543 | the walk starts at (r, 0), each step raises Y by one and lowers X by zero or one, every offset has 0 ≤ Y ≤ X ≤ r, and each lies within one unit of the circle |
| Circles.MidpointFromShape | src/libgfb.c:524-540 | from any consistent walk state the loop runs while Y ≤ X, and every offset it produces lies within one unit of the circle with X falling by zero or one per step |
| Circles.MirrorDistance | src/libgfb.c:524-532 | each of the eight mirrored points has the same distance and the same major offset as the octant point |
| Circles.CircleNear | src/libgfb.c:519-543 | every plotted point lies in the r-box and its squared distance is within its major offset of r² |
| Circles.CircleSymmetric | src/libgfb.c:524-532 | the plotted set is closed under the eight symmetries of the square |
| Circles.InClipPoints | src/libgfb.c:384-390 | keeps exactly the points inside the clip |
| Circles.PutEach | src/libgfb.c:1277-1280 | putting each point through the public putpixel ends with OK and changes only pixel memory, and with a software putpixel it always ends that way; in-clip points must be on the surface only when putpixel is the software routine |
| Circles.PutEachPlots | src/libgfb.c:1277-1280 | it writes exactly the in-clip points |
| Circles.SoftCircle | src/libgfb.c:519-543 | the outline circle changes only pixel memory and reports OK, always so with a software putpixel; its in-clip points must be on the surface only when putpixel is the software routine |
| Circles.SoftCircleEffect | src/libgfb.c:519-543 | every in-clip circle point holds the colour and every other slot is unchanged |
| Circles.CircleInClip | src/libgfb.c:1367-1382 | when the r-box lies in the clip, every circle point does too |
| Circles.GfbCircle | src/libgfb.c:1367-1382 | NULL or an r-box outside the clip gives EARGUMENT, otherwise the call goes to the circle slot; the circle's pixels must be on the surface only when both the circle and putpixel slots are software routines |
| Circles.LineEach | src/libgfb.c:571-618 | the chords are drawn one after another and the result is OK |
| Circles.LineEachPlots | src/libgfb.c:571-618 | accepted chords write exactly their line points |
| Circles.PutEachUnchecked | src/libgfb.c:571-618 | the outline pass writes every point with the soft putpixel |
| Circles.SoftFilledCircle | src/libgfb.c:571-618 | the filled circle changes only pixel memory and reports OK |
| Circles.TwoPassPixel | src/libgfb.c:571-618 | after the two passes a pixel has the outline colour if the outline covers it, and the fill colour otherwise |
| Circles.FilledCircleTwoPasses | src/libgfb.c:571-618 | the filled circle is the chord pass in the fill colour followed by the outline pass in the outline colour |
| Circles.FilledCircleEffect | src/libgfb.c:571-618 | every chord pixel ends up in the outline colour if it is on the outline and the fill colour otherwise |
| Circles.ChordsHorizontal | src/libgfb.c:571-618 | every chord is horizontal and symmetric about the centre |
| Circles.FilledCircleInClip | src/libgfb.c:1384-1392 | when the r-box lies in the clip, every chord is accepted and every outline point is in the clip |
| Circles.GfbFilledCircle | src/libgfb.c:1384-1392 | NULL or an r-box outside the clip gives EARGUMENT, otherwise the call goes to the filled-circle slot |
| Fills.PaintRows | src/libgfb.c:554-566 | the row loop sets exactly the slots of n+1 rows of p pixels, one pitch apart, and leaves every other slot |
| Fills.RowsArePixels | src/libgfb.c:554-566 | a slot lies in the painted rows exactly when its pixel lies in the painted rectangle |
| Fills.SoftFilledRectangle | src/libgfb.c:545-569 | returns OK and sets exactly the filled slots to the colour |
| Fills.FilledPixels | src/libgfb.c:545-569 | a pixel is filled exactly when x..x+w and y..y+h contain it, both ends inclusive: (w+1)×(h+1) pixels |
| Fills.WholeSurfaceFillOverruns | src/libgfb.c:1350-1365 | filling the whole-surface clip needs a row of w+1 pixels and h+1 rows, more than the buffer holds |
| Fills.IntendedFillSafe | src/libgfb.c:545-569 | w×h rows of a rectangle on the surface fit in the buffer |
| Fills.SoftFilledRectangleIntended | src/libgfb.c:545-569 | the corrected fill sets exactly the slots of the half-open rectangle |
| Fills.FilledIntendedPixels | src/libgfb.c:545-569 | in the corrected fill a pixel is filled exactly when it lies in the half-open rectangle |
| Fills.GfbFilledRectangle | src/libgfb.c:1350-1365 | NULL gives EARGUMENT; the rect defaults to the clip and is clipped before the soft fill or the device call |
| Fills.SoftClear | src/libgfb.c:439-453 | a whole-surface clip zeroes exactly the back buffer, any other clip is filled with 0 through the filled-rectangle slot |
| Fills.ClearBlanksClip | src/libgfb.c:439-453 | after a clear every pixel in the clip is 0 |
| Fills.GfbClear | src/libgfb.c:1319-1322 | NULL gives EARGUMENT; a device clear slot is delegated; the software clear zeroes every pixel of the back buffer under a whole-surface clip, and otherwise delegates to a device filled-rectangle slot or sets exactly the clip's filled slots to 0, leaving every other slot as it was |
| Fills.SoftFloodFill | src/libgfb.c:715-730 | the soft flood fill changes nothing and reports ENOTSUPPORTED |
| Fills.GfbFloodFill | src/libgfb.c:1402-1409 | NULL or a point outside the clip gives EARGUMENT; with the software slot the result is OK whatever the slot reports; a device slot is delegated |
| Fills.FloodFillHidesUnsupported | src/libgfb.c:1402-1409 | the public flood fill reports OK for an in-clip point though nothing was filled |
| Utf8.Encode | src/libgfb.c:734-822 | the reference encoding of a scalar value has its length by range |
| Utf8.NextChar | src/libgfb.c:734-822 | End exactly at or past the end; otherwise the cursor moves 1 to 4 bytes and stays within the string, an invalid result has code point 0, and a valid one is a scalar value whose shortest encoding was consumed |
| Utf8.Next2 | src/libgfb.c:761-771 | a two-byte lead either yields a valid code point whose encoding are the bytes consumed, or invalid with code point 0 |
| Utf8.Next3 | src/libgfb.c:772-790 | the same for a three-byte lead, with overlong and surrogate forms refused |
| Utf8.Next4 | src/libgfb.c:791-813 | the same for a four-byte lead, with overlong forms and values above 0x10FFFF refused |
| Utf8.Decode3Range | src/libgfb.c:772-790 | every three-byte sequence the bounds accept decodes to a value from 0x800 to 0xFFFF outside the surrogates, so no overlong or surrogate form gets through |
| Utf8.Decode4Range | src/libgfb.c:791-813 | every four-byte sequence the bounds accept decodes to a value from 0x10000 to 0x10FFFF, so no overlong form or value above the Unicode range gets through |
| Utf8.NextCharIsEncoding | src/libgfb.c:734-822 | the bytes consumed for a valid code point are exactly its encoding |
| Utf8.DecodeEncode | src/libgfb.c:734-822 | decoding the encoding of any scalar value, wherever it stands in a string, returns it valid with the cursor just past it |
| Utf8.StrLen | src/libgfb.c:1493 | the length is the index of the first NUL |
| Utf8.ReadChar | src/libgfb.c:1495-1507 | one loop step either ends the loop or keeps the code point when it is valid and non-zero |
| Utf8.KeptBound | src/libgfb.c:1495-1507 | at most count code points are kept |
| Utf8.KeptEncoded | src/libgfb.c:1495-1507 | decoding an encoded string keeps exactly its non-zero code points, cut to 16 bits |
| Utf8.DecodeText | src/libgfb.c:1495-1507 | the loop fills text[0..i) with the kept code points and leaves the rest of the buffer |
| Utf8.TextOverruns | src/libgfb.c:1453-1503 | a string of 1025 ASCII letters keeps 1025 code points, more than the 1024-entry buffer |
| Utf8.DecodeTextIntended | src/libgfb.c:1495-1507 | the bounded loop stores the first min(kept, 1024) code points and never writes past the buffer |
| Utf8.GfbText | src/libgfb.c:1474-1510 | EARGUMENT for a NULL surface, a bad or unloaded font id, ptsize 0, a NULL string or count 0; ERROR when the size cannot be set; otherwise the renderer gets exactly the kept code points; the string's NUL and its length matter only once every refusal has been passed |
| Utf8.CountWraps | src/libgfb.c:1495 | a count of 2³² becomes 0 in `unsigned int` and keeps nothing |

## Left out

- File input and output: `gfb_surface_load_bmp3`, `gfb_surface_save_bmp3` and `gfb_surface_save_raw`.
- The FreeType front end: `gfb_soft_text`, `gfb_ftbitmapblit`, `gfb_ttf_load_memory`, `gfb_textu`, `gfb_initialize`, `gfb_finalize`, `gfb_about` and the global font store. These are foreign calls and global state.
- The Lua binding (`src/lgfb.c`, `src/lgfb.h`), the K70 device table (`src/libgfb_k70.c`) and the shared-memory layout (`src/shmdata.h`). These are not part of this model.
- The flood-fill algorithms (the disabled helper and the unreachable recursive fill). The model covers only the wrapper's bounds check and return value.
- Floating-point alpha blending. The blended colour is a parameter `blend` of the blit, and only which pixels are written and the kept destination alpha are proved.
- Allocation failure (`GFB_ENOMEM`) in `gfb_surface_create`. The model treats `calloc`/`malloc` as always succeeding.
- Surfaces.Create: does not model `int` overflow of `w·h·Bpp` or of the pitch; sizes are unbounded integers.
- Byte order and overlapping `memcpy`/`memmove`. A pixel slot holds the low `Bpp` bytes of the colour, as on a little-endian host.
- Int overflow in coordinate arithmetic (sums such as `clip.x + clip.w`) is not modelled, because coordinates are unbounded integers.
- Utf8.GfbText: requires a non-negative font id when the surface is not NULL. `gfb_font_id` is `int` and only `fontid >= MAX_GFB_FONT` is refused, so a negative id reads `gfb_fontstore` before its start (undefined behaviour), which the model does not describe.
- Utf8.GfbText: the order in which the cursor and `count` are updated is not modelled separately; only the resulting sequence of kept code points is stated.
- Utf8.DecodeText: takes the number of kept code points fitting in 1024 as a precondition, because the code as written overruns its static buffer otherwise (see Findings).
- Utf8.NextChar: the `rest_size < 1` branch of the decoder cannot be reached once the cursor is below the string size, so it has no counterpart.
- Utf8.KeptEncoded: code points above 0xFFFF are stored cut to 16 bits, as the assignment to `uint16_t text[]` does; no property beyond that truncation is stated for them.
- Blit.SoftBlit: requires that every row the as-written loop touches lies in the destination block, since the loop runs one row too many (see Findings).
- Fills.SoftFilledRectangle: requires that every slot of the (w+1)×(h+1) rows lies in the buffer, since the inclusive loop writes past a full-width rectangle (see Findings).
- Lines.GfbRectangle: requires, when the software rectangle, line and putpixel draw it, that the sides of the rectangle stay on the surface wherever the line accepts them. The right and bottom sides lie one past the rectangle, so the default call on a surface whose clip is the whole surface is excluded (see Findings).
- Blit.ColorKeyBlit: the source colour is loaded with a `memcpy` of `Bpp` bytes into an uninitialised `gfb_color_t`, so for 2- and 3-byte formats its high bytes are indeterminate in C. The model takes them as 0, and with them the colour-key comparison; the C outcome of that comparison is not determined.
- Blit.ColorKeySkipsExactlyKeyed: rests on the same choice: the high bytes of a loaded 2- or 3-byte colour are taken as 0.
- Fills.GfbFloodFill: a device flood-fill slot yields `Delegated`, so the model does not state that C returns `GFB_OK` in that case too; the device's effect on the pixels is unknown.
- Lines.GfbLine: requires that the clamped endpoints stay on the surface when the software line and putpixel draw them, since clamping to the inclusive clip edge can leave it (see Findings).
- The device routines behind `Device` op-table slots. A call that reaches one is the outcome `Delegated`, with nothing stated about its effect.

## Findings

| source | as written | input that shows it | evidently intended | confidence | as-written member | corrected member |
|---|---|---|---|---|---|---|
| src/libgfb.c:88-324 | every blit loop runs `for (; nlines >= 0; nlines--)` with `nlines = min(h)`, so it handles min(h)+1 rows | blit a w×h surface onto another w×h surface with default rects: the last row read and written starts at pixel w·h, past the end of both buffers | min(h) rows | not executed | Blit.WholeSurfaceBlitOverruns | Blit.SoftBlitIntended |
| src/libgfb.c:1324-1331 | the endpoints are clamped to `clip.x + clip.w` and `clip.y + clip.h`, which lie one past the clip | `gfb_line(s, 0, y, w + 5, y, c)` on a surface whose clip is the whole surface draws pixel (w, y), off the surface | clamp to `clip.x + clip.w - 1` and `clip.y + clip.h - 1` | not executed | Lines.ClampedLineLeavesSurface | Lines.GfbLineIntended |
| src/libgfb.c:510-517 | the four sides run to column `x + w` and row `y + h`, one past the rectangle; `gfb_rectangle` with a NULL rectangle draws the clip | `gfb_rectangle(s, NULL, c)` on a surface whose clip is the whole surface: the top side ends at pixel (w, 0), which the inclusive clip test accepts although it is off the surface | sides through column `x + w - 1` and row `y + h - 1`; the corrected member also clips with the exact intersection `Geometry.Intersect`, which `gfb_cliprect` computes whenever the rectangle starts in the clip's range | not executed | Lines.WholeClipRectangleLeavesSurface | Lines.GfbRectangleIntended |
| src/libgfb.c:545-569 | the fill covers x..x+w and y..y+h inclusive, (w+1)×(h+1) pixels | `gfb_filledrectangle(s, NULL, c)` with the clip equal to the whole surface writes row h, past the buffer | w×h pixels, the half-open rectangle | not executed | Fills.WholeSurfaceFillOverruns | Fills.SoftFilledRectangleIntended |
| src/libgfb.c:1453-1503 | `text[i++] = code` stores into `static uint16_t text[1024]` with no bound on i | `gfb_text` with a string of 1025 ASCII letters and count ≥ 1025 writes text[1024] | stop at 1024 code points | not executed | Utf8.TextOverruns | Utf8.DecodeTextIntended |
