# Pointiller in Dafny

Pointiller turns the RGBA pixels of an image into a list of coloured
"points". Its adaptive mode places the largest uniform circles first. It
runs one raster pass per radius, from `maxSize` down to `minSize`. A pixel
becomes a point when it is opaque and every pixel on the midpoint-circle
ring of that radius around it matches its colour within the colour
tolerance. The pass then makes the point's filled disk transparent
("consumes" it) so that later centres skip it.

The project models the `Pointiller` object of `canvas.pointiller.js`:

- `pixels.dfy` (module `Pixels`): the flat RGBA buffer, pixel indexing,
  the squared colour distance and `samePixelColor` as a predicate over a
  snapshot of the buffer.
- `ring.dfy` (module `Ring`): the midpoint-circle walk of
  `samePixelsColorArroundRadius` as a function producing its octant steps,
  and the ring test built on it.
- `coverage.dfy` (module `Coverage`): the filled disk that
  `makePixelsTransparentArroundRadius` clears, and the `excludeColor`
  filter. Both are functions from a buffer to a buffer.
- `sampling.dfy` (module `Sampling`): one `toSizablePoints` pass (`Scan`),
  the `toAdaptivePoints` run (`Adaptive`) and the `toPoints` grid sampler
  (`Sweep`), all as functions. The lemmas about them are here.
- `engine.dfy` (module `Engine`): class `Pointiller` with the fields
  `width`, `height`, `data: array<Byte>` and `colorTolerance`. Each method
  runs the source's loop on the array in place. Each is proved equal to the
  function above that specifies it.

Modelling decisions that follow the code:

- Reads and writes go through the flat index `4 * (y * width + x)` only.
  No coordinate is checked.
- A read is defined only when all four channels lie inside the array.
  Otherwise JavaScript reads `undefined`, the colour difference is `NaN`,
  and the comparison is false.
- So a ring offset one column past the right edge reads the first pixel of
  the next row, and one column before the left edge reads the last pixel of
  the previous row. `Ring.RightEdgeCentreWraps` shows a right-edge centre
  of a uniform 4 by 4 image passing the radius-1 test.
- No coordinate is bounds-checked, so a centre whose ring crosses the left
  or right edge can still qualify. Such a ring reads pixels of the
  neighbouring rows (`Pixels.RowWrap`).
- A write outside the array is ignored, as on a typed array.
- The disk scan decodes every flat position from the disk's top-left to its
  bottom-right corner into a column and a row. For a negative position it
  uses JavaScript's sign-keeping `%` (`Coverage.JsRemainder`). Such a
  position decodes to a negative index (`Coverage.NegativeDecode`), so its
  write is lost. What is cleared is exactly the buffer pixels within the
  radius (`Coverage.ConsumeDisk`).
- `Math.sqrt` is replaced by exact integer squares. Colours match when
  `dr² + dg² + db² <= tolerance²`, with a non-negative integer tolerance. A
  pixel is in the disk when `dx² + dy² <= r²`. For a negative radius no
  pixel is, since a square root is never below a negative number.
- Radii are integers and may be negative. An adaptive run with a negative
  `minSize` reaches them. A negative radius runs no walk step, so every
  opaque pixel passes, and its disk is empty.
- `toPoints` advances its column counter `posx` before testing it. With
  weight 1 the pixel in the last column of every row is skipped
  (`Sampling.RowInteriorComplete`).

## Model

| member | source | states |
|---|---|---|
| Pixels.PixelIndex | canvas.pointiller.js:271-273 | the red-channel offset of pixel `(x, y)` is four times its raster number `y*width + x`, so it is always a multiple of 4 |
| Pixels.IndexRoundTrip | canvas.pointiller.js:271-273 | the index of an in-image pixel is a multiple of 4 inside `[0, 4*width*height)`, and dividing by 4 then taking `% width` and `/ width` gives back its column and row |
| Pixels.IndexInjective | canvas.pointiller.js:271-273 | distinct in-image pixels have distinct indices |
| Pixels.PosDecodes | canvas.pointiller.js:140-141 | a point on an in-image column decodes from its raster position back to its own column and row |
| Pixels.PosOrderIsRaster | canvas.pointiller.js:137-141 | for in-image columns, a smaller raster position is exactly an earlier row, or the same row further left |
| Pixels.SqColorDifference | canvas.pointiller.js:267-269 | the squared RGB distance is never negative, and it is zero exactly for identical colours |
| Pixels.ColorDifferenceSymmetric | canvas.pointiller.js:267-269 | the colour distance is symmetric, and tolerance 0 accepts exactly identical colours |
| Pixels.RowWrap | canvas.pointiller.js:271-273 | column `width` of row `y` has the index of pixel `(0, y+1)`, and column `-1` of row `y+1` has the index of pixel `(width-1, y)` |
| Pixels.SameColor | canvas.pointiller.js:200-209 | two pixels match when both are readable and opaque and their squared colour distance is at most tolerance²; a match implies both pixels are readable and opaque |
| Pixels.SameColorCases | canvas.pointiller.js:200-209 | the comparison fails when either pixel is unreadable or transparent; otherwise it holds exactly when the squared distance is at most tolerance²; it is symmetric |
| Pixels.SameColorReflexive | canvas.pointiller.js:200-209 | a pixel matches itself exactly when it is readable and opaque |
| Pixels.FadedSameColor | canvas.pointiller.js:206-207 | clearing alpha channels never makes two pixels match that did not match before |
| Ring.Walk | canvas.pointiller.js:170-187 | the octant steps the loop visits from state `(x, y, d)`: none once `x < y`, otherwise one per row, the `k`-th in row `y + k`, stepping `x` down when `d > 0` |
| Ring.RingSteps | canvas.pointiller.js:164-189 | the walk for radius `r` starts at `x = r, y = 0, d = 1 - r`; it is empty for `r < 0` and otherwise starts with step `(r, 0)` |
| Ring.RingUniform | canvas.pointiller.js:164-189 | a ring passes when, at every walk step, all eight symmetric offsets match the centre; it passes for `r < 0`, and for `r >= 0` a pass implies a readable, opaque centre |
| Ring.RingStepsShape | canvas.pointiller.js:164-189 | for `r >= 0` the walk starts at `(r, 0)`, visits row `k` at step `k`, stays within `0 <= y <= x <= r`, and each step lies within half a pixel of the circle (`x²-x+y² <= r² <= x²+x+y²`) |
| Ring.WalkShape | canvas.pointiller.js:179-185 | the decision variable keeps encoding `x²-x+y²+2y+1-r²`, so every step of the walk from any such state lies in its row, in the octant and near the circle |
| Ring.RingZeroRadius | canvas.pointiller.js:164-189 | radius 0 runs one step at `(0, 0)` and passes exactly when the centre is readable and opaque |
| Ring.RingNegativeRadius | canvas.pointiller.js:166-170 | a negative radius runs no step, and the test passes |
| Ring.RingNeedsOpaqueCentre | canvas.pointiller.js:171 | a ring of radius `>= 0` that passes has a readable, opaque centre |
| Ring.RingFaded | canvas.pointiller.js:170-187 | clearing alpha channels can make a ring fail but never pass |
| Ring.RingFailsAt | canvas.pointiller.js:171-178 | a walk step whose eight offsets do not all match makes the whole ring test fail |
| Ring.RightEdgeCentreWraps | canvas.pointiller.js:202-205 | on a uniform 4 by 4 image, column 4 of row 1 is pixel `(0, 2)`, and the centre `(3, 1)` on the right edge passes the radius-1 test |
| Coverage.JsRemainder | canvas.pointiller.js:229 | JavaScript's `%` agrees with the Euclidean remainder on non-negative numbers and lies in `(-width, 0]` for negative ones |
| Coverage.NegativeDecode | canvas.pointiller.js:229-233 | a negative flat position decodes to a negative pixel index, so its write is ignored |
| Coverage.DiskBox | canvas.pointiller.js:219-227 | every buffer pixel of the disk lies between the flat positions of `(x0-r, y0-r)` and `(x0+r, y0+r)`, so the scan reaches it |
| Coverage.ConsumeBetweenAll | canvas.pointiller.js:227-234 | a scan from no later than the box's first position to past its last clears exactly the disk |
| Coverage.ConsumeBetweenVisit | canvas.pointiller.js:229-233 | visiting one flat position clears the alpha at its decoded index when it is within the radius and inside the buffer, and changes nothing else |
| Coverage.ConsumeDisk | canvas.pointiller.js:217-235 | the buffer after disk consumption: the same length, with the alpha of every buffer pixel within radius `r` of `(x0, y0)` set to 0 and every other channel kept |
| Coverage.ConsumeDiskPixel | canvas.pointiller.js:217-235 | after disk consumption a pixel of the disk has alpha 0, every other pixel keeps its alpha, and every colour channel is unchanged |
| Coverage.ConsumeDiskEffect | canvas.pointiller.js:217-235 | disk consumption only clears alpha channels, and it clears every pixel of the disk |
| Coverage.ConsumeNegativeRadius | canvas.pointiller.js:231-232 | a negative radius consumes nothing |
| Coverage.ExcludeMatching | canvas.pointiller.js:242-259 | the filtered buffer: the same length, with the alpha of every opaque pixel within the tolerance of the colour set to 0 and every other channel kept |
| Coverage.ExcludeEffect | canvas.pointiller.js:242-259 | an opaque pixel within the tolerance of the colour ends with alpha 0; every other pixel's alpha and every colour channel is unchanged |
| Coverage.ExcludeIdempotent | canvas.pointiller.js:242-259 | excluding a colour twice gives the same buffer as excluding it once |
| Coverage.ExcludeBeforeStep | canvas.pointiller.js:245-253 | one loop iteration filters exactly the pixel at channel offset `i`, judged by its original channels |
| Sampling.Scan | canvas.pointiller.js:130-155 | one pass from pixel `p` on: each opaque pixel whose ring is uniform on the current buffer gives a point of diameter `2*size`, and with extrude its disk is consumed before the next pixel; the buffer keeps its length |
| Sampling.ScanPoints | canvas.pointiller.js:130-155 | every point of a pass carries an opaque pixel of the starting buffer, its channels and diameter `2*size`, and passed the ring test there; raster positions strictly increase |
| Sampling.ScanRasterOrder | canvas.pointiller.js:137-149 | a pass emits its points in row-major order: an earlier row, or the same row further left |
| Sampling.ScanShape | canvas.pointiller.js:146-148 | every point of a pass has diameter `2*size` and sits on an opaque pixel of the starting buffer |
| Sampling.ScanWithoutExtrude | canvas.pointiller.js:130-155 | without extrude the buffer is unchanged, and the pass emits exactly the opaque pixels whose ring is uniform |
| Sampling.ScanKeepsBuffer | canvas.pointiller.js:150 | without extrude the pass leaves the buffer as it was |
| Sampling.ScanFaded | canvas.pointiller.js:150 | a pass only ever clears alpha channels |
| Sampling.ScanCovers | canvas.pointiller.js:150 | with extrude, the disk of every emitted point is cleared in the final buffer |
| Sampling.ScanSeparated | canvas.pointiller.js:139-150 | with extrude and `size >= 0`, any two emitted centres have squared distance greater than `size²` |
| Sampling.ScanFresh | canvas.pointiller.js:137-149 | the point of a pixel is none of the points the pass emits after it |
| Sampling.Adaptive | canvas.pointiller.js:107-122 | the run from `size`: nothing once `size < minSize`, otherwise an extruding pass at `size` followed by the run from `size - step` on the buffer it leaves; the buffer keeps its length |
| Sampling.AdaptiveEmpty | canvas.pointiller.js:110-112 | with `minSize > maxSize` the run emits nothing and leaves the buffer untouched |
| Sampling.AdaptiveOrder | canvas.pointiller.js:112-115 | diameters never grow along the list, and points of equal diameter come in increasing raster position |
| Sampling.AdaptiveRadii | canvas.pointiller.js:110-115 | every point's radius lies between `minSize` and `maxSize` |
| Sampling.AdaptiveEmitted | canvas.pointiller.js:112-115 | every point carries an opaque pixel of the starting buffer and passed the ring test there at its own radius |
| Sampling.AdaptiveOpaque | canvas.pointiller.js:112-115 | every point sits on an opaque pixel of the starting buffer |
| Sampling.AdaptiveFaded | canvas.pointiller.js:112-115 | a run only ever clears alpha channels |
| Sampling.AdaptiveCovers | canvas.pointiller.js:112-115 | the disk of every point, at its own radius, is cleared in the final buffer |
| Sampling.AdaptiveSeparated | canvas.pointiller.js:112-115 | with `minSize >= 0` every later point lies more than the radius of every earlier point away from it |
| Sampling.RowInteriorPoints | canvas.pointiller.js:67-94 | the points of the opaque pixels outside the last column, in pixel order; each has diameter 1, a non-zero alpha and a column below `width - 1` |
| Sampling.Sweep | canvas.pointiller.js:67-94 | the loop of `toPoints` from pixel `n` with column count `posx`: it steps `weight` pixels, resets the count and skips `weight - 1` rows when the count reaches the width, and otherwise appends the point of an opaque pixel; the list held so far is a prefix of the result |
| Sampling.RowInteriorSound | canvas.pointiller.js:67-94 | with weight 1 every point carries an opaque pixel outside the last column, with diameter 1, in increasing raster position |
| Sampling.RowInteriorComplete | canvas.pointiller.js:67-94 | with weight 1 a pixel's point is emitted exactly when the pixel is opaque and not in the last column |
| Sampling.SweepSound | canvas.pointiller.js:67-94 | at any weight every point carries an opaque pixel and diameter `weight`, in increasing raster position |
| Sampling.SweepUnitWeight | canvas.pointiller.js:72-80 | with weight 1 the column counter skips exactly the last column, so the loop's list is the opaque pixels outside the last column |
| Sampling.SweepFromStart | canvas.pointiller.js:67-94 | the whole sweep from pixel 0 returns opaque pixels with diameter `weight` in increasing raster position, and with weight 1 exactly the opaque pixels outside the last column |
| Engine.Pointiller.constructor | canvas.pointiller.js:15-23 | a Pointiller of the given size holds the given image, and its tolerance starts at 1 |
| Engine.Pointiller.SamePixelColor | canvas.pointiller.js:200-209 | the loop-free comparison returns exactly the specified colour match on the current buffer |
| Engine.Pointiller.OctantMatches | canvas.pointiller.js:171-178 | checking the eight symmetric offsets in order, stopping at the first miss, returns whether all eight match |
| Engine.Pointiller.SamePixelsColorAroundRadius | canvas.pointiller.js:164-189 | the walk returns true exactly when every step's eight offsets match the centre |
| Engine.Pointiller.MakeTransparentPixel | canvas.pointiller.js:261-265 | sets the alpha at the pixel's index when it is inside the buffer, and otherwise changes nothing |
| Engine.Pointiller.MakePixelsTransparentAroundRadius | canvas.pointiller.js:217-235 | the flat scan of the bounding box leaves the buffer with exactly the disk consumed |
| Engine.Pointiller.VisitPixel | canvas.pointiller.js:139-151 | one iteration of the pass emits the pixel with the channels it read, when it is opaque and its ring is uniform, and consumes its disk under extrude |
| Engine.Pointiller.ToSizablePoints | canvas.pointiller.js:130-155 | the returned points and the new buffer are those of one pass at radius `size` over the old buffer |
| Engine.Pointiller.ToAdaptivePoints | canvas.pointiller.js:107-122 | the tolerance field becomes `tolerance`, and the points and new buffer are those of the adaptive run from `maxSize` down to `minSize` |
| Engine.Pointiller.ExcludeColor | canvas.pointiller.js:242-259 | the buffer becomes the old buffer with every opaque pixel within the tolerance of the colour made transparent |
| Engine.Pointiller.ToPoints | canvas.pointiller.js:67-94 | the returned list is the grid sweep of the buffer; every point is an opaque pixel with diameter `weight`, in raster order; with weight 1 it is exactly the opaque pixels outside the last column |

## Left out

- Canvas and DOM plumbing is not modelled. This covers `document.createElement` and `getContext` in the constructor (the constructor takes the image buffer instead), `addImage`, `clear`, `getCanvas` and `setCanvas`. It also covers the `clearRect` and `putImageData` calls at the end of `toAdaptivePoints` and `excludeColor`. None of them changes the buffer.
- `bounds` re-reads a sub-rectangle of the canvas. After it, the buffer's width can differ from the canvas width that the disk scan and the indexer use. The model keeps a single `width`.
- `excludeColor` returns the buffer object. The model's method returns nothing, and the buffer is the `data` field.
- Floating point is not modelled: `Math.sqrt` and `Math.pow` become exact integer squares. Tolerances are non-negative integers, so a fractional tolerance is not modelled.
- `Uint8ClampedArray` clamping is not modelled. Only alpha 0 is ever written.
- JavaScript's `undefined` and `NaN` are not modelled as values. The model reproduces their effect: an out-of-range read fails the comparison, and an out-of-range write is a no-op.
- The dead variables `count` in `excludeColor` and `posx` in `toSizablePoints` are not modelled.
- Engine.Pointiller.ToAdaptivePoints: requires `step >= 1`. With `step <= 0` and `maxSize >= minSize` the source loops forever. The requirement also excludes `step <= 0` with `minSize > maxSize`, where the source returns `[]` at once. For `step >= 1` that case is modelled (`Sampling.AdaptiveEmpty`).
- Engine.Pointiller.ToPoints: takes integer weights only, and requires `weight >= 1`. The source types `weight` as a Number. A fractional weight in `(0, 1)` advances the index and terminates, but that is not modelled. With an integer weight `<= 0` and a non-empty buffer the index never advances and the loop does not terminate. With an empty buffer the source returns `[]` for any weight. For weight above 1 the row-skip arithmetic is modelled exactly by `Sampling.Sweep`. Only opacity, diameter and raster order are proved about it.
- Default arguments are not modelled: every parameter is explicit. This covers `weight = 1` of `toPoints`, `size = 1, extrude = false` of `toSizablePoints`, and `step = 1, tolerance = 1` of `toAdaptivePoints`.
- Engine.Pointiller.MakeTransparentPixel: the default `a = 0` is an explicit parameter.
