/** The RGBA pixel buffer of a Pointiller: flat indexing, reads that may fall
    outside the buffer, and the colour comparison built on them. */
module Pixels {

  /** One channel of the buffer (the source keeps an 8-bit clamped array). */
  type Byte = b: int | 0 <= b < 256

  datatype Option<T> = None | Some(value: T)

  /** The red, green and blue channels of a colour. */
  datatype Rgb = Rgb(r: int, g: int, b: int)

  /** An emitted point: its pixel's coordinates, its pixel's channels as read
      when it was emitted, and its diameter `w`. */
  datatype Point = Point(x: int, y: int, r: Byte, g: Byte, b: Byte, a: Byte, w: int)

  /** pixelIndexer: offset of the red channel of pixel (x, y), four channels per
      pixel, rows of `width` pixels. No coordinate is checked. */
  function PixelIndex(width: int, x: int, y: int): (i: int)
    ensures i % 4 == 0
  {
    4 * (y * width + x)
  }

  /** Raster position (pixel number) of a point. */
  function Pos(pt: Point, width: int): (p: int)
  {
    pt.y * width + pt.x
  }

  /** A buffer of whole pixels whose width is positive as soon as it holds a pixel. */
  ghost predicate Framed(s: seq<Byte>, width: int)
  {
    |s| % 4 == 0 && (|s| > 0 ==> width > 0)
  }

  /** The four channels from flat offset `i` on exist (JS reads `undefined` otherwise). */
  predicate Readable(s: seq<Byte>, i: int)
  {
    0 <= i && i + 3 < |s|
  }

  function ColorAt(s: seq<Byte>, i: int): (c: Rgb)
    requires Readable(s, i)
  {
    Rgb(s[i], s[i + 1], s[i + 2])
  }

  /** colorDifference, squared: the source compares the Euclidean distance with
      a tolerance, which for a non-negative tolerance `t` is `d <= t * t`. */
  function SqColorDifference(c1: Rgb, c2: Rgb): (d: int)
    ensures d >= 0
    ensures d == 0 <==> c1 == c2
  {
    SquareSign(c1.r - c2.r);
    SquareSign(c1.g - c2.g);
    SquareSign(c1.b - c2.b);
    (c1.r - c2.r) * (c1.r - c2.r) + (c1.g - c2.g) * (c1.g - c2.g) + (c1.b - c2.b) * (c1.b - c2.b)
  }

  predicate WithinTolerance(c1: Rgb, c2: Rgb, tolerance: nat)
  {
    SqColorDifference(c1, c2) <= tolerance * tolerance
  }

  /** samePixelColor: both pixels are readable, neither is transparent, and their
      colours are within the tolerance. */
  ghost predicate SameColor(s: seq<Byte>, width: int, tolerance: nat, x0: int, y0: int, x1: int, y1: int)
    ensures SameColor(s, width, tolerance, x0, y0, x1, y1) ==>
      Readable(s, PixelIndex(width, x0, y0)) && s[PixelIndex(width, x0, y0) + 3] != 0 &&
      Readable(s, PixelIndex(width, x1, y1)) && s[PixelIndex(width, x1, y1) + 3] != 0
  {
    var i0 := PixelIndex(width, x0, y0);
    var i1 := PixelIndex(width, x1, y1);
    Readable(s, i0) && Readable(s, i1) && s[i0 + 3] != 0 && s[i1 + 3] != 0 &&
    WithinTolerance(ColorAt(s, i0), ColorAt(s, i1), tolerance)
  }

  /** The point a pass emits for pixel number `p`, carrying that pixel's channels. */
  function PointAt(s: seq<Byte>, width: int, p: int, w: int): (pt: Point)
    requires width > 0 && 0 <= p && 4 * p + 3 < |s|
  {
    Point(p % width, p / width, s[4 * p], s[4 * p + 1], s[4 * p + 2], s[4 * p + 3], w)
  }

  /** `pt` lies on a pixel of `s` and carries that pixel's four channels and diameter `w`. */
  ghost predicate IsPixelPoint(s: seq<Byte>, width: int, pt: Point, w: int)
  {
    0 <= pt.x < width && 0 <= pt.y && Readable(s, 4 * Pos(pt, width)) &&
    pt.r == s[4 * Pos(pt, width)] && pt.g == s[4 * Pos(pt, width) + 1] &&
    pt.b == s[4 * Pos(pt, width) + 2] && pt.a == s[4 * Pos(pt, width) + 3] && pt.w == w
  }

  /** `t` is `s` with some alpha channels set to zero and nothing else changed:
      the only writes the engine ever makes. */
  ghost predicate Faded(s: seq<Byte>, t: seq<Byte>)
  {
    |t| == |s| && forall k :: 0 <= k < |s| ==> t[k] == s[k] || (k % 4 == 3 && t[k] == 0)
  }

  /** Row-major raster order: an earlier row, or the same row further left. */
  predicate Precedes(p: Point, q: Point)
  {
    p.y < q.y || (p.y == q.y && p.x < q.x)
  }

  // ---------------------------------------------------------------------------
  // Arithmetic

  lemma ConcatAssoc<T>(a: seq<T>, b: seq<T>, c: seq<T>)
    ensures a + (b + c) == (a + b) + c
  {
  }

  lemma MulPositive(a: int, b: int)
    requires a > 0 && b > 0
    ensures a * b > 0
  {
  }

  lemma MulNonNegative(a: int, b: int)
    requires a >= 0 && b >= 0
    ensures a * b >= 0
  {
    if a > 0 && b > 0 {
      MulPositive(a, b);
    }
  }

  /** The row skip of toPoints, `width * 4 * (weight - 1)` channels, is four
      channels per skipped pixel. */
  lemma RowSkip(width: int, weight: int)
    ensures width * 4 * (weight - 1) == 4 * (width * (weight - 1))
  {
  }

  /** A square is never negative, and is zero only for zero. */
  lemma SquareSign(a: int)
    ensures a * a >= 0 && (a * a == 0 <==> a == 0)
  {
    if a > 0 {
      MulPositive(a, a);
    } else if a < 0 {
      MulPositive(-a, -a);
    }
  }

  // ---------------------------------------------------------------------------
  // Indexing

  /** A positive multiple of a positive width is at least that width. */
  lemma MulAtLeast(a: int, width: int)
    requires a >= 1 && width > 0
    ensures a * width >= width
  {
  }

  /** Euclidean division is determined by any quotient/remainder pair. */
  lemma DivModUnique(n: int, width: int, q: int, m: int)
    requires width > 0 && 0 <= m < width && n == q * width + m
    ensures n / width == q && n % width == m
  {
    var q', m' := n / width, n % width;
    assert (q - q') * width == m' - m;
    if q > q' {
      MulAtLeast(q - q', width);
    } else if q < q' {
      MulAtLeast(q' - q, width);
    }
  }

  /** Index round trip: decoding the index of an in-buffer pixel gives back its
      coordinates, and the index addresses four channels inside the buffer. */
  lemma IndexRoundTrip(width: int, height: int, x: int, y: int)
    requires 0 <= x < width && 0 <= y < height
    ensures var i := PixelIndex(width, x, y);
      i % 4 == 0 && 0 <= i && i + 3 < 4 * width * height &&
      (i / 4) % width == x && (i / 4) / width == y
  {
    var i, n := PixelIndex(width, x, y), y * width + x;
    assert i == 4 * n;
    DivModUnique(i, 4, n, 0);
    DivModUnique(n, width, y, x);
    assert n < height * width by {
      MulNonNegative(height - 1 - y, width);
      assert (height - 1 - y) * width + y * width == height * width - width;
    }
    assert 4 * width * height == 4 * (height * width);
  }

  /** The column after pixel n's: one further right, or 0 when n ends its row. */
  lemma NextColumn(n: int, width: int)
    requires width > 0
    ensures (n + 1) % width == if n % width == width - 1 then 0 else n % width + 1
  {
    if n % width == width - 1 {
      DivModUnique(n + 1, width, n / width + 1, 0);
    } else {
      DivModUnique(n + 1, width, n / width, n % width + 1);
    }
  }

  /** With no coordinate checked, column `width` of row y is the first pixel of
      row y + 1, and column -1 of row y + 1 is the last pixel of row y. */
  lemma RowWrap(width: int, y: int)
    ensures PixelIndex(width, width, y) == PixelIndex(width, 0, y + 1)
    ensures PixelIndex(width, -1, y + 1) == PixelIndex(width, width - 1, y)
  {
  }

  /** A buffer of 4 * width * height channels is framed by its width. */
  lemma DimensionsFramed(width: nat, height: nat, s: seq<Byte>)
    requires |s| == 4 * width * height
    ensures Framed(s, width)
  {
    assert |s| == 4 * (width * height);
    if width == 0 {
      assert |s| == 0;
    }
  }

  /** Distinct in-buffer pixels have distinct indices. */
  lemma IndexInjective(width: int, height: int, x: int, y: int, x': int, y': int)
    requires 0 <= x < width && 0 <= y < height && 0 <= x' < width && 0 <= y' < height
    requires (x, y) != (x', y')
    ensures PixelIndex(width, x, y) != PixelIndex(width, x', y')
  {
    IndexRoundTrip(width, height, x, y);
    IndexRoundTrip(width, height, x', y');
  }

  /** The point emitted for pixel `p` sits at raster position `p` and carries that pixel. */
  lemma PointAtIsPixel(s: seq<Byte>, width: int, p: int, w: int)
    requires width > 0 && 0 <= p && 4 * p + 3 < |s|
    ensures Pos(PointAt(s, width, p, w), width) == p
    ensures IsPixelPoint(s, width, PointAt(s, width, p, w), w)
  {
  }

  /** A point on an in-buffer pixel decodes back to its own coordinates. */
  lemma PosDecodes(pt: Point, width: int)
    requires 0 <= pt.x < width
    ensures Pos(pt, width) / width == pt.y && Pos(pt, width) % width == pt.x
  {
    DivModUnique(Pos(pt, width), width, pt.y, pt.x);
  }

  /** For points on in-buffer columns, a smaller raster position is exactly an
      earlier place in row-major order. */
  lemma PosOrderIsRaster(p: Point, q: Point, width: int)
    requires 0 <= p.x < width && 0 <= q.x < width
    ensures Pos(p, width) < Pos(q, width) <==> Precedes(p, q)
  {
    assert Pos(q, width) - Pos(p, width) == (q.y - p.y) * width + q.x - p.x;
    if p.y < q.y {
      MulAtLeast(q.y - p.y, width);
    } else if p.y > q.y {
      MulAtLeast(p.y - q.y, width);
    }
  }

  // ---------------------------------------------------------------------------
  // Colour comparison

  /** The colour distance is symmetric. */
  lemma ColorDifferenceSymmetric(c1: Rgb, c2: Rgb)
    ensures SqColorDifference(c1, c2) == SqColorDifference(c2, c1)
    ensures WithinTolerance(c1, c2, 0) <==> c1 == c2
  {
  }

  /** samePixelColor fails on an unreadable or transparent pixel; otherwise it is
      exactly the tolerance test on the two colours. It is symmetric. */
  lemma SameColorCases(s: seq<Byte>, width: int, tolerance: nat, x0: int, y0: int, x1: int, y1: int)
    ensures var i0, i1 := PixelIndex(width, x0, y0), PixelIndex(width, x1, y1);
      (!Readable(s, i0) || !Readable(s, i1) || s[i0 + 3] == 0 || s[i1 + 3] == 0) ==>
        !SameColor(s, width, tolerance, x0, y0, x1, y1)
    ensures var i0, i1 := PixelIndex(width, x0, y0), PixelIndex(width, x1, y1);
      (Readable(s, i0) && Readable(s, i1) && s[i0 + 3] != 0 && s[i1 + 3] != 0) ==>
        (SameColor(s, width, tolerance, x0, y0, x1, y1) <==>
         SqColorDifference(ColorAt(s, i0), ColorAt(s, i1)) <= tolerance * tolerance)
    ensures SameColor(s, width, tolerance, x0, y0, x1, y1) == SameColor(s, width, tolerance, x1, y1, x0, y0)
  {
    var i0, i1 := PixelIndex(width, x0, y0), PixelIndex(width, x1, y1);
    if Readable(s, i0) && Readable(s, i1) {
      ColorDifferenceSymmetric(ColorAt(s, i0), ColorAt(s, i1));
    }
  }

  /** A pixel matches itself exactly when it is readable and opaque. */
  lemma SameColorReflexive(s: seq<Byte>, width: int, tolerance: nat, x: int, y: int)
    ensures SameColor(s, width, tolerance, x, y, x, y) <==>
      Readable(s, PixelIndex(width, x, y)) && s[PixelIndex(width, x, y) + 3] != 0
  {
  }

  // ---------------------------------------------------------------------------
  // Fading (alpha-only writes)

  lemma FadedTransitive(s: seq<Byte>, t: seq<Byte>, u: seq<Byte>)
    requires Faded(s, t) && Faded(t, u)
    ensures Faded(s, u)
  {
    forall k | 0 <= k < |s|
      ensures u[k] == s[k] || (k % 4 == 3 && u[k] == 0)
    {
      assert u[k] == t[k] || (k % 4 == 3 && u[k] == 0);
    }
  }

  /** A pixel (number n) still opaque after fading has all four channels it had before. */
  lemma FadedOpaque(s: seq<Byte>, t: seq<Byte>, n: int)
    requires Faded(s, t) && Readable(s, 4 * n) && t[4 * n + 3] != 0
    ensures t[4 * n] == s[4 * n] && t[4 * n + 1] == s[4 * n + 1] && t[4 * n + 2] == s[4 * n + 2]
    ensures t[4 * n + 3] == s[4 * n + 3]
  {
    assert (4 * n) % 4 == 0 && (4 * n + 1) % 4 == 1 && (4 * n + 2) % 4 == 2 && (4 * n + 3) % 4 == 3;
  }

  /** Fading never makes two pixels match that did not match before. */
  lemma FadedSameColor(s: seq<Byte>, t: seq<Byte>, width: int, tolerance: nat, x0: int, y0: int, x1: int, y1: int)
    requires Faded(s, t) && SameColor(t, width, tolerance, x0, y0, x1, y1)
    ensures SameColor(s, width, tolerance, x0, y0, x1, y1)
  {
    var n0, n1 := y0 * width + x0, y1 * width + x1;
    assert PixelIndex(width, x0, y0) == 4 * n0 && PixelIndex(width, x1, y1) == 4 * n1;
    FadedOpaque(s, t, n0);
    FadedOpaque(s, t, n1);
    assert ColorAt(t, 4 * n0) == ColorAt(s, 4 * n0) && ColorAt(t, 4 * n1) == ColorAt(s, 4 * n1);
  }

  /** A point on a pixel that is still opaque after fading carries the original pixel. */
  lemma FadedPixelPoint(s: seq<Byte>, t: seq<Byte>, width: int, pt: Point, w: int)
    requires Faded(s, t) && IsPixelPoint(t, width, pt, w) && pt.a != 0
    ensures IsPixelPoint(s, width, pt, w)
  {
    FadedOpaque(s, t, Pos(pt, width));
  }
}
