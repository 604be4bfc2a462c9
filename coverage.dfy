/** Coverage: the filled disk an accepted point consumes, and the colour
    exclusion filter. Both only ever set alpha channels to zero. */
module Coverage {
  import opened Pixels

  /** `Math.sqrt(dx^2 + dy^2) <= r`, in integers. For a negative r the square
      root (never negative) is always larger. */
  predicate WithinRadius(dx: int, dy: int, r: int)
  {
    r >= 0 && dx * dx + dy * dy <= r * r
  }

  /** The JavaScript `%` operator: the remainder carries the dividend's sign. */
  function JsRemainder(a: int, b: int): (m: int)
    requires b > 0
    ensures a >= 0 ==> m == a % b
    ensures a < 0 ==> -b < m <= 0
  {
    if a >= 0 then a % b else -((-a) % b)
  }

  /** Pixel number p lies in the filled disk of radius r around (x0, y0). */
  ghost predicate InDisk(width: int, p: int, x0: int, y0: int, r: int)
  {
    width > 0 && WithinRadius(p % width - x0, p / width - y0, r)
  }

  /** makePixelsTransparentArroundRadius as a function of the buffer: every
      in-buffer pixel of the disk loses its alpha, nothing else changes. */
  ghost function ConsumeDisk(s: seq<Byte>, width: int, x0: int, y0: int, r: int): (t: seq<Byte>)
    ensures |t| == |s|
  {
    seq(|s|, k requires 0 <= k < |s| => if k % 4 == 3 && InDisk(width, k / 4, x0, y0, r) then 0 else s[k])
  }

  /** makePixelsTransparentArroundRadius part way through its scan: only the
      disk pixels whose number lies in [lo, hi) have lost their alpha. */
  ghost function ConsumeBetween(s: seq<Byte>, width: int, x0: int, y0: int, r: int, lo: int, hi: int): (t: seq<Byte>)
    ensures |t| == |s|
  {
    seq(|s|, k requires 0 <= k < |s| =>
      if k % 4 == 3 && lo <= k / 4 < hi && InDisk(width, k / 4, x0, y0, r) then 0 else s[k])
  }

  /** excludeColor part way through its scan: only the pixels starting below
      channel offset `hi` have been filtered. */
  ghost function ExcludeBefore(s: seq<Byte>, color: Rgb, tolerance: nat, hi: int): (t: seq<Byte>)
    ensures |t| == |s|
  {
    seq(|s|, k requires 0 <= k < |s| =>
      if k % 4 == 3 && k < hi && s[k] != 0 && WithinTolerance(color, Rgb(s[k - 3], s[k - 2], s[k - 1]), tolerance)
      then 0 else s[k])
  }

  /** Every in-buffer pixel of the disk is transparent in `t`: the alpha
      channel (offset k with k % 4 == 3) of each of its pixels is zero. */
  ghost predicate DiskCleared(t: seq<Byte>, width: int, x0: int, y0: int, r: int)
  {
    forall k :: 0 <= k < |t| && k % 4 == 3 && InDisk(width, k / 4, x0, y0, r) ==> t[k] == 0
  }

  /** excludeColor as a function of the buffer: every opaque pixel within the
      tolerance of `color` loses its alpha, nothing else changes. */
  ghost function ExcludeMatching(s: seq<Byte>, color: Rgb, tolerance: nat): (t: seq<Byte>)
    ensures |t| == |s|
  {
    seq(|s|, k requires 0 <= k < |s| =>
      if k % 4 == 3 && s[k] != 0 && WithinTolerance(color, Rgb(s[k - 3], s[k - 2], s[k - 1]), tolerance)
      then 0 else s[k])
  }

  // ---------------------------------------------------------------------------

  /** A square no larger than r^2 has a root between -r and r. */
  lemma SquareBound(d: int, r: int)
    requires r >= 0 && d * d <= r * r
    ensures -r <= d <= r
  {
    assert (d - r) * (d + r) == d * d - r * r;
    assert (r - d) * (-r - d) == d * d - r * r;
    if d > r {
      MulPositive(d - r, d + r);
    } else if d < -r {
      MulPositive(r - d, -r - d);
    }
  }

  /** JavaScript decodes a negative flat position q into the column
      `q % width` (not above zero) and the row `Math.floor(q / width)`; the
      pixel index of that pair is negative again, so a write there is lost. */
  lemma NegativeDecode(q: int, width: int)
    requires q < 0 && width > 0
    ensures PixelIndex(width, JsRemainder(q, width), q / width) < 0
  {
    assert q == width * (q / width) + q % width && q % width >= 0;
    assert (q / width) * width <= q;
  }

  /** The disk lies between the flat positions of its bounding box's top-left
      corner (x0 - r, y0 - r) and bottom-right corner (x0 + r, y0 + r), so the
      source's scan of that flat range reaches every pixel of it. */
  lemma DiskBox(width: int, p: int, x0: int, y0: int, r: int)
    requires 0 <= p && InDisk(width, p, x0, y0, r)
    ensures (y0 - r) * width + (x0 - r) <= p <= (y0 + r) * width + (x0 + r)
  {
    var x, y := p % width, p / width;
    var dx, dy := x - x0, y - y0;
    SquareSign(dx);
    SquareSign(dy);
    assert dx * dx <= r * r && dy * dy <= r * r;
    SquareBound(dx, r);
    SquareBound(dy, r);
    assert p == y * width + x;
    MulNonNegative(y - (y0 - r), width);
    MulNonNegative((y0 + r) - y, width);
    assert (y0 - r) * width + (y - (y0 - r)) * width == y * width;
    assert (y0 + r) * width == y * width + ((y0 + r) - y) * width;
  }

  /** Disk consumption only clears alpha channels, and clears the disk. */
  lemma ConsumeDiskEffect(s: seq<Byte>, width: int, x0: int, y0: int, r: int)
    ensures Faded(s, ConsumeDisk(s, width, x0, y0, r))
    ensures DiskCleared(ConsumeDisk(s, width, x0, y0, r), width, x0, y0, r)
  {
  }

  /** Disk consumption, pixel by pixel: a pixel of the disk loses its alpha,
      any other pixel keeps it, and every colour channel is kept. */
  lemma ConsumeDiskPixel(s: seq<Byte>, width: int, x0: int, y0: int, r: int, p: int)
    requires 0 <= p && 4 * p + 3 < |s|
    ensures var t := ConsumeDisk(s, width, x0, y0, r);
      t[4 * p + 3] == (if InDisk(width, p, x0, y0, r) then 0 else s[4 * p + 3]) &&
      t[4 * p] == s[4 * p] && t[4 * p + 1] == s[4 * p + 1] && t[4 * p + 2] == s[4 * p + 2]
  {
    assert (4 * p + 3) % 4 == 3 && (4 * p + 3) / 4 == p;
    assert (4 * p) % 4 == 0 && (4 * p + 1) % 4 == 1 && (4 * p + 2) % 4 == 2;
  }

  /** A radius below zero consumes nothing. */
  lemma ConsumeNegativeRadius(s: seq<Byte>, width: int, x0: int, y0: int, r: int)
    requires r < 0
    ensures ConsumeDisk(s, width, x0, y0, r) == s
  {
  }

  /** excludeColor: an opaque pixel within the tolerance of the colour becomes
      transparent; every other pixel, and every colour channel, is unchanged. */
  lemma ExcludeEffect(s: seq<Byte>, color: Rgb, tolerance: nat)
    requires |s| % 4 == 0
    ensures var t := ExcludeMatching(s, color, tolerance);
      Faded(s, t) &&
      forall p :: 0 <= p < |s| / 4 ==>
        t[4 * p + 3] == (if s[4 * p + 3] != 0 && WithinTolerance(color, ColorAt(s, 4 * p), tolerance)
                         then 0 else s[4 * p + 3]) &&
        t[4 * p] == s[4 * p] && t[4 * p + 1] == s[4 * p + 1] && t[4 * p + 2] == s[4 * p + 2]
  {
    var t := ExcludeMatching(s, color, tolerance);
    forall p | 0 <= p < |s| / 4
      ensures t[4 * p + 3] == (if s[4 * p + 3] != 0 && WithinTolerance(color, ColorAt(s, 4 * p), tolerance)
                               then 0 else s[4 * p + 3])
      ensures t[4 * p] == s[4 * p] && t[4 * p + 1] == s[4 * p + 1] && t[4 * p + 2] == s[4 * p + 2]
    {
      assert (4 * p + 3) % 4 == 3 && (4 * p + 3) - 3 == 4 * p;
      assert (4 * p) % 4 == 0 && (4 * p + 1) % 4 == 1 && (4 * p + 2) % 4 == 2;
    }
  }

  /** Excluding a colour twice leaves the buffer as excluding it once. */
  lemma ExcludeIdempotent(s: seq<Byte>, color: Rgb, tolerance: nat)
    ensures ExcludeMatching(ExcludeMatching(s, color, tolerance), color, tolerance) == ExcludeMatching(s, color, tolerance)
  {
    var t := ExcludeMatching(s, color, tolerance);
    var u := ExcludeMatching(t, color, tolerance);
    forall k | 0 <= k < |s|
      ensures u[k] == t[k]
    {
      ExcludeTwiceAt(s, color, tolerance, k);
    }
    assert u == t;
  }

  /** The second exclusion leaves channel k of the first one's result as it is:
      a cleared alpha stays cleared, and a kept pixel still has its colour. */
  lemma ExcludeTwiceAt(s: seq<Byte>, color: Rgb, tolerance: nat, k: int)
    requires 0 <= k < |s|
    ensures ExcludeMatching(ExcludeMatching(s, color, tolerance), color, tolerance)[k] == ExcludeMatching(s, color, tolerance)[k]
  {
    if k % 4 == 3 {
      var t := ExcludeMatching(s, color, tolerance);
      ExcludeKeepsColor(s, color, tolerance, k - 3);
      var c := Rgb(s[k - 3], s[k - 2], s[k - 1]);
      assert Rgb(t[k - 3], t[k - 2], t[k - 1]) == c;
      assert t[k] == if s[k] != 0 && WithinTolerance(color, c, tolerance) then 0 else s[k];
    }
  }

  lemma ExcludeKeepsColor(s: seq<Byte>, color: Rgb, tolerance: nat, i: int)
    requires 0 <= i && i + 3 < |s| && i % 4 == 0
    ensures var t := ExcludeMatching(s, color, tolerance);
      t[i] == s[i] && t[i + 1] == s[i + 1] && t[i + 2] == s[i + 2]
  {
    assert (i + 1) % 4 == 1 && (i + 2) % 4 == 2;
  }

  // ---------------------------------------------------------------------------
  // The scan of makePixelsTransparentArroundRadius

  /** A position q decodes, as the source does it, to the pixel index 4 * q
      when q is not negative, and to a negative index otherwise. */
  lemma DecodeFlat(q: int, width: int)
    requires width > 0
    ensures q >= 0 ==> PixelIndex(width, JsRemainder(q, width), q / width) == 4 * q
    ensures q < 0 ==> PixelIndex(width, JsRemainder(q, width), q / width) + 3 < 0
  {
    if q < 0 {
      NegativeDecode(q, width);
    } else {
      assert q == (q / width) * width + q % width;
    }
  }

  /** Before the scan nothing is cleared. */
  lemma ConsumeBetweenEmpty(s: seq<Byte>, width: int, x0: int, y0: int, r: int, lo: int)
    ensures ConsumeBetween(s, width, x0, y0, r, lo, lo) == s
  {
  }

  /** Visiting position q as the source does: decode it into a column and a
      row, and clear the alpha at their index when they are within the radius
      and the index is inside the buffer. */
  lemma ConsumeBetweenVisit(s: seq<Byte>, width: int, x0: int, y0: int, r: int, lo: int, q: int)
    requires |s| % 4 == 0 && lo <= q && width > 0
    ensures var x, y := JsRemainder(q, width), q / width;
      var t := ConsumeBetween(s, width, x0, y0, r, lo, q);
      ConsumeBetween(s, width, x0, y0, r, lo, q + 1) ==
        if WithinRadius(x - x0, y - y0, r) && 0 <= PixelIndex(width, x, y) + 3 < |s|
        then t[PixelIndex(width, x, y) + 3 := 0] else t
  {
    DecodeFlat(q, width);
    ConsumeBetweenStep(s, width, x0, y0, r, lo, q);
  }

  /** Visiting position q clears its alpha when it is an in-buffer pixel of
      the disk, and changes nothing otherwise. */
  lemma ConsumeBetweenStep(s: seq<Byte>, width: int, x0: int, y0: int, r: int, lo: int, q: int)
    requires |s| % 4 == 0 && lo <= q
    ensures var t := ConsumeBetween(s, width, x0, y0, r, lo, q);
      ConsumeBetween(s, width, x0, y0, r, lo, q + 1) ==
        if 0 <= q && 4 * q + 3 < |s| && InDisk(width, q, x0, y0, r) then t[4 * q + 3 := 0] else t
  {
    var t := ConsumeBetween(s, width, x0, y0, r, lo, q);
    var u := ConsumeBetween(s, width, x0, y0, r, lo, q + 1);
    var v := if 0 <= q && 4 * q + 3 < |s| && InDisk(width, q, x0, y0, r) then t[4 * q + 3 := 0] else t;
    forall k | 0 <= k < |s|
      ensures u[k] == v[k]
    {
      if k / 4 == q {
        assert 4 * q <= k < 4 * q + 4;
        assert k % 4 == 3 <==> k == 4 * q + 3;
      }
    }
    assert u == v;
  }

  /** A scan from at most the disk's first position to past its last clears
      the whole disk. */
  lemma ConsumeBetweenAll(s: seq<Byte>, width: int, x0: int, y0: int, r: int, lo: int, hi: int)
    requires lo <= (y0 - r) * width + (x0 - r) && (y0 + r) * width + (x0 + r) < hi
    ensures ConsumeBetween(s, width, x0, y0, r, lo, hi) == ConsumeDisk(s, width, x0, y0, r)
  {
    var t := ConsumeBetween(s, width, x0, y0, r, lo, hi);
    var u := ConsumeDisk(s, width, x0, y0, r);
    forall k | 0 <= k < |s|
      ensures t[k] == u[k]
    {
      if InDisk(width, k / 4, x0, y0, r) {
        DiskBox(width, k / 4, x0, y0, r);
      }
    }
    assert t == u;
  }

  // ---------------------------------------------------------------------------
  // The scan of excludeColor

  /** Before the scan nothing is filtered. */
  lemma ExcludeBeforeEmpty(s: seq<Byte>, color: Rgb, tolerance: nat)
    ensures ExcludeBefore(s, color, tolerance, 0) == s
  {
  }

  /** Filtering the pixel at channel offset i: its colour channels are still
      the original ones, and its alpha is cleared when it is opaque and within
      the tolerance. */
  lemma ExcludeBeforeStep(s: seq<Byte>, color: Rgb, tolerance: nat, i: int)
    requires 0 <= i && i % 4 == 0 && i + 3 < |s|
    ensures var t := ExcludeBefore(s, color, tolerance, i);
      t[i] == s[i] && t[i + 1] == s[i + 1] && t[i + 2] == s[i + 2] && t[i + 3] == s[i + 3] &&
      ExcludeBefore(s, color, tolerance, i + 4) ==
        if s[i + 3] != 0 && WithinTolerance(color, Rgb(s[i], s[i + 1], s[i + 2]), tolerance)
        then t[i + 3 := 0] else t
  {
    var t := ExcludeBefore(s, color, tolerance, i);
    var u := ExcludeBefore(s, color, tolerance, i + 4);
    var v := if s[i + 3] != 0 && WithinTolerance(color, Rgb(s[i], s[i + 1], s[i + 2]), tolerance)
             then t[i + 3 := 0] else t;
    assert (i + 1) % 4 == 1 && (i + 2) % 4 == 2 && (i + 3) % 4 == 3;
    forall k | 0 <= k < |s|
      ensures u[k] == v[k]
    {
      if i <= k < i + 4 {
        assert k % 4 == 3 <==> k == i + 3;
      }
    }
    assert u == v;
  }

  /** A scan past the last pixel has filtered the whole buffer. */
  lemma ExcludeBeforeAll(s: seq<Byte>, color: Rgb, tolerance: nat, hi: int)
    requires hi >= |s|
    ensures ExcludeBefore(s, color, tolerance, hi) == ExcludeMatching(s, color, tolerance)
  {
  }
}
