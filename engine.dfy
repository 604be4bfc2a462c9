/** The Pointiller object: a canvas size, the RGBA buffer of the image it
    holds, and the colour tolerance its ring test uses. Every method works on
    the buffer in place and is proved against the functions that specify it. */
module Engine {
  import opened Pixels
  import opened Ring
  import opened Coverage
  import opened Sampling

  class Pointiller {
    var width: nat
    var height: nat
    /** The image's channels, four per pixel, row by row. */
    var data: array<Byte>
    var colorTolerance: nat

    /** The buffer holds exactly the pixels of a width by height image: whole
        pixels, and a positive width as soon as there is one. */
    ghost predicate Valid()
      reads this
    {
      data.Length == 4 * width * height && data.Length % 4 == 0 && (data.Length > 0 ==> width > 0)
    }

    /** A Pointiller for a canvas of the given size holding the given image;
        the tolerance starts at 1. */
    constructor(width: nat, height: nat, image: seq<Byte>)
      requires |image| == 4 * width * height
      ensures Valid() && fresh(data)
      ensures this.width == width && this.height == height
      ensures data[..] == image && colorTolerance == 1
    {
      DimensionsFramed(width, height, image);
      this.width := width;
      this.height := height;
      data := new Byte[|image|](k requires 0 <= k < |image| => image[k]);
      colorTolerance := 1;
    }

    /** samePixelColor: a channel read outside the buffer is undefined and
        makes the colour comparison fail. */
    method SamePixelColor(x0: int, y0: int, x1: int, y1: int) returns (same: bool)
      ensures same == SameColor(data[..], width, colorTolerance, x0, y0, x1, y1)
    {
      var i0 := PixelIndex(width, x0, y0);
      var i1 := PixelIndex(width, x1, y1);
      if !(0 <= i0 && i0 + 3 < data.Length && 0 <= i1 && i1 + 3 < data.Length) {
        return false;
      }
      if data[i0 + 3] == 0 || data[i1 + 3] == 0 {
        return false;
      }
      var c0 := Rgb(data[i0], data[i0 + 1], data[i0 + 2]);
      var c1 := Rgb(data[i1], data[i1 + 1], data[i1 + 2]);
      same := SqColorDifference(c0, c1) <= colorTolerance * colorTolerance;
    }

    /** One step of samePixelsColorArroundRadius: the eight symmetric offsets
        of (x, y), in the source's order, each compared with the centre;
        the first miss ends the step. */
    method OctantMatches(x0: int, y0: int, x: int, y: int) returns (same: bool)
      ensures same == OctantSame(data[..], width, colorTolerance, x0, y0, x, y)
    {
      var offsets := Octant(x, y);
      var j := 0;
      while j < 8
        invariant 0 <= j <= 8
        invariant forall j' :: 0 <= j' < j ==>
          SameColor(data[..], width, colorTolerance, x0, y0, offsets[j'].0 + x0, offsets[j'].1 + y0)
      {
        same := SamePixelColor(x0, y0, offsets[j].0 + x0, offsets[j].1 + y0);
        if !same {
          return;
        }
        j := j + 1;
      }
      return true;
    }

    /** samePixelsColorArroundRadius: the midpoint walk over one octant, each
        step checked at its eight symmetric offsets, stopping at the first miss. */
    method SamePixelsColorAroundRadius(x0: int, y0: int, r: int) returns (uniform: bool)
      ensures uniform == RingUniform(data[..], width, colorTolerance, x0, y0, r)
    {
      var x, y, d := r, 0, 1 - r;
      ghost var visited: seq<(int, int)> := [];
      while x >= y
        invariant RingSteps(r) == visited + Walk(x, y, d)
        invariant forall k :: 0 <= k < |visited| ==>
          OctantSame(data[..], width, colorTolerance, x0, y0, visited[k].0, visited[k].1)
        decreases x - y
      {
        var same := OctantMatches(x0, y0, x, y);
        if !same {
          RingFailsAt(data[..], width, colorTolerance, x0, y0, r, visited, x, y, d);
          return false;
        }
        WalkAdvance(visited, x, y, d);
        visited := visited + [(x, y)];
        y := y + 1;
        if d <= 0 {
          d := d + 2 * y + 1;
        } else {
          x := x - 1;
          d := d + 2 * (y - x) + 1;
        }
      }
      return true;
    }

    /** makeTransparentPixel: sets the alpha channel of pixel (x, y); a write
        outside the buffer is ignored. */
    method MakeTransparentPixel(x: int, y: int, a: Byte)
      modifies data
      ensures var i := PixelIndex(width, x, y);
        data[..] == if 0 <= i + 3 < data.Length then old(data[..])[i + 3 := a] else old(data[..])
    {
      var i := PixelIndex(width, x, y);
      if 0 <= i + 3 < data.Length {
        data[i + 3] := a;
      }
    }

    /** makePixelsTransparentArroundRadius: scans the flat positions from the
        disk's top-left corner to its bottom-right corner, decodes each into a
        column and a row, and clears those within the radius. */
    method MakePixelsTransparentAroundRadius(x0: int, y0: int, r: int)
      requires Valid()
      modifies data
      ensures Valid()
      ensures data[..] == ConsumeDisk(old(data[..]), width, x0, y0, r)
    {
      if width == 0 {
        // The buffer is empty: every write falls outside it.
        return;
      }
      ghost var s := data[..];
      var idxmin := PixelIndex(width, x0 - r, y0 - r);
      var idxmax := PixelIndex(width, x0 + r, y0 + r);
      ghost var lo := (y0 - r) * width + (x0 - r);
      ghost var hi := (y0 + r) * width + (x0 + r);
      ConsumeBetweenEmpty(s, width, x0, y0, r, lo);
      var i := idxmin;
      ghost var n := lo;
      while i <= idxmax
        invariant i == 4 * n && lo <= n && (n == lo || n <= hi + 1)
        invariant data[..] == ConsumeBetween(s, width, x0, y0, r, lo, n)
        decreases idxmax - i
      {
        var q := i / 4;
        assert q == n;
        var x := JsRemainder(q, width);
        var y := q / width;
        ConsumeBetweenVisit(s, width, x0, y0, r, lo, q);
        if WithinRadius(x - x0, y - y0, r) {
          MakeTransparentPixel(x, y, 0);
        }
        i := i + 4;
        n := n + 1;
      }
      ConsumeBetweenAll(s, width, x0, y0, r, lo, n);
    }

    /** The body of toSizablePoints' loop at channel offset i: a transparent
        pixel is skipped; an opaque one whose ring is uniform is emitted, with
        the pixel's channels as read before the ring test, and with `extrude`
        its disk is consumed. The pass from i / 4 on is what this step emits
        followed by the pass from the next pixel on, over the new buffer. */
    method VisitPixel(i: int, size: int, extrude: bool) returns (emitted: seq<Point>)
      requires Valid() && 0 <= i < data.Length && i % 4 == 0
      modifies data
      ensures Valid()
      ensures Scan(old(data[..]), width, colorTolerance, size, extrude, i / 4) ==
        Pass(emitted + Scan(data[..], width, colorTolerance, size, extrude, i / 4 + 1).points,
             Scan(data[..], width, colorTolerance, size, extrude, i / 4 + 1).buffer)
    {
      ghost var t := data[..];
      ghost var p := i / 4;
      emitted := [];
      if data[i + 3] == 0 {
        ScanSkip(t, width, colorTolerance, size, extrude, p);
        return;
      }
      var x := (i / 4) % width;
      var y := (i / 4) / width;
      var red, green, blue, alpha := data[i], data[i + 1], data[i + 2], data[i + 3];
      var uniform := SamePixelsColorAroundRadius(x, y, size);
      if !uniform {
        ScanSkip(t, width, colorTolerance, size, extrude, p);
        return;
      }
      emitted := [Point(x, y, red, green, blue, alpha, size * 2)];
      assert emitted == [PointAt(t, width, p, 2 * size)];
      if extrude {
        MakePixelsTransparentAroundRadius(x, y, size);
      }
      ScanVisitAccepted(t, width, colorTolerance, size, extrude, p, emitted, data[..]);
    }

    /** toSizablePoints: one raster pass at radius `size`; it emits every opaque
        pixel whose ring is uniform, and with `extrude` consumes its disk. */
    method ToSizablePoints(size: int, extrude: bool) returns (points: seq<Point>)
      requires Valid()
      modifies data
      ensures Valid()
      ensures Pass(points, data[..]) == Scan(old(data[..]), width, colorTolerance, size, extrude, 0)
    {
      ghost var s := data[..];
      points := [];
      var i := 0;
      ghost var n := 0;
      ghost var pixels := data.Length / 4;
      assert data.Length == 4 * pixels;
      while i < data.Length
        invariant i == 4 * n && 0 <= n <= pixels
        invariant Scan(s, width, colorTolerance, size, extrude, 0) ==
          Pass(points + Scan(data[..], width, colorTolerance, size, extrude, n).points,
               Scan(data[..], width, colorTolerance, size, extrude, n).buffer)
      {
        assert i / 4 == n && i % 4 == 0;
        var emitted := VisitPixel(i, size, extrude);
        ConcatAssoc(points, emitted, Scan(data[..], width, colorTolerance, size, extrude, n + 1).points);
        points := points + emitted;
        i := i + 4;
        n := n + 1;
      }
    }

    /** toAdaptivePoints: sets the tolerance, then runs extruding passes from
        `maxSize` down to `minSize` in steps of `step`, concatenating their points. */
    method ToAdaptivePoints(minSize: int, maxSize: int, step: int, tolerance: nat) returns (points: seq<Point>)
      requires Valid() && step >= 1
      modifies this`colorTolerance, data
      ensures Valid()
      ensures colorTolerance == tolerance
      ensures Pass(points, data[..]) == Adaptive(old(data[..]), width, tolerance, maxSize, minSize, step)
    {
      ghost var s := data[..];
      colorTolerance := tolerance;
      points := [];
      var size := maxSize;
      while size >= minSize
        invariant colorTolerance == tolerance && Valid()
        invariant Framed(data[..], width)
        invariant Adaptive(s, width, tolerance, maxSize, minSize, step) ==
          Pass(points + Adaptive(data[..], width, tolerance, size, minSize, step).points,
               Adaptive(data[..], width, tolerance, size, minSize, step).buffer)
        decreases size - minSize
      {
        ghost var t := data[..];
        AdaptiveRun(t, width, tolerance, size, minSize, step);
        var pts := ToSizablePoints(size, true);
        ConcatAssoc(points, pts, Adaptive(data[..], width, tolerance, size - step, minSize, step).points);
        points := points + pts;
        size := size - step;
      }
    }

    /** excludeColor: every opaque pixel within `tolerance` of `color` becomes transparent. */
    method ExcludeColor(color: Rgb, tolerance: nat)
      requires Valid()
      modifies data
      ensures Valid()
      ensures data[..] == ExcludeMatching(old(data[..]), color, tolerance)
    {
      ghost var s := data[..];
      ExcludeBeforeEmpty(s, color, tolerance);
      var i := 0;
      while i < data.Length
        invariant 0 <= i <= data.Length && i % 4 == 0
        invariant data[..] == ExcludeBefore(s, color, tolerance, i)
      {
        ExcludeBeforeStep(s, color, tolerance, i);
        if data[i + 3] != 0 {
          var pixel := Rgb(data[i], data[i + 1], data[i + 2]);
          if WithinTolerance(color, pixel, tolerance) {
            data[i + 3] := 0;
          }
        }
        i := i + 4;
      }
      ExcludeBeforeAll(s, color, tolerance, i);
    }

    /** toPoints: every `weight`-th pixel of every `weight`-th row, skipping the
        transparent ones and the step that reaches the row's end, as points of
        diameter `weight`. With weight 1 that is every opaque pixel outside the
        last column. */
    method ToPoints(weight: int) returns (points: seq<Point>)
      requires Valid() && weight >= 1
      ensures points == Sweep(data[..], width, weight, width * (weight - 1), 0, 0, [])
      ensures AllOpaquePixels(data[..], width, weight, points)
      ensures PosIncreasing(points, width)
      ensures weight == 1 ==> points == RowInteriorPoints(data[..], width, 0)
    {
      ghost var s := data[..];
      MulNonNegative(width, weight - 1);
      ghost var skip: nat := width * (weight - 1);
      points := [];
      var posx := 0;
      var i := 0;
      ghost var n := 0;
      ghost var pixels := data.Length / 4;
      assert data.Length == 4 * pixels;
      ghost var total := Sweep(s, width, weight, skip, 0, 0, []);
      while i < data.Length
        invariant i == 4 * n && 0 <= n
        invariant Sweep(s, width, weight, skip, n, posx, points) == total
      {
        assert n < pixels && i + 3 < data.Length;
        SweepUnfold(s, width, weight, skip, n, posx, points);
        posx := posx + weight;
        if posx >= width {
          assert Sweep(s, width, weight, skip, n + skip + weight, 0, points) == total;
          posx := 0;
          if weight > 1 {
            RowSkip(width, weight);
            i := i + width * 4 * (weight - 1);
          }
          n := n + skip + weight;
        } else if data[i + 3] != 0 {
          assert i / 4 == n;
          var x := (i / 4) % width;
          var y := (i / 4) / width;
          var pt := Point(x, y, data[i], data[i + 1], data[i + 2], data[i + 3], weight);
          assert pt == PointAt(s, width, n, weight);
          assert Sweep(s, width, weight, skip, n + weight, posx, points + [pt]) == total;
          points := points + [pt];
          n := n + weight;
        } else {
          assert Sweep(s, width, weight, skip, n + weight, posx, points) == total;
          n := n + weight;
        }
        i := i + 4 * weight;
      }
      assert points == Sweep(s, width, weight, skip, n, posx, points);
      SweepFromStart(s, width, weight, skip);
    }
  }
}
