/** The sampling passes as functions of the buffer: one raster pass at a fixed
    radius (toSizablePoints), the adaptive run over shrinking radii
    (toAdaptivePoints) and the stride-one grid sampler (toPoints). */
module Sampling {
  import opened Pixels
  import opened Ring
  import opened Coverage

  /** The points a pass emits and the buffer it leaves behind. */
  datatype Pass = Pass(points: seq<Point>, buffer: seq<Byte>)

  /** A pass of radius `size` accepts pixel number p of `s`: the pixel is
      opaque and its ring of radius `size` is uniform. */
  ghost predicate Accepts(s: seq<Byte>, width: int, tolerance: nat, size: int, p: int)
  {
    width > 0 && 0 <= p && 4 * p + 3 < |s| && s[4 * p + 3] != 0 &&
    RingUniform(s, width, tolerance, p % width, p / width, size)
  }

  /** The buffer after accepting pixel p: with `extrude` its disk is consumed. */
  ghost function AfterAccept(s: seq<Byte>, width: int, size: int, extrude: bool, p: int): (t: seq<Byte>)
    requires width > 0
  {
    if extrude then ConsumeDisk(s, width, p % width, p / width, size) else s
  }

  /** toSizablePoints from pixel number p on: an accepted pixel (in the buffer
      as it is at that moment) is emitted with diameter 2 * size, and the scan
      goes on over the buffer after accepting it. */
  ghost function Scan(s: seq<Byte>, width: int, tolerance: nat, size: int, extrude: bool, p: nat): (res: Pass)
    requires Framed(s, width)
    ensures |res.buffer| == |s|
    decreases |s| - 4 * p
  {
    if 4 * p >= |s| then Pass([], s)
    else if Accepts(s, width, tolerance, size, p) then
      var rest := Scan(AfterAccept(s, width, size, extrude, p), width, tolerance, size, extrude, p + 1);
      Pass([PointAt(s, width, p, 2 * size)] + rest.points, rest.buffer)
    else Scan(s, width, tolerance, size, extrude, p + 1)
  }

  /** toAdaptivePoints from radius `size` on: a consuming pass per radius while
      the radius is at least `minSize`, the radius dropping by `step` each time,
      the passes' points concatenated in order. */
  ghost function Adaptive(s: seq<Byte>, width: int, tolerance: nat, size: int, minSize: int, step: int): (res: Pass)
    requires Framed(s, width) && step >= 1
    ensures |res.buffer| == |s|
    decreases size - minSize
  {
    if size < minSize then Pass([], s)
    else
      var first := Scan(s, width, tolerance, size, true, 0);
      var rest := Adaptive(first.buffer, width, tolerance, size - step, minSize, step);
      Pass(first.points + rest.points, rest.buffer)
  }

  /** Pixel number k is one toPoints keeps at weight 1: opaque and not in the last column. */
  ghost predicate RowInterior(s: seq<Byte>, width: int, k: int)
  {
    width > 0 && 0 <= k && 4 * k + 3 < |s| && k % width < width - 1 && s[4 * k + 3] != 0
  }

  /** toPoints with weight 1 from pixel number p on: every opaque pixel except
      those of the last column, as a point of diameter 1. */
  ghost function RowInteriorPoints(s: seq<Byte>, width: int, p: nat): (pts: seq<Point>)
    requires Framed(s, width)
    ensures forall i :: 0 <= i < |pts| ==> pts[i].w == 1 && pts[i].a != 0 && pts[i].x < width - 1
    decreases |s| - 4 * p
  {
    if 4 * p >= |s| then []
    else (if RowInterior(s, width, p) then [PointAt(s, width, p, 1)] else []) + RowInteriorPoints(s, width, p + 1)
  }

  /** toPoints from pixel number n on, with `posx` the column count the loop
      keeps and `acc` the points it holds: each step advances `weight` pixels;
      the step whose count reaches the width emits nothing, resets the count
      and skips `skip` further pixels (the loop skips `weight - 1` rows, so
      `skip` is width * (weight - 1)); any other step appends its pixel when
      it is opaque. The result is the list the loop ends with. */
  ghost function Sweep(s: seq<Byte>, width: int, weight: int, skip: nat, n: nat, posx: int, acc: seq<Point>): (pts: seq<Point>)
    requires Framed(s, width) && weight >= 1
    ensures |acc| <= |pts| && pts[..|acc|] == acc
    decreases |s| - 4 * n
  {
    if 4 * n >= |s| then acc
    else if posx + weight >= width then Sweep(s, width, weight, skip, n + skip + weight, 0, acc)
    else if s[4 * n + 3] != 0 then Sweep(s, width, weight, skip, n + weight, posx + weight, acc + [PointAt(s, width, n, weight)])
    else Sweep(s, width, weight, skip, n + weight, posx + weight, acc)
  }

  /** Every point of `pts` carries an opaque pixel of `s` before position n,
      with diameter `w`. */
  ghost predicate OpaqueBefore(s: seq<Byte>, width: int, w: int, pts: seq<Point>, n: int)
  {
    forall i :: 0 <= i < |pts| ==> IsPixelPoint(s, width, pts[i], w) && pts[i].a != 0 && Pos(pts[i], width) < n
  }

  /** `pt` was emitted by a pass of radius `size` over a buffer that started as
      `s`: it carries an opaque pixel of `s` whose ring is uniform in `s`. */
  ghost predicate EmittedFrom(s: seq<Byte>, width: int, tolerance: nat, size: int, pt: Point)
  {
    IsPixelPoint(s, width, pt, 2 * size) && pt.a != 0 && RingUniform(s, width, tolerance, pt.x, pt.y, size)
  }

  /** Every point was emitted from `s` at radius `size`, at raster position p or later. */
  ghost predicate AllEmittedFrom(s: seq<Byte>, width: int, tolerance: nat, size: int, pts: seq<Point>, p: int)
  {
    forall i :: 0 <= i < |pts| ==> EmittedFrom(s, width, tolerance, size, pts[i]) && p <= Pos(pts[i], width)
  }

  /** Raster positions strictly increase along the list. */
  ghost predicate PosIncreasing(pts: seq<Point>, width: int)
  {
    forall i, j :: 0 <= i < j < |pts| ==> Pos(pts[i], width) < Pos(pts[j], width)
  }

  /** Squared distance between two points' pixels. */
  function SqDist(c: Point, q: Point): (d: int)
  {
    (q.x - c.x) * (q.x - c.x) + (q.y - c.y) * (q.y - c.y)
  }

  /** The disk of radius `size` around every point is cleared in `t`. */
  ghost predicate AllDisksCleared(t: seq<Byte>, width: int, size: int, pts: seq<Point>)
  {
    forall i :: 0 <= i < |pts| ==> DiskCleared(t, width, pts[i].x, pts[i].y, size)
  }

  /** Any two points lie more than `size` apart. */
  ghost predicate Separated(pts: seq<Point>, size: int)
  {
    forall i, j :: 0 <= i < j < |pts| ==> SqDist(pts[i], pts[j]) > size * size
  }

  // ---------------------------------------------------------------------------
  // Helpers about consumed disks and point lists

  /** A cleared disk stays cleared while the buffer only fades. */
  lemma DiskClearedFaded(t: seq<Byte>, u: seq<Byte>, width: int, x0: int, y0: int, r: int)
    requires Faded(t, u) && DiskCleared(t, width, x0, y0, r)
    ensures DiskCleared(u, width, x0, y0, r)
  {
  }

  /** An opaque pixel of a buffer lies outside every cleared disk of it. */
  lemma OutsideClearedDisk(t: seq<Byte>, width: int, c: Point, q: Point, r: int, w: int)
    requires r >= 0 && DiskCleared(t, width, c.x, c.y, r)
    requires IsPixelPoint(t, width, q, w) && q.a != 0
    ensures SqDist(c, q) > r * r
  {
    var k := 4 * Pos(q, width) + 3;
    PosDecodes(q, width);
    assert k % 4 == 3 && k / 4 == Pos(q, width) && t[k] != 0;
    assert !InDisk(width, k / 4, c.x, c.y, r);
  }

  /** Accepting a pixel only fades the buffer. */
  lemma AcceptFades(s: seq<Byte>, width: int, size: int, extrude: bool, p: int)
    requires Framed(s, width) && width > 0
    ensures Faded(s, AfterAccept(s, width, size, extrude, p))
  {
    if extrude {
      ConsumeDiskEffect(s, width, p % width, p / width, size);
    } else {
      assert Faded(s, s);
    }
  }

  /** Every point emitted from a buffer in which the disk of radius r around c
      is cleared lies outside that disk. */
  lemma AllOutsideClearedDisk(t: seq<Byte>, width: int, tolerance: nat, r: int, c: Point, pts: seq<Point>, p: int)
    requires r >= 0 && DiskCleared(t, width, c.x, c.y, r)
    requires AllEmittedFrom(t, width, tolerance, r, pts, p)
    ensures forall j :: 0 <= j < |pts| ==> SqDist(c, pts[j]) > r * r
  {
    forall j | 0 <= j < |pts|
      ensures SqDist(c, pts[j]) > r * r
    {
      assert EmittedFrom(t, width, tolerance, r, pts[j]);
      OutsideClearedDisk(t, width, c, pts[j], r, 2 * r);
    }
  }

  /** Accepting a pixel with `extrude` clears its disk. */
  lemma AcceptClears(s: seq<Byte>, width: int, size: int, p: int)
    requires Framed(s, width) && width > 0
    ensures DiskCleared(AfterAccept(s, width, size, true, p), width, p % width, p / width, size)
  {
    ConsumeDiskEffect(s, width, p % width, p / width, size);
  }

  /** Putting in front a point whose position is below all others keeps the
      positions increasing. */
  lemma PrependIncreasing(head: Point, rest: seq<Point>, width: int)
    requires PosIncreasing(rest, width)
    requires forall i :: 0 <= i < |rest| ==> Pos(head, width) < Pos(rest[i], width)
    ensures PosIncreasing([head] + rest, width)
  {
    var pts := [head] + rest;
    forall i, j | 0 <= i < j < |pts|
      ensures Pos(pts[i], width) < Pos(pts[j], width)
    {
      assert pts[j] == rest[j - 1];
      if i > 0 {
        assert pts[i] == rest[i - 1];
      }
    }
  }

  /** Putting in front a point far enough from all others keeps the list separated. */
  lemma PrependSeparated(head: Point, rest: seq<Point>, size: int)
    requires Separated(rest, size)
    requires forall j :: 0 <= j < |rest| ==> SqDist(head, rest[j]) > size * size
    ensures Separated([head] + rest, size)
  {
    var pts := [head] + rest;
    forall i, j | 0 <= i < j < |pts|
      ensures SqDist(pts[i], pts[j]) > size * size
    {
      assert pts[j] == rest[j - 1];
      if i > 0 {
        assert pts[i] == rest[i - 1];
      }
    }
  }

  /** A disk cleared in `t` is still cleared in any faded copy `u` of it, so
      putting its centre in front of points whose disks are cleared in `u`
      keeps every disk cleared in `u`. */
  lemma PrependCleared(t: seq<Byte>, u: seq<Byte>, width: int, size: int, head: Point, rest: seq<Point>)
    requires DiskCleared(t, width, head.x, head.y, size) && Faded(t, u) && AllDisksCleared(u, width, size, rest)
    ensures AllDisksCleared(u, width, size, [head] + rest)
  {
    DiskClearedFaded(t, u, width, head.x, head.y, size);
    var pts := [head] + rest;
    forall i | 0 <= i < |pts|
      ensures DiskCleared(u, width, pts[i].x, pts[i].y, size)
    {
      if i > 0 {
        assert pts[i] == rest[i - 1];
      }
    }
  }

  // ---------------------------------------------------------------------------
  // One pass. Each inductive lemma dispatches on what the pass does at pixel
  // p; the step that emits a point is proved in a companion lemma.

  /** A pixel the pass does not accept is skipped. */
  lemma ScanSkip(s: seq<Byte>, width: int, tolerance: nat, size: int, extrude: bool, p: nat)
    requires Framed(s, width) && 4 * p < |s| && !Accepts(s, width, tolerance, size, p)
    ensures Scan(s, width, tolerance, size, extrude, p) == Scan(s, width, tolerance, size, extrude, p + 1)
  {
  }

  /** An accepted pixel is emitted in front of the rest of the pass, which runs
      over the buffer after accepting it. */
  lemma ScanAccept(s: seq<Byte>, width: int, tolerance: nat, size: int, extrude: bool, p: nat)
    requires Framed(s, width) && 4 * p < |s| && Accepts(s, width, tolerance, size, p)
    ensures Framed(AfterAccept(s, width, size, extrude, p), width)
    ensures Scan(s, width, tolerance, size, extrude, p).points ==
      [PointAt(s, width, p, 2 * size)] + Scan(AfterAccept(s, width, size, extrude, p), width, tolerance, size, extrude, p + 1).points
    ensures Scan(s, width, tolerance, size, extrude, p).buffer ==
      Scan(AfterAccept(s, width, size, extrude, p), width, tolerance, size, extrude, p + 1).buffer
  {
  }

  /** The accepting step as one visit of toSizablePoints takes it: the visit
      emits `emitted` and leaves the buffer `after`, and the pass from p is
      those points followed by the pass from p + 1 over `after`. */
  lemma ScanVisitAccepted(s: seq<Byte>, width: int, tolerance: nat, size: int, extrude: bool, p: nat,
                          emitted: seq<Point>, after: seq<Byte>)
    requires Framed(s, width) && 4 * p < |s| && Accepts(s, width, tolerance, size, p)
    requires emitted == [PointAt(s, width, p, 2 * size)] && after == AfterAccept(s, width, size, extrude, p)
    ensures Framed(after, width)
    ensures Scan(s, width, tolerance, size, extrude, p) ==
      Pass(emitted + Scan(after, width, tolerance, size, extrude, p + 1).points,
           Scan(after, width, tolerance, size, extrude, p + 1).buffer)
  {
    ScanAccept(s, width, tolerance, size, extrude, p);
  }

  /** A pass only ever clears alpha channels. */
  lemma {:induction false} ScanFaded(s: seq<Byte>, width: int, tolerance: nat, size: int, extrude: bool, p: nat)
    requires Framed(s, width)
    ensures Faded(s, Scan(s, width, tolerance, size, extrude, p).buffer)
    decreases |s| - 4 * p, 1
  {
    if 4 * p >= |s| {
      assert Faded(s, s);
    } else if Accepts(s, width, tolerance, size, p) {
      ScanFadedEmit(s, width, tolerance, size, extrude, p);
    } else {
      ScanSkip(s, width, tolerance, size, extrude, p);
      ScanFaded(s, width, tolerance, size, extrude, p + 1);
    }
  }

  lemma {:induction false} ScanFadedEmit(s: seq<Byte>, width: int, tolerance: nat, size: int, extrude: bool, p: nat)
    requires Framed(s, width) && 4 * p < |s| && Accepts(s, width, tolerance, size, p)
    ensures Faded(s, Scan(s, width, tolerance, size, extrude, p).buffer)
    decreases |s| - 4 * p, 0
  {
    var t := AfterAccept(s, width, size, extrude, p);
    ScanAccept(s, width, tolerance, size, extrude, p);
    AcceptFades(s, width, size, extrude, p);
    ScanFaded(t, width, tolerance, size, extrude, p + 1);
    FadedTransitive(s, t, Scan(t, width, tolerance, size, extrude, p + 1).buffer);
  }

  /** Points emitted from a faded copy `t` of `s` were emitted from `s`. */
  lemma AllEmittedFaded(s: seq<Byte>, t: seq<Byte>, width: int, tolerance: nat, size: int, pts: seq<Point>, p: int)
    requires Faded(s, t) && AllEmittedFrom(t, width, tolerance, size, pts, p)
    ensures AllEmittedFrom(s, width, tolerance, size, pts, p)
  {
    forall i | 0 <= i < |pts|
      ensures EmittedFrom(s, width, tolerance, size, pts[i])
    {
      FadedPixelPoint(s, t, width, pts[i], 2 * size);
      RingFaded(s, t, width, tolerance, pts[i].x, pts[i].y, size);
    }
  }

  /** Putting an emitted point at position p in front of points emitted at
      positions after p keeps every point emitted at p or later. */
  lemma PrependEmitted(s: seq<Byte>, width: int, tolerance: nat, size: int, head: Point, rest: seq<Point>, p: int)
    requires EmittedFrom(s, width, tolerance, size, head) && Pos(head, width) == p
    requires AllEmittedFrom(s, width, tolerance, size, rest, p + 1)
    ensures AllEmittedFrom(s, width, tolerance, size, [head] + rest, p)
  {
    var pts := [head] + rest;
    forall i | 0 <= i < |pts|
      ensures EmittedFrom(s, width, tolerance, size, pts[i]) && p <= Pos(pts[i], width)
    {
      if i > 0 {
        assert pts[i] == rest[i - 1];
      }
    }
  }

  /** Every point a pass emits carries an opaque pixel of the starting buffer
      (its channels as they were when the pass began, so as when it was
      visited), has diameter 2 * size, passed the ring test (in the starting
      buffer too), and the points come in strictly increasing raster position. */
  lemma {:induction false} ScanPoints(s: seq<Byte>, width: int, tolerance: nat, size: int, extrude: bool, p: nat)
    requires Framed(s, width)
    ensures AllEmittedFrom(s, width, tolerance, size, Scan(s, width, tolerance, size, extrude, p).points, p)
    ensures PosIncreasing(Scan(s, width, tolerance, size, extrude, p).points, width)
    decreases |s| - 4 * p, 1
  {
    if 4 * p < |s| {
      if Accepts(s, width, tolerance, size, p) {
        ScanPointsEmit(s, width, tolerance, size, extrude, p);
      } else {
        ScanSkip(s, width, tolerance, size, extrude, p);
        ScanPoints(s, width, tolerance, size, extrude, p + 1);
      }
    }
  }

  lemma {:induction false} ScanPointsEmit(s: seq<Byte>, width: int, tolerance: nat, size: int, extrude: bool, p: nat)
    requires Framed(s, width) && 4 * p < |s| && Accepts(s, width, tolerance, size, p)
    ensures AllEmittedFrom(s, width, tolerance, size, Scan(s, width, tolerance, size, extrude, p).points, p)
    ensures PosIncreasing(Scan(s, width, tolerance, size, extrude, p).points, width)
    decreases |s| - 4 * p, 0
  {
    var t := AfterAccept(s, width, size, extrude, p);
    ScanAccept(s, width, tolerance, size, extrude, p);
    AcceptFades(s, width, size, extrude, p);
    ScanPoints(t, width, tolerance, size, extrude, p + 1);
    var head := PointAt(s, width, p, 2 * size);
    var rest := Scan(t, width, tolerance, size, extrude, p + 1).points;
    PointAtIsPixel(s, width, p, 2 * size);
    AllEmittedFaded(s, t, width, tolerance, size, rest, p + 1);
    PrependIncreasing(head, rest, width);
    PrependEmitted(s, width, tolerance, size, head, rest, p);
  }

  /** toSizablePoints emits in row-major raster order. */
  lemma ScanRasterOrder(s: seq<Byte>, width: int, tolerance: nat, size: int, extrude: bool)
    requires Framed(s, width)
    ensures forall i, j :: 0 <= i < j < |Scan(s, width, tolerance, size, extrude, 0).points| ==>
      Precedes(Scan(s, width, tolerance, size, extrude, 0).points[i], Scan(s, width, tolerance, size, extrude, 0).points[j])
  {
    ScanPoints(s, width, tolerance, size, extrude, 0);
    var pts := Scan(s, width, tolerance, size, extrude, 0).points;
    forall i, j | 0 <= i < j < |pts|
      ensures Precedes(pts[i], pts[j])
    {
      assert EmittedFrom(s, width, tolerance, size, pts[i]) && EmittedFrom(s, width, tolerance, size, pts[j]);
      assert Pos(pts[i], width) < Pos(pts[j], width);
      PosOrderIsRaster(pts[i], pts[j], width);
    }
  }

  /** With extrude, the disk of every emitted point is cleared in the final buffer. */
  lemma {:induction false} ScanCovers(s: seq<Byte>, width: int, tolerance: nat, size: int, p: nat)
    requires Framed(s, width)
    ensures AllDisksCleared(Scan(s, width, tolerance, size, true, p).buffer, width, size,
                            Scan(s, width, tolerance, size, true, p).points)
    decreases |s| - 4 * p, 1
  {
    if 4 * p < |s| {
      if Accepts(s, width, tolerance, size, p) {
        ScanCoversEmit(s, width, tolerance, size, p);
      } else {
        ScanSkip(s, width, tolerance, size, true, p);
        ScanCovers(s, width, tolerance, size, p + 1);
      }
    }
  }

  lemma {:induction false} ScanCoversEmit(s: seq<Byte>, width: int, tolerance: nat, size: int, p: nat)
    requires Framed(s, width) && 4 * p < |s| && Accepts(s, width, tolerance, size, p)
    ensures AllDisksCleared(Scan(s, width, tolerance, size, true, p).buffer, width, size,
                            Scan(s, width, tolerance, size, true, p).points)
    decreases |s| - 4 * p, 0
  {
    var t := AfterAccept(s, width, size, true, p);
    ScanAccept(s, width, tolerance, size, true, p);
    AcceptClears(s, width, size, p);
    var rest := Scan(t, width, tolerance, size, true, p + 1);
    ScanCovers(t, width, tolerance, size, p + 1);
    ScanFaded(t, width, tolerance, size, true, p + 1);
    var head := PointAt(s, width, p, 2 * size);
    assert head.x == p % width && head.y == p / width;
    PrependCleared(t, rest.buffer, width, size, head, rest.points);
  }

  /** With extrude and a radius of at least zero, any two emitted centres are
      more than `size` apart: a later centre was still opaque when visited, so
      it lies outside every disk consumed before it. */
  lemma {:induction false} ScanSeparated(s: seq<Byte>, width: int, tolerance: nat, size: int, p: nat)
    requires Framed(s, width) && size >= 0
    ensures Separated(Scan(s, width, tolerance, size, true, p).points, size)
    decreases |s| - 4 * p, 1
  {
    if 4 * p < |s| {
      if Accepts(s, width, tolerance, size, p) {
        ScanSeparatedEmit(s, width, tolerance, size, p);
      } else {
        ScanSkip(s, width, tolerance, size, true, p);
        ScanSeparated(s, width, tolerance, size, p + 1);
      }
    }
  }

  lemma {:induction false} ScanSeparatedEmit(s: seq<Byte>, width: int, tolerance: nat, size: int, p: nat)
    requires Framed(s, width) && size >= 0 && 4 * p < |s| && Accepts(s, width, tolerance, size, p)
    ensures Separated(Scan(s, width, tolerance, size, true, p).points, size)
    decreases |s| - 4 * p, 0
  {
    var t := AfterAccept(s, width, size, true, p);
    ScanAccept(s, width, tolerance, size, true, p);
    AcceptClears(s, width, size, p);
    ScanSeparated(t, width, tolerance, size, p + 1);
    ScanPoints(t, width, tolerance, size, true, p + 1);
    var head := PointAt(s, width, p, 2 * size);
    var rest := Scan(t, width, tolerance, size, true, p + 1).points;
    AllOutsideClearedDisk(t, width, tolerance, size, head, rest, p + 1);
    assert Scan(s, width, tolerance, size, true, p).points == [head] + rest;
    PrependSeparated(head, rest, size);
  }

  /** Without extrude the buffer is left as it was. */
  lemma {:induction false} ScanKeepsBuffer(s: seq<Byte>, width: int, tolerance: nat, size: int, p: nat)
    requires Framed(s, width)
    ensures Scan(s, width, tolerance, size, false, p).buffer == s
    decreases |s| - 4 * p
  {
    if 4 * p < |s| {
      if Accepts(s, width, tolerance, size, p) {
        ScanAccept(s, width, tolerance, size, false, p);
      } else {
        ScanSkip(s, width, tolerance, size, false, p);
      }
      ScanKeepsBuffer(s, width, tolerance, size, p + 1);
    }
  }

  /** The point of pixel p is none of the points a pass from p + 1 emits, and
      no later pixel has the same point. */
  lemma ScanFresh(s: seq<Byte>, width: int, tolerance: nat, size: int, extrude: bool, p: nat)
    requires Framed(s, width) && 4 * p < |s|
    ensures PointAt(s, width, p, 2 * size) !in Scan(s, width, tolerance, size, extrude, p + 1).points
    ensures forall k :: p < k < |s| / 4 ==> PointAt(s, width, k, 2 * size) != PointAt(s, width, p, 2 * size)
  {
    ScanPoints(s, width, tolerance, size, extrude, p + 1);
    var rest := Scan(s, width, tolerance, size, extrude, p + 1).points;
    var head := PointAt(s, width, p, 2 * size);
    PointAtIsPixel(s, width, p, 2 * size);
    forall i | 0 <= i < |rest|
      ensures rest[i] != head
    {
      assert EmittedFrom(s, width, tolerance, size, rest[i]) && p + 1 <= Pos(rest[i], width);
    }
    forall k | p < k < |s| / 4
      ensures PointAt(s, width, k, 2 * size) != head
    {
      PointAtIsPixel(s, width, k, 2 * size);
    }
  }

  /** Step of ScanWithoutExtrude at an accepted pixel: it heads the points. */
  lemma ScanWithoutExtrudeAccept(s: seq<Byte>, width: int, tolerance: nat, size: int, p: nat)
    requires Framed(s, width) && 4 * p < |s| && Accepts(s, width, tolerance, size, p)
    requires forall k :: p + 1 <= k < |s| / 4 ==>
      (PointAt(s, width, k, 2 * size) in Scan(s, width, tolerance, size, false, p + 1).points <==>
       s[4 * k + 3] != 0 && RingUniform(s, width, tolerance, k % width, k / width, size))
    ensures forall k :: p <= k < |s| / 4 ==>
      (PointAt(s, width, k, 2 * size) in Scan(s, width, tolerance, size, false, p).points <==>
       s[4 * k + 3] != 0 && RingUniform(s, width, tolerance, k % width, k / width, size))
  {
    ScanFresh(s, width, tolerance, size, false, p);
    ScanAccept(s, width, tolerance, size, false, p);
    assert AfterAccept(s, width, size, false, p) == s;
  }

  /** Step of ScanWithoutExtrude at a refused pixel: the points are those of the rest. */
  lemma ScanWithoutExtrudeSkip(s: seq<Byte>, width: int, tolerance: nat, size: int, p: nat)
    requires Framed(s, width) && 4 * p < |s| && !Accepts(s, width, tolerance, size, p)
    requires forall k :: p + 1 <= k < |s| / 4 ==>
      (PointAt(s, width, k, 2 * size) in Scan(s, width, tolerance, size, false, p + 1).points <==>
       s[4 * k + 3] != 0 && RingUniform(s, width, tolerance, k % width, k / width, size))
    ensures forall k :: p <= k < |s| / 4 ==>
      (PointAt(s, width, k, 2 * size) in Scan(s, width, tolerance, size, false, p).points <==>
       s[4 * k + 3] != 0 && RingUniform(s, width, tolerance, k % width, k / width, size))
  {
    ScanFresh(s, width, tolerance, size, false, p);
    ScanSkip(s, width, tolerance, size, false, p);
  }

  /** Without extrude the buffer is left as it was, and the pass emits exactly
      the opaque pixels whose ring of radius `size` is uniform. */
  lemma {:induction false} ScanWithoutExtrude(s: seq<Byte>, width: int, tolerance: nat, size: int, p: nat)
    requires Framed(s, width)
    ensures Scan(s, width, tolerance, size, false, p).buffer == s
    ensures forall k :: p <= k < |s| / 4 ==>
      (PointAt(s, width, k, 2 * size) in Scan(s, width, tolerance, size, false, p).points <==>
       s[4 * k + 3] != 0 && RingUniform(s, width, tolerance, k % width, k / width, size))
    decreases |s| - 4 * p
  {
    ScanKeepsBuffer(s, width, tolerance, size, p);
    if 4 * p < |s| {
      ScanWithoutExtrude(s, width, tolerance, size, p + 1);
      if Accepts(s, width, tolerance, size, p) {
        ScanWithoutExtrudeAccept(s, width, tolerance, size, p);
      } else {
        ScanWithoutExtrudeSkip(s, width, tolerance, size, p);
      }
    }
  }

  /** Every point has diameter w. */
  ghost predicate AllDiameter(pts: seq<Point>, w: int)
  {
    forall i :: 0 <= i < |pts| ==> pts[i].w == w
  }

  /** Every point sits on an opaque pixel of `t`. */
  ghost predicate AllOpaqueIn(t: seq<Byte>, width: int, pts: seq<Point>)
  {
    forall i :: 0 <= i < |pts| ==> IsPixelPoint(t, width, pts[i], pts[i].w) && pts[i].a != 0
  }

  /** The light part of ScanPoints: diameters, positions, opaque pixels of `s`. */
  lemma ScanShape(s: seq<Byte>, width: int, tolerance: nat, size: int, extrude: bool)
    requires Framed(s, width)
    ensures AllDiameter(Scan(s, width, tolerance, size, extrude, 0).points, 2 * size)
    ensures PosIncreasing(Scan(s, width, tolerance, size, extrude, 0).points, width)
    ensures AllOpaqueIn(s, width, Scan(s, width, tolerance, size, extrude, 0).points)
  {
    ScanPoints(s, width, tolerance, size, extrude, 0);
    var pts := Scan(s, width, tolerance, size, extrude, 0).points;
    forall i | 0 <= i < |pts|
      ensures pts[i].w == 2 * size && IsPixelPoint(s, width, pts[i], pts[i].w) && pts[i].a != 0
    {
      assert EmittedFrom(s, width, tolerance, size, pts[i]);
    }
  }

  // ---------------------------------------------------------------------------
  // The adaptive run. Each inductive lemma dispatches on whether a pass runs;
  // the case that runs one is proved in a companion lemma.

  /** Every point's radius (half its diameter) lies between lo and hi. */
  ghost predicate RadiiBetween(pts: seq<Point>, lo: int, hi: int)
  {
    forall i :: 0 <= i < |pts| ==> lo <= pts[i].w / 2 <= hi
  }

  /** Every point was emitted from `s` at its own radius. */
  ghost predicate AllEmittedAtOwnRadius(s: seq<Byte>, width: int, tolerance: nat, pts: seq<Point>)
  {
    forall i :: 0 <= i < |pts| ==> EmittedFrom(s, width, tolerance, pts[i].w / 2, pts[i])
  }

  /** Diameters never grow along the list; among equal diameters raster
      positions strictly increase. */
  ghost predicate SizeThenRaster(pts: seq<Point>, width: int)
  {
    forall i, j :: 0 <= i < j < |pts| ==>
      pts[i].w > pts[j].w || (pts[i].w == pts[j].w && Pos(pts[i], width) < Pos(pts[j], width))
  }

  /** The disk of every point, at the point's own radius, is cleared in `t`. */
  ghost predicate AllOwnDisksCleared(t: seq<Byte>, width: int, pts: seq<Point>)
  {
    forall i :: 0 <= i < |pts| ==> DiskCleared(t, width, pts[i].x, pts[i].y, pts[i].w / 2)
  }

  /** Every later point lies more than the radius of every earlier point away from it. */
  ghost predicate SeparatedByOwnRadius(pts: seq<Point>)
  {
    forall i, j :: 0 <= i < j < |pts| ==> SqDist(pts[i], pts[j]) > (pts[i].w / 2) * (pts[i].w / 2)
  }

  /** A pass's points at diameter 2 * size in raster order, followed by points
      of smaller radius already ordered, are ordered. */
  lemma ConcatSizeThenRaster(a: seq<Point>, b: seq<Point>, width: int, size: int, lo: int, hi: int)
    requires AllDiameter(a, 2 * size) && PosIncreasing(a, width)
    requires SizeThenRaster(b, width) && RadiiBetween(b, lo, hi) && hi < size
    ensures SizeThenRaster(a + b, width)
  {
    var pts := a + b;
    var n := |a|;
    forall i, j | 0 <= i < j < |pts|
      ensures pts[i].w > pts[j].w || (pts[i].w == pts[j].w && Pos(pts[i], width) < Pos(pts[j], width))
    {
      if j < n {
        assert pts[i] == a[i] && pts[j] == a[j];
      } else if i < n {
        assert pts[i].w == 2 * size && pts[j] == b[j - n] && b[j - n].w / 2 <= hi;
      } else {
        assert pts[i] == b[i - n] && pts[j] == b[j - n];
      }
    }
  }

  /** Points emitted from `s` at radius `size`, followed by points emitted at
      their own radius from a faded copy `t`, were all emitted from `s` at
      their own radius. */
  lemma ConcatEmitted(s: seq<Byte>, t: seq<Byte>, width: int, tolerance: nat, size: int, a: seq<Point>, b: seq<Point>)
    requires AllEmittedFrom(s, width, tolerance, size, a, 0)
    requires Faded(s, t) && AllEmittedAtOwnRadius(t, width, tolerance, b)
    ensures AllEmittedAtOwnRadius(s, width, tolerance, a + b)
  {
    var pts := a + b;
    var n := |a|;
    forall i | 0 <= i < |pts|
      ensures EmittedFrom(s, width, tolerance, pts[i].w / 2, pts[i])
    {
      if i < n {
        assert pts[i] == a[i] && EmittedFrom(s, width, tolerance, size, a[i]);
      } else {
        var q := b[i - n];
        assert pts[i] == q;
        assert EmittedFrom(t, width, tolerance, q.w / 2, q);
        FadedPixelPoint(s, t, width, q, 2 * (q.w / 2));
        RingFaded(s, t, width, tolerance, q.x, q.y, q.w / 2);
      }
    }
  }

  /** Disks of radius `size` cleared in `t`, followed by own-radius disks
      cleared in a faded copy `u`, are all cleared in `u`. */
  lemma ConcatCleared(t: seq<Byte>, u: seq<Byte>, width: int, size: int, a: seq<Point>, b: seq<Point>)
    requires AllDiameter(a, 2 * size) && AllDisksCleared(t, width, size, a)
    requires Faded(t, u) && AllOwnDisksCleared(u, width, b)
    ensures AllOwnDisksCleared(u, width, a + b)
  {
    var pts := a + b;
    var n := |a|;
    forall i | 0 <= i < |pts|
      ensures DiskCleared(u, width, pts[i].x, pts[i].y, pts[i].w / 2)
    {
      if i < n {
        assert pts[i] == a[i] && a[i].w / 2 == size && DiskCleared(t, width, a[i].x, a[i].y, size);
        DiskClearedFaded(t, u, width, a[i].x, a[i].y, size);
      } else {
        assert pts[i] == b[i - n];
      }
    }
  }

  /** Points of radius `size` more than `size` apart whose disks are cleared in
      `t`, followed by separated points on opaque pixels of `t`, are separated. */
  lemma ConcatSeparated(t: seq<Byte>, width: int, size: int, a: seq<Point>, b: seq<Point>)
    requires size >= 0 && AllDiameter(a, 2 * size) && Separated(a, size) && AllDisksCleared(t, width, size, a)
    requires AllOpaqueIn(t, width, b) && SeparatedByOwnRadius(b)
    ensures SeparatedByOwnRadius(a + b)
  {
    var pts := a + b;
    var n := |a|;
    forall i, j | 0 <= i < j < |pts|
      ensures SqDist(pts[i], pts[j]) > (pts[i].w / 2) * (pts[i].w / 2)
    {
      if j < n {
        assert pts[i] == a[i] && pts[j] == a[j] && a[i].w / 2 == size;
      } else if i < n {
        assert pts[i] == a[i] && a[i].w / 2 == size && pts[j] == b[j - n];
        assert DiskCleared(t, width, a[i].x, a[i].y, size);
        OutsideClearedDisk(t, width, a[i], b[j - n], size, b[j - n].w);
      } else {
        assert pts[i] == b[i - n] && pts[j] == b[j - n];
      }
    }
  }

  /** A radius of at least minSize runs a consuming pass and continues with the
      next radius over the buffer it leaves. */
  lemma AdaptiveRun(s: seq<Byte>, width: int, tolerance: nat, size: int, minSize: int, step: int)
    requires Framed(s, width) && step >= 1 && size >= minSize
    ensures Framed(Scan(s, width, tolerance, size, true, 0).buffer, width)
    ensures Adaptive(s, width, tolerance, size, minSize, step).points ==
      Scan(s, width, tolerance, size, true, 0).points +
      Adaptive(Scan(s, width, tolerance, size, true, 0).buffer, width, tolerance, size - step, minSize, step).points
    ensures Adaptive(s, width, tolerance, size, minSize, step).buffer ==
      Adaptive(Scan(s, width, tolerance, size, true, 0).buffer, width, tolerance, size - step, minSize, step).buffer
  {
  }

  /** An adaptive run only ever clears alpha channels. */
  lemma {:induction false} AdaptiveFaded(s: seq<Byte>, width: int, tolerance: nat, size: int, minSize: int, step: int)
    requires Framed(s, width) && step >= 1
    ensures Faded(s, Adaptive(s, width, tolerance, size, minSize, step).buffer)
    decreases size - minSize
  {
    if size < minSize {
      assert Faded(s, s);
    } else {
      var first := Scan(s, width, tolerance, size, true, 0);
      AdaptiveRun(s, width, tolerance, size, minSize, step);
      ScanFaded(s, width, tolerance, size, true, 0);
      AdaptiveFaded(first.buffer, width, tolerance, size - step, minSize, step);
      FadedTransitive(s, first.buffer, Adaptive(first.buffer, width, tolerance, size - step, minSize, step).buffer);
    }
  }

  /** Every radius of an adaptive run lies between minSize and the starting size. */
  lemma {:induction false} AdaptiveRadii(s: seq<Byte>, width: int, tolerance: nat, size: int, minSize: int, step: int)
    requires Framed(s, width) && step >= 1
    ensures RadiiBetween(Adaptive(s, width, tolerance, size, minSize, step).points, minSize, size)
    decreases size - minSize
  {
    if size >= minSize {
      var first := Scan(s, width, tolerance, size, true, 0);
      AdaptiveRun(s, width, tolerance, size, minSize, step);
      ScanShape(s, width, tolerance, size, true);
      AdaptiveRadii(first.buffer, width, tolerance, size - step, minSize, step);
      var rest := Adaptive(first.buffer, width, tolerance, size - step, minSize, step).points;
      var pts := first.points + rest;
      forall i | 0 <= i < |pts|
        ensures minSize <= pts[i].w / 2 <= size
      {
        if i < |first.points| {
          assert pts[i].w == 2 * size;
        } else {
          assert pts[i] == rest[i - |first.points|];
        }
      }
    }
  }

  /** Every point of an adaptive run carries an opaque pixel of the starting
      buffer and passed the ring test there at its own radius. */
  lemma {:induction false} AdaptiveEmitted(s: seq<Byte>, width: int, tolerance: nat, size: int, minSize: int, step: int)
    requires Framed(s, width) && step >= 1
    ensures AllEmittedAtOwnRadius(s, width, tolerance, Adaptive(s, width, tolerance, size, minSize, step).points)
    decreases size - minSize, 1
  {
    if size >= minSize {
      AdaptiveEmittedPass(s, width, tolerance, size, minSize, step);
    }
  }

  lemma {:induction false} AdaptiveEmittedPass(s: seq<Byte>, width: int, tolerance: nat, size: int, minSize: int, step: int)
    requires Framed(s, width) && step >= 1 && size >= minSize
    ensures AllEmittedAtOwnRadius(s, width, tolerance, Adaptive(s, width, tolerance, size, minSize, step).points)
    decreases size - minSize, 0
  {
    var first := Scan(s, width, tolerance, size, true, 0);
    AdaptiveRun(s, width, tolerance, size, minSize, step);
    ScanPoints(s, width, tolerance, size, true, 0);
    ScanFaded(s, width, tolerance, size, true, 0);
    AdaptiveEmitted(first.buffer, width, tolerance, size - step, minSize, step);
    ConcatEmitted(s, first.buffer, width, tolerance, size, first.points,
                  Adaptive(first.buffer, width, tolerance, size - step, minSize, step).points);
  }

  /** The points of an adaptive run sit on opaque pixels of the starting buffer. */
  lemma AdaptiveOpaque(s: seq<Byte>, width: int, tolerance: nat, size: int, minSize: int, step: int)
    requires Framed(s, width) && step >= 1
    ensures AllOpaqueIn(s, width, Adaptive(s, width, tolerance, size, minSize, step).points)
  {
    AdaptiveEmitted(s, width, tolerance, size, minSize, step);
    var pts := Adaptive(s, width, tolerance, size, minSize, step).points;
    forall i | 0 <= i < |pts|
      ensures IsPixelPoint(s, width, pts[i], pts[i].w) && pts[i].a != 0
    {
      assert EmittedFrom(s, width, tolerance, pts[i].w / 2, pts[i]);
    }
  }

  /** Along an adaptive run the diameter never grows, and points of equal
      diameter come in increasing raster position. */
  lemma {:induction false} AdaptiveOrder(s: seq<Byte>, width: int, tolerance: nat, size: int, minSize: int, step: int)
    requires Framed(s, width) && step >= 1
    ensures SizeThenRaster(Adaptive(s, width, tolerance, size, minSize, step).points, width)
    decreases size - minSize, 1
  {
    if size >= minSize {
      AdaptiveOrderPass(s, width, tolerance, size, minSize, step);
    }
  }

  lemma {:induction false} AdaptiveOrderPass(s: seq<Byte>, width: int, tolerance: nat, size: int, minSize: int, step: int)
    requires Framed(s, width) && step >= 1 && size >= minSize
    ensures SizeThenRaster(Adaptive(s, width, tolerance, size, minSize, step).points, width)
    decreases size - minSize, 0
  {
    var first := Scan(s, width, tolerance, size, true, 0);
    AdaptiveRun(s, width, tolerance, size, minSize, step);
    ScanShape(s, width, tolerance, size, true);
    AdaptiveOrder(first.buffer, width, tolerance, size - step, minSize, step);
    AdaptiveRadii(first.buffer, width, tolerance, size - step, minSize, step);
    ConcatSizeThenRaster(first.points, Adaptive(first.buffer, width, tolerance, size - step, minSize, step).points,
                         width, size, minSize, size - step);
  }

  /** With extrude on every pass, the disk of every emitted point, at that
      point's own radius, is cleared in the final buffer. */
  lemma {:induction false} AdaptiveCovers(s: seq<Byte>, width: int, tolerance: nat, size: int, minSize: int, step: int)
    requires Framed(s, width) && step >= 1
    ensures AllOwnDisksCleared(Adaptive(s, width, tolerance, size, minSize, step).buffer, width,
                               Adaptive(s, width, tolerance, size, minSize, step).points)
    decreases size - minSize, 1
  {
    if size >= minSize {
      AdaptiveCoversPass(s, width, tolerance, size, minSize, step);
    }
  }

  lemma {:induction false} AdaptiveCoversPass(s: seq<Byte>, width: int, tolerance: nat, size: int, minSize: int, step: int)
    requires Framed(s, width) && step >= 1 && size >= minSize
    ensures AllOwnDisksCleared(Adaptive(s, width, tolerance, size, minSize, step).buffer, width,
                               Adaptive(s, width, tolerance, size, minSize, step).points)
    decreases size - minSize, 0
  {
    var first := Scan(s, width, tolerance, size, true, 0);
    AdaptiveRun(s, width, tolerance, size, minSize, step);
    ScanCovers(s, width, tolerance, size, 0);
    ScanShape(s, width, tolerance, size, true);
    AdaptiveCovers(first.buffer, width, tolerance, size - step, minSize, step);
    AdaptiveFaded(first.buffer, width, tolerance, size - step, minSize, step);
    var rest := Adaptive(first.buffer, width, tolerance, size - step, minSize, step);
    ConcatCleared(first.buffer, rest.buffer, width, size, first.points, rest.points);
  }

  /** With minSize >= 0, every later point of an adaptive run lies more than
      the radius of every earlier point away from it: no point is emitted
      inside a disk already consumed. */
  lemma {:induction false} AdaptiveSeparated(s: seq<Byte>, width: int, tolerance: nat, size: int, minSize: int, step: int)
    requires Framed(s, width) && step >= 1 && minSize >= 0
    ensures SeparatedByOwnRadius(Adaptive(s, width, tolerance, size, minSize, step).points)
    decreases size - minSize, 1
  {
    if size >= minSize {
      AdaptiveSeparatedPass(s, width, tolerance, size, minSize, step);
    }
  }

  lemma {:induction false} AdaptiveSeparatedPass(s: seq<Byte>, width: int, tolerance: nat, size: int, minSize: int, step: int)
    requires Framed(s, width) && step >= 1 && minSize >= 0 && size >= minSize
    ensures SeparatedByOwnRadius(Adaptive(s, width, tolerance, size, minSize, step).points)
    decreases size - minSize, 0
  {
    var first := Scan(s, width, tolerance, size, true, 0);
    AdaptiveRun(s, width, tolerance, size, minSize, step);
    ScanSeparated(s, width, tolerance, size, 0);
    ScanCovers(s, width, tolerance, size, 0);
    ScanShape(s, width, tolerance, size, true);
    AdaptiveSeparated(first.buffer, width, tolerance, size - step, minSize, step);
    AdaptiveOpaque(first.buffer, width, tolerance, size - step, minSize, step);
    ConcatSeparated(first.buffer, width, size, first.points,
                    Adaptive(first.buffer, width, tolerance, size - step, minSize, step).points);
  }

  /** A minimum size above the maximum size runs no pass: no points, buffer untouched. */
  lemma AdaptiveEmpty(s: seq<Byte>, width: int, tolerance: nat, minSize: int, maxSize: int, step: int)
    requires Framed(s, width) && step >= 1 && minSize > maxSize
    ensures Adaptive(s, width, tolerance, maxSize, minSize, step) == Pass([], s)
  {
  }

  // ---------------------------------------------------------------------------
  // The grid sampler at weight 1

  /** One step of the grid sampler at weight 1. */
  lemma RowInteriorStep(s: seq<Byte>, width: int, p: nat)
    requires Framed(s, width) && 4 * p < |s|
    ensures RowInteriorPoints(s, width, p) ==
      (if RowInterior(s, width, p) then [PointAt(s, width, p, 1)] else []) + RowInteriorPoints(s, width, p + 1)
  {
  }

  /** toPoints with weight 1 emits only opaque pixels outside the last column,
      each with its own channels and diameter 1, in increasing raster position. */
  lemma {:induction false} RowInteriorSound(s: seq<Byte>, width: int, p: nat)
    requires Framed(s, width)
    ensures forall i :: 0 <= i < |RowInteriorPoints(s, width, p)| ==>
      IsPixelPoint(s, width, RowInteriorPoints(s, width, p)[i], 1) &&
      RowInteriorPoints(s, width, p)[i].a != 0 && RowInteriorPoints(s, width, p)[i].x < width - 1 &&
      p <= Pos(RowInteriorPoints(s, width, p)[i], width)
    ensures PosIncreasing(RowInteriorPoints(s, width, p), width)
    decreases |s| - 4 * p
  {
    if 4 * p < |s| {
      RowInteriorStep(s, width, p);
      RowInteriorSound(s, width, p + 1);
      var rest := RowInteriorPoints(s, width, p + 1);
      if RowInterior(s, width, p) {
        var head := PointAt(s, width, p, 1);
        PointAtIsPixel(s, width, p, 1);
        PrependIncreasing(head, rest, width);
        var pts := [head] + rest;
        forall i | 0 <= i < |pts|
          ensures IsPixelPoint(s, width, pts[i], 1) && pts[i].a != 0 && pts[i].x < width - 1 && p <= Pos(pts[i], width)
        {
          if i > 0 {
            assert pts[i] == rest[i - 1];
          }
        }
      }
    }
  }

  /** toPoints with weight 1 emits every opaque pixel outside the last column:
      the point of pixel k is in the list exactly when the pixel is one of them. */
  lemma {:induction false} RowInteriorComplete(s: seq<Byte>, width: int, p: nat)
    requires Framed(s, width)
    ensures forall k :: p <= k < |s| / 4 ==>
      (PointAt(s, width, k, 1) in RowInteriorPoints(s, width, p) <==> RowInterior(s, width, k))
    decreases |s| - 4 * p
  {
    if 4 * p < |s| {
      RowInteriorStep(s, width, p);
      RowInteriorComplete(s, width, p + 1);
      RowInteriorFresh(s, width, p);
    }
  }

  /** The point of pixel p is none of the later points. */
  lemma RowInteriorFresh(s: seq<Byte>, width: int, p: nat)
    requires Framed(s, width) && 4 * p < |s|
    ensures PointAt(s, width, p, 1) !in RowInteriorPoints(s, width, p + 1)
    ensures forall k :: p < k < |s| / 4 ==> PointAt(s, width, k, 1) != PointAt(s, width, p, 1)
  {
    RowInteriorSound(s, width, p + 1);
    var rest := RowInteriorPoints(s, width, p + 1);
    var head := PointAt(s, width, p, 1);
    PointAtIsPixel(s, width, p, 1);
    forall i | 0 <= i < |rest|
      ensures rest[i] != head
    {
      assert p + 1 <= Pos(rest[i], width);
    }
    forall k | p < k < |s| / 4
      ensures PointAt(s, width, k, 1) != head
    {
      PointAtIsPixel(s, width, k, 1);
    }
  }

  // ---------------------------------------------------------------------------
  // toPoints at any weight

  /** Appending a point whose position is above all others keeps the
      positions increasing. */
  lemma AppendIncreasing(pts: seq<Point>, last: Point, width: int)
    requires PosIncreasing(pts, width)
    requires forall i :: 0 <= i < |pts| ==> Pos(pts[i], width) < Pos(last, width)
    ensures PosIncreasing(pts + [last], width)
  {
    var all := pts + [last];
    forall i, j | 0 <= i < j < |all|
      ensures Pos(all[i], width) < Pos(all[j], width)
    {
      assert all[i] == pts[i];
      if j < |pts| {
        assert all[j] == pts[j];
      }
    }
  }

  /** Every point carries an opaque pixel of `s`, with diameter `w`. */
  ghost predicate AllOpaquePixels(s: seq<Byte>, width: int, w: int, pts: seq<Point>)
  {
    forall i :: 0 <= i < |pts| ==> IsPixelPoint(s, width, pts[i], w) && pts[i].a != 0
  }

  /** toPoints emits only opaque pixels, each with its own channels and the
      weight as diameter, in increasing raster position: the loop keeps its
      list that way from any point on. */
  lemma {:induction false} SweepSound(s: seq<Byte>, width: int, weight: int, skip: nat, n: nat, posx: int, acc: seq<Point>)
    requires Framed(s, width) && weight >= 1
    requires OpaqueBefore(s, width, weight, acc, n) && PosIncreasing(acc, width)
    ensures AllOpaquePixels(s, width, weight, Sweep(s, width, weight, skip, n, posx, acc))
    ensures PosIncreasing(Sweep(s, width, weight, skip, n, posx, acc), width)
    decreases |s| - 4 * n, 1
  {
    if 4 * n >= |s| {
      assert Sweep(s, width, weight, skip, n, posx, acc) == acc;
    } else if posx + weight < width && s[4 * n + 3] != 0 {
      SweepSoundEmit(s, width, weight, skip, n, posx, acc);
    } else {
      SweepSoundPass(s, width, weight, skip, n, posx, acc);
    }
  }

  /** The step of SweepSound that appends the opaque pixel n. */
  lemma {:induction false} SweepSoundEmit(s: seq<Byte>, width: int, weight: int, skip: nat, n: nat, posx: int, acc: seq<Point>)
    requires Framed(s, width) && weight >= 1 && 4 * n < |s| && posx + weight < width && s[4 * n + 3] != 0
    requires OpaqueBefore(s, width, weight, acc, n) && PosIncreasing(acc, width)
    ensures AllOpaquePixels(s, width, weight, Sweep(s, width, weight, skip, n, posx, acc))
    ensures PosIncreasing(Sweep(s, width, weight, skip, n, posx, acc), width)
    decreases |s| - 4 * n, 0
  {
    var last := PointAt(s, width, n, weight);
    PointAtIsPixel(s, width, n, weight);
    AppendIncreasing(acc, last, width);
    var acc' := acc + [last];
    assert OpaqueBefore(s, width, weight, acc', n + weight) by {
      forall i | 0 <= i < |acc'|
        ensures IsPixelPoint(s, width, acc'[i], weight) && acc'[i].a != 0 && Pos(acc'[i], width) < n + weight
      {
        if i < |acc| {
          assert acc'[i] == acc[i];
        }
      }
    }
    assert Sweep(s, width, weight, skip, n, posx, acc) == Sweep(s, width, weight, skip, n + weight, posx + weight, acc');
    SweepSound(s, width, weight, skip, n + weight, posx + weight, acc');
  }

  /** The steps of SweepSound that append nothing: the one that ends a row and
      the one at a transparent pixel. */
  lemma {:induction false} SweepSoundPass(s: seq<Byte>, width: int, weight: int, skip: nat, n: nat, posx: int, acc: seq<Point>)
    requires Framed(s, width) && weight >= 1 && 4 * n < |s| && (posx + weight >= width || s[4 * n + 3] == 0)
    requires OpaqueBefore(s, width, weight, acc, n) && PosIncreasing(acc, width)
    ensures AllOpaquePixels(s, width, weight, Sweep(s, width, weight, skip, n, posx, acc))
    ensures PosIncreasing(Sweep(s, width, weight, skip, n, posx, acc), width)
    decreases |s| - 4 * n, 0
  {
    var n' := if posx + weight >= width then n + skip + weight else n + weight;
    var posx' := if posx + weight >= width then 0 else posx + weight;
    assert Sweep(s, width, weight, skip, n, posx, acc) == Sweep(s, width, weight, skip, n', posx', acc);
    assert OpaqueBefore(s, width, weight, acc, n');
    SweepSound(s, width, weight, skip, n', posx', acc);
  }

  /** With weight 1 and the column count equal to the column, toPoints
      appends exactly the opaque pixels outside the last column. */
  lemma {:induction false} SweepUnitWeight(s: seq<Byte>, width: int, n: nat, acc: seq<Point>)
    requires Framed(s, width) && width > 0
    ensures Sweep(s, width, 1, 0, n, n % width, acc) == acc + RowInteriorPoints(s, width, n)
    decreases |s| - 4 * n, 1
  {
    if 4 * n >= |s| {
      assert Sweep(s, width, 1, 0, n, n % width, acc) == acc;
    } else if RowInterior(s, width, n) {
      SweepUnitWeightEmit(s, width, n, acc);
    } else {
      SweepUnitWeightPass(s, width, n, acc);
    }
  }

  /** The step of SweepUnitWeight at a pixel it keeps. */
  lemma {:induction false} SweepUnitWeightEmit(s: seq<Byte>, width: int, n: nat, acc: seq<Point>)
    requires Framed(s, width) && width > 0 && 4 * n < |s| && RowInterior(s, width, n)
    ensures Sweep(s, width, 1, 0, n, n % width, acc) == acc + RowInteriorPoints(s, width, n)
    decreases |s| - 4 * n, 0
  {
    NextColumn(n, width);
    var pt := PointAt(s, width, n, 1);
    SweepUnfold(s, width, 1, 0, n, n % width, acc);
    assert Sweep(s, width, 1, 0, n, n % width, acc) == Sweep(s, width, 1, 0, n + 1, (n + 1) % width, acc + [pt]);
    RowInteriorStep(s, width, n);
    SweepUnitWeight(s, width, n + 1, acc + [pt]);
    ConcatAssoc(acc, [pt], RowInteriorPoints(s, width, n + 1));
  }

  /** The step of SweepUnitWeight at a pixel it drops: transparent or in the last column. */
  lemma {:induction false} SweepUnitWeightPass(s: seq<Byte>, width: int, n: nat, acc: seq<Point>)
    requires Framed(s, width) && width > 0 && 4 * n < |s| && !RowInterior(s, width, n)
    ensures Sweep(s, width, 1, 0, n, n % width, acc) == acc + RowInteriorPoints(s, width, n)
    decreases |s| - 4 * n, 0
  {
    NextColumn(n, width);
    SweepUnfold(s, width, 1, 0, n, n % width, acc);
    assert Sweep(s, width, 1, 0, n, n % width, acc) == Sweep(s, width, 1, 0, n + 1, (n + 1) % width, acc);
    RowInteriorStep(s, width, n);
    assert RowInteriorPoints(s, width, n) == RowInteriorPoints(s, width, n + 1);
    SweepUnitWeight(s, width, n + 1, acc);
  }

  /** One iteration of the toPoints loop at pixel n: the step that ends a row,
      the step that keeps an opaque pixel, or the step that drops a transparent one. */
  lemma SweepUnfold(s: seq<Byte>, width: int, weight: int, skip: nat, n: nat, posx: int, acc: seq<Point>)
    requires Framed(s, width) && weight >= 1 && 4 * n < |s|
    ensures posx + weight >= width ==>
      Sweep(s, width, weight, skip, n, posx, acc) == Sweep(s, width, weight, skip, n + skip + weight, 0, acc)
    ensures posx + weight < width && s[4 * n + 3] != 0 ==>
      Sweep(s, width, weight, skip, n, posx, acc) ==
      Sweep(s, width, weight, skip, n + weight, posx + weight, acc + [PointAt(s, width, n, weight)])
    ensures posx + weight < width && s[4 * n + 3] == 0 ==>
      Sweep(s, width, weight, skip, n, posx, acc) == Sweep(s, width, weight, skip, n + weight, posx + weight, acc)
  {
  }

  /** The whole toPoints sweep from pixel 0: opaque pixels with diameter
      `weight` in increasing raster position, and at weight 1 (where no row is
      skipped) exactly the opaque pixels outside the last column. */
  lemma SweepFromStart(s: seq<Byte>, width: int, weight: int, skip: nat)
    requires Framed(s, width) && weight >= 1 && (weight == 1 ==> skip == 0)
    ensures AllOpaquePixels(s, width, weight, Sweep(s, width, weight, skip, 0, 0, []))
    ensures PosIncreasing(Sweep(s, width, weight, skip, 0, 0, []), width)
    ensures weight == 1 ==> Sweep(s, width, weight, skip, 0, 0, []) == RowInteriorPoints(s, width, 0)
  {
    SweepSound(s, width, weight, skip, 0, 0, []);
    if weight == 1 {
      if width > 0 {
        SweepUnitWeight(s, width, 0, []);
        assert [] + RowInteriorPoints(s, width, 0) == RowInteriorPoints(s, width, 0);
      } else {
        assert |s| == 0;
      }
    }
  }
}
