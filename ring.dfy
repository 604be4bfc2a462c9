/** The ring uniformity test: the midpoint-circle walk over one octant of the
    circle of radius r, each step checked at its eight symmetric offsets. */
module Ring {
  import opened Pixels

  /** The octant steps (x, y) the midpoint walk visits from state (x, y, d) on,
      where `d` is the source's `decisionOver2`: y grows by one per step, and x
      drops by one whenever the decision variable was positive. */
  function Walk(x: int, y: int, d: int): (steps: seq<(int, int)>)
    ensures x < y ==> steps == []
    ensures forall k :: 0 <= k < |steps| ==> steps[k].1 == y + k
    decreases x - y
  {
    if x < y then []
    else if d <= 0 then [(x, y)] + Walk(x, y + 1, d + 2 * (y + 1) + 1)
    else [(x, y)] + Walk(x - 1, y + 1, d + 2 * ((y + 1) - (x - 1)) + 1)
  }

  /** All octant steps of the walk for radius r, from x = r, y = 0, d = 1 - r. */
  function RingSteps(r: int): (steps: seq<(int, int)>)
    ensures r < 0 ==> steps == []
    ensures r >= 0 ==> |steps| >= 1 && steps[0] == (r, 0)
  {
    Walk(r, 0, 1 - r)
  }

  /** The eight symmetric offsets of octant step (x, y), in the order the source checks them. */
  function Octant(x: int, y: int): (offsets: seq<(int, int)>)
    ensures |offsets| == 8
  {
    [(x, y), (y, x), (-x, y), (-y, x), (-x, -y), (-y, -x), (x, -y), (y, -x)]
  }

  /** The eight symmetric boundary pixels of step (x, y) all match the centre. */
  ghost predicate OctantSame(s: seq<Byte>, width: int, tolerance: nat, x0: int, y0: int, x: int, y: int)
  {
    forall j :: 0 <= j < 8 ==>
      SameColor(s, width, tolerance, x0, y0, Octant(x, y)[j].0 + x0, Octant(x, y)[j].1 + y0)
  }

  /** samePixelsColorArroundRadius: every step of the walk passes at all eight offsets. */
  ghost predicate RingUniform(s: seq<Byte>, width: int, tolerance: nat, x0: int, y0: int, r: int)
    ensures r < 0 ==> RingUniform(s, width, tolerance, x0, y0, r)
    ensures RingUniform(s, width, tolerance, x0, y0, r) && r >= 0 ==>
      Readable(s, PixelIndex(width, x0, y0)) && s[PixelIndex(width, x0, y0) + 3] != 0
  {
    var steps := RingSteps(r);
    var uniform := forall k :: 0 <= k < |steps| ==> OctantSame(s, width, tolerance, x0, y0, steps[k].0, steps[k].1);
    assert uniform && r >= 0 ==> OctantSame(s, width, tolerance, x0, y0, steps[0].0, steps[0].1);
    assert OctantSame(s, width, tolerance, x0, y0, r, 0) ==>
      SameColor(s, width, tolerance, x0, y0, Octant(r, 0)[0].0 + x0, Octant(r, 0)[0].1 + y0);
    uniform
  }

  /** Step number `row` of a walk for radius r: it is in row `row` of the first
      octant and within half a pixel of the circle, in squares:
      x^2 - x + y^2 <= r^2 <= x^2 + x + y^2. */
  ghost predicate OctantStep(r: int, row: int, step: (int, int))
  {
    var (x, y) := step;
    y == row && 0 <= y <= x <= r &&
    x * x - x + y * y <= r * r <= x * x + x + y * y
  }

  // ---------------------------------------------------------------------------

  /** The walk's invariant: `d` encodes the position, the current step lies
      inside the outer half-pixel bound when it is visited, and the inner bound
      always holds; then every visited step is an OctantStep. */
  lemma {:induction false} WalkShape(r: int, x: int, y: int, d: int)
    requires r >= 0 && 0 <= y && x <= r
    requires d == x * x - x + y * y + 2 * y + 1 - r * r
    requires x >= y ==> x * x - x + y * y <= r * r
    requires r * r <= x * x + x + y * y
    ensures forall k :: 0 <= k < |Walk(x, y, d)| ==> OctantStep(r, y + k, Walk(x, y, d)[k])
    decreases x - y
  {
    if x >= y {
      var y' := y + 1;
      assert y' * y' == y * y + 2 * y + 1;
      if d <= 0 {
        var d' := d + 2 * y' + 1;
        assert d' == x * x - x + y' * y' + 2 * y' + 1 - r * r;
        WalkShape(r, x, y', d');
      } else {
        var x' := x - 1;
        var d' := d + 2 * (y' - x') + 1;
        assert x' * x' == x * x - 2 * x + 1;
        assert d' == x' * x' - x' + y' * y' + 2 * y' + 1 - r * r;
        WalkShape(r, x', y', d');
      }
    }
  }

  /** For r >= 0 the walk starts at (r, 0), visits rows 0, 1, 2, ... in turn,
      stays in the first octant and keeps within half a pixel of the circle. */
  lemma RingStepsShape(r: int)
    requires r >= 0
    ensures |RingSteps(r)| >= 1 && RingSteps(r)[0] == (r, 0)
    ensures forall k :: 0 <= k < |RingSteps(r)| ==> OctantStep(r, k, RingSteps(r)[k])
  {
    WalkShape(r, r, 0, 1 - r);
  }

  /** A negative radius visits no step, so the test accepts any centre. */
  lemma RingNegativeRadius(s: seq<Byte>, width: int, tolerance: nat, x0: int, y0: int, r: int)
    requires r < 0
    ensures RingSteps(r) == []
    ensures RingUniform(s, width, tolerance, x0, y0, r)
  {
  }

  /** Radius 0 compares the centre with itself: it passes exactly when the
      centre is readable and opaque. */
  lemma RingZeroRadius(s: seq<Byte>, width: int, tolerance: nat, x0: int, y0: int)
    ensures RingSteps(0) == [(0, 0)]
    ensures RingUniform(s, width, tolerance, x0, y0, 0) <==>
      Readable(s, PixelIndex(width, x0, y0)) && s[PixelIndex(width, x0, y0) + 3] != 0
  {
    assert RingSteps(0) == [(0, 0)];
    SameColorReflexive(s, width, tolerance, x0, y0);
    assert Octant(0, 0) == [(0, 0), (0, 0), (0, 0), (0, 0), (0, 0), (0, 0), (0, 0), (0, 0)];
    assert OctantSame(s, width, tolerance, x0, y0, 0, 0) <==> SameColor(s, width, tolerance, x0, y0, x0, y0) by {
      if SameColor(s, width, tolerance, x0, y0, x0, y0) {
        assert OctantSame(s, width, tolerance, x0, y0, 0, 0);
      } else {
        assert !SameColor(s, width, tolerance, x0, y0, Octant(0, 0)[0].0 + x0, Octant(0, 0)[0].1 + y0);
      }
    }
    if OctantSame(s, width, tolerance, x0, y0, 0, 0) {
      assert RingUniform(s, width, tolerance, x0, y0, 0);
    } else {
      assert !OctantSame(s, width, tolerance, x0, y0, RingSteps(0)[0].0, RingSteps(0)[0].1);
    }
  }

  lemma OctantFaded(s: seq<Byte>, t: seq<Byte>, width: int, tolerance: nat, x0: int, y0: int, x: int, y: int)
    requires Faded(s, t) && OctantSame(t, width, tolerance, x0, y0, x, y)
    ensures OctantSame(s, width, tolerance, x0, y0, x, y)
  {
    forall j | 0 <= j < 8
      ensures SameColor(s, width, tolerance, x0, y0, Octant(x, y)[j].0 + x0, Octant(x, y)[j].1 + y0)
    {
      FadedSameColor(s, t, width, tolerance, x0, y0, Octant(x, y)[j].0 + x0, Octant(x, y)[j].1 + y0);
    }
  }

  /** Fading pixels can only make a ring fail, never pass. */
  lemma RingFaded(s: seq<Byte>, t: seq<Byte>, width: int, tolerance: nat, x0: int, y0: int, r: int)
    requires Faded(s, t) && RingUniform(t, width, tolerance, x0, y0, r)
    ensures RingUniform(s, width, tolerance, x0, y0, r)
  {
    var steps := RingSteps(r);
    forall k | 0 <= k < |steps|
      ensures OctantSame(s, width, tolerance, x0, y0, steps[k].0, steps[k].1)
    {
      OctantFaded(s, t, width, tolerance, x0, y0, steps[k].0, steps[k].1);
    }
  }

  /** A passing ring needs an opaque, readable centre (radius >= 0). */
  lemma RingNeedsOpaqueCentre(s: seq<Byte>, width: int, tolerance: nat, x0: int, y0: int, r: int)
    requires r >= 0 && RingUniform(s, width, tolerance, x0, y0, r)
    ensures Readable(s, PixelIndex(width, x0, y0)) && s[PixelIndex(width, x0, y0) + 3] != 0
  {
    RingStepsShape(r);
    var (x, y) := RingSteps(r)[0];
    assert OctantSame(s, width, tolerance, x0, y0, x, y);
    assert SameColor(s, width, tolerance, x0, y0, Octant(x, y)[0].0 + x0, Octant(x, y)[0].1 + y0);
  }

  /** One step of the midpoint walk: the visited steps grow by (x, y), and the
      walk goes on one row up, one column in when the decision was positive. */
  lemma WalkAdvance(visited: seq<(int, int)>, x: int, y: int, d: int)
    requires x >= y
    ensures visited + Walk(x, y, d) == (visited + [(x, y)]) +
      (if d <= 0 then Walk(x, y + 1, d + 2 * (y + 1) + 1)
       else Walk(x - 1, y + 1, d + 2 * ((y + 1) - (x - 1)) + 1))
  {
    var rest := if d <= 0 then Walk(x, y + 1, d + 2 * (y + 1) + 1)
                else Walk(x - 1, y + 1, d + 2 * ((y + 1) - (x - 1)) + 1);
    assert Walk(x, y, d) == [(x, y)] + rest;
    ConcatAssoc(visited, [(x, y)], rest);
  }

  /** A step of the walk that fails its octant makes the whole ring fail. */
  lemma RingFailsAt(s: seq<Byte>, width: int, tolerance: nat, x0: int, y0: int, r: int,
                    visited: seq<(int, int)>, x: int, y: int, d: int)
    requires RingSteps(r) == visited + Walk(x, y, d) && x >= y
    requires !OctantSame(s, width, tolerance, x0, y0, x, y)
    ensures !RingUniform(s, width, tolerance, x0, y0, r)
  {
    assert Walk(x, y, d)[0] == (x, y);
    assert RingSteps(r)[|visited|] == (x, y);
  }

  // ---------------------------------------------------------------------------
  // Reads go through the flat index only

  /** A 4 by 4 image whose sixteen pixels are all the opaque colour (100, 100, 100). */
  function GreySquare(): (s: seq<Byte>)
    ensures |s| == 64
  {
    seq(64, k requires 0 <= k < 64 => if k % 4 == 3 then 255 else 100)
  }

  /** An offset one column past the right edge reads the first pixel of the
      next row, so a centre on the right edge of a uniform image passes the
      radius-1 ring test: (3, 1) in the 4 by 4 grey square, whose offset
      (4, 1) is pixel (0, 2) and whose offset (4, 2) is pixel (0, 3). */
  lemma RightEdgeCentreWraps()
    ensures PixelIndex(4, 3 + 1, 1) == PixelIndex(4, 0, 2)
    ensures RingUniform(GreySquare(), 4, 0, 3, 1, 1)
  {
    assert RingSteps(1) == [(1, 0), (1, 1)] by {
      assert Walk(1, 2, 5) == [];
      assert Walk(1, 1, 3) == [(1, 1)];
    }
    forall j | 0 <= j < 8
      ensures SameColor(GreySquare(), 4, 0, 3, 1, Octant(1, 0)[j].0 + 3, Octant(1, 0)[j].1 + 1)
      ensures SameColor(GreySquare(), 4, 0, 3, 1, Octant(1, 1)[j].0 + 3, Octant(1, 1)[j].1 + 1)
    {
      GreyMatches(Octant(1, 0)[j].0, Octant(1, 0)[j].1);
      GreyMatches(Octant(1, 1)[j].0, Octant(1, 1)[j].1);
    }
    assert OctantSame(GreySquare(), 4, 0, 3, 1, 1, 0);
    assert OctantSame(GreySquare(), 4, 0, 3, 1, 1, 1);
    var steps := RingSteps(1);
    assert forall k :: 0 <= k < |steps| ==> OctantSame(GreySquare(), 4, 0, 3, 1, steps[k].0, steps[k].1);
  }

  /** Every neighbour (3 + dx, 1 + dy) of pixel (3, 1) of the grey square, read
      through the flat index, matches it exactly. */
  lemma GreyMatches(dx: int, dy: int)
    requires -1 <= dx <= 1 && -1 <= dy <= 1
    ensures SameColor(GreySquare(), 4, 0, 3, 1, 3 + dx, 1 + dy)
  {
    var s, i := GreySquare(), PixelIndex(4, 3 + dx, 1 + dy);
    assert i == 4 * ((1 + dy) * 4 + (3 + dx));
    assert i == 16 * dy + 4 * dx + 28 && 8 <= i <= 48;
    assert i % 4 == 0;
    assert (i + 1) % 4 == 1 && (i + 2) % 4 == 2 && (i + 3) % 4 == 3;
    assert s[i] == 100 && s[i + 1] == 100 && s[i + 2] == 100 && s[i + 3] == 255;
    assert s[20] == 100 && s[21] == 100 && s[22] == 100 && s[23] == 255;
  }
}
