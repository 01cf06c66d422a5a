/** The line and circle rasterisers of kernel/src/driver/video/framebuffer.c.  A drawing is
    the pixels it plots; clipping to the screen is left to the plotting of one pixel. */
module Raster {

  type Pixel = (int, int)

  function Abs(a: int): nat { if a < 0 then -a else a }

  function Max(a: int, b: int): int { if a < b then b else a }

  function Min(a: int, b: int): int { if a < b then a else b }

  // ----- lines -----

  /** m of k steps along the minor axis: 2*m*major is within half a step of the slope, and a
      tie goes to the smaller m.  This determines m. */
  ghost predicate Nearest(minor: int, major: int, k: int, m: int) {
    -major < 2 * minor * k - 2 * major * m <= major
  }

  lemma NearestUnique(minor: int, major: int, k: int, m: int, n: int)
    requires major > 0 && Nearest(minor, major, k, m) && Nearest(minor, major, k, n)
    ensures m == n
  {
    OneInWindow(major, 2 * minor * k, m, n);
    OneInWindow(major, 2 * minor * k, n, m);
  }

  /** Multiples of 2*major lie too far apart for two of them to be within reach of c. */
  lemma OneInWindow(major: int, c: int, m: int, n: int)
    requires major > 0 && -major < c - 2 * major * m <= major && -major < c - 2 * major * n <= major
    ensures m >= n
  {
    assert 2 * (major * (n - m)) == 2 * major * n - 2 * major * m;
    AtLeast(major, n - m);
  }

  lemma AtLeast(a: int, g: int)
    requires a > 0
    ensures g >= 1 ==> a * g >= a
  {
  }

  /** At the end of the line all minor steps are taken. */
  lemma NearestAtEnd(minor: int, major: int, m: int)
    requires major > 0
    ensures Nearest(minor, major, major, minor)
    ensures Nearest(minor, major, major, m) ==> m == minor
  {
    if Nearest(minor, major, major, m) {
      NearestUnique(minor, major, major, m, minor);
    }
  }

  /** One step of the error term D. */
  lemma LineStep(minor: int, major: int, k: int, m: int, d: int)
    requires 0 <= minor <= major && 0 < major && Nearest(minor, major, k, m)
    requires d == 2 * minor * (k + 1) - major * (2 * m + 1)
    ensures d > 0 ==> Nearest(minor, major, k + 1, m + 1) && d + 2 * (minor - major) == 2 * minor * (k + 2) - major * (2 * (m + 1) + 1)
    ensures d <= 0 ==> Nearest(minor, major, k + 1, m) && d + 2 * minor == 2 * minor * (k + 2) - major * (2 * m + 1)
  {
  }

  /** draw_line_low and draw_line_high, which differ in which coordinate is the major one:
      from (a0, b0) to a1 along the major axis, with one pixel for each step. */
  method DrawAlong(a0: int, b0: int, a1: int, b1: int, steep: bool) returns (pixels: seq<Pixel>)
    requires Abs(b1 - b0) <= a1 - a0
    ensures |pixels| == a1 - a0 + 1
    ensures forall k :: 0 <= k < |pixels| ==> IsStep(a0, b0, a1, b1, steep, k, pixels[k])
  {
    hide Nearest;
    var major, minor, step := a1 - a0, b1 - b0, 1;
    if minor < 0 {
      step := -1;
      minor := -minor;
    }
    var d := 2 * minor - major;
    var b := b0;
    pixels := [];
    var a := a0;
    ghost var m := 0;
    NearestStart(minor, major);
    while a <= a1
      invariant a0 <= a <= a1 + 1 && |pixels| == a - a0 && b == b0 + step * m
      invariant major > 0 ==> Nearest(minor, major, a - a0, m)
      invariant major > 0 ==> d == 2 * minor * (a - a0 + 1) - major * (2 * m + 1)
      invariant major == 0 && a == a0 ==> m == 0
      invariant forall k :: 0 <= k < |pixels| ==> IsStep(a0, b0, a1, b1, steep, k, pixels[k])
    {
      pixels := pixels + [if steep then (b, a) else (a, b)];
      if major > 0 {
        LineStep(minor, major, a - a0, m, d);
      }
      if d > 0 {
        b := b + step;
        d := d + 2 * (minor - major);
        m := m + 1;
      } else {
        d := d + 2 * minor;
      }
      a := a + 1;
    }
  }

  lemma NearestStart(minor: int, major: int)
    ensures major > 0 ==> Nearest(minor, major, 0, 0)
  {
  }

  /** Pixel k: k steps along the major axis and the nearest number along the minor one. */
  ghost predicate IsStep(a0: int, b0: int, a1: int, b1: int, steep: bool, k: int, p: Pixel) {
    var q := if steep then (p.1, p.0) else p;
    var m := if b1 < b0 then b0 - q.1 else q.1 - b0;
    q.0 == a0 + k && (a1 == a0 ==> m == 0) && (a1 > a0 ==> Nearest(Abs(b1 - b0), a1 - a0, k, m))
  }

  /** Both ends of the line are drawn. */
  lemma EndsDrawn(a0: int, b0: int, a1: int, b1: int, steep: bool, first: Pixel, last: Pixel)
    requires Abs(b1 - b0) <= a1 - a0
    requires IsStep(a0, b0, a1, b1, steep, 0, first) && IsStep(a0, b0, a1, b1, steep, a1 - a0, last)
    ensures first == if steep then (b0, a0) else (a0, b0)
    ensures last == if steep then (b1, a1) else (a1, b1)
  {
    hide Nearest;
    if a1 > a0 {
      var q := if steep then (last.1, last.0) else last;
      NearestAtEnd(Abs(b1 - b0), a1 - a0, if b1 < b0 then b0 - q.1 else q.1 - b0);
      var f := if steep then (first.1, first.0) else first;
      NearestStart(Abs(b1 - b0), a1 - a0);
      NearestUnique(Abs(b1 - b0), a1 - a0, 0, 0, if b1 < b0 then b0 - f.1 else f.1 - b0);
    }
  }

  /** Twice the distance of p from the line through the ends, measured along the minor axis
      and scaled by the length of the major one: at most half a pixel. */
  ghost predicate WithinHalf(x0: int, y0: int, x1: int, y1: int, p: Pixel) {
    Abs(2 * Cross(x0, y0, x1, y1, p)) <= Max(Abs(x1 - x0), Abs(y1 - y0))
  }

  function Cross(x0: int, y0: int, x1: int, y1: int, p: Pixel): int {
    (x1 - x0) * (p.1 - y0) - (y1 - y0) * (p.0 - x0)
  }

  lemma StepWithinHalf(a0: int, b0: int, a1: int, b1: int, steep: bool, k: int, p: Pixel)
    requires Abs(b1 - b0) <= a1 - a0 && IsStep(a0, b0, a1, b1, steep, k, p)
    ensures if steep then WithinHalf(b0, a0, b1, a1, p) else WithinHalf(a0, b0, a1, b1, p)
  {
    hide Nearest, Cross;
    var q := if steep then (p.1, p.0) else p;
    var m := if b1 < b0 then b0 - q.1 else q.1 - b0;
    CrossIs(a0, b0, a1, b1, k, m, q);
    CrossSwap(a0, b0, a1, b1, q);
    NearIs(Abs(b1 - b0), a1 - a0, k, m);
  }

  lemma NearIs(minor: int, major: int, k: int, m: int)
    ensures Nearest(minor, major, k, m) ==> Abs(2 * (major * m - minor * k)) <= major
  {
  }

  lemma CrossIs(a0: int, b0: int, a1: int, b1: int, k: int, m: int, q: Pixel)
    requires q.0 == a0 + k && m == if b1 < b0 then b0 - q.1 else q.1 - b0
    ensures Abs(Cross(a0, b0, a1, b1, q)) == Abs((a1 - a0) * m - Abs(b1 - b0) * k)
    ensures a1 == a0 && b1 == b0 ==> Cross(a0, b0, a1, b1, q) == 0
  {
  }

  /** Exchanging the axes turns the plane over. */
  lemma CrossSwap(a0: int, b0: int, a1: int, b1: int, q: Pixel)
    ensures Cross(b0, a0, b1, a1, (q.1, q.0)) == -Cross(a0, b0, a1, b1, q)
  {
  }

  /** video_framebuffer_draw_line: every pixel within half a pixel of the line, both ends
      drawn, one pixel for each step along the longer axis. */
  method DrawLine(x0: int, y0: int, x1: int, y1: int) returns (pixels: seq<Pixel>)
    ensures |pixels| == Max(Abs(x1 - x0), Abs(y1 - y0)) + 1
    ensures forall k :: 0 <= k < |pixels| ==> WithinHalf(x0, y0, x1, y1, pixels[k])
    ensures (x0, y0) in pixels && (x1, y1) in pixels
  {
    hide IsStep, WithinHalf, Nearest;
    var steep := Abs(y1 - y0) >= Abs(x1 - x0);
    var a0, b0 := if steep then y0 else x0, if steep then x0 else y0;
    var a1, b1 := if steep then y1 else x1, if steep then x1 else y1;
    if a0 > a1 {
      a0, b0, a1, b1 := a1, b1, a0, b0;
    }
    pixels := DrawAlong(a0, b0, a1, b1, steep);
    EndsDrawn(a0, b0, a1, b1, steep, pixels[0], pixels[a1 - a0]);
    forall k | 0 <= k < |pixels| ensures WithinHalf(x0, y0, x1, y1, pixels[k]) {
      StepWithinHalf(a0, b0, a1, b1, steep, k, pixels[k]);
      HalfBack(x0, y0, x1, y1, pixels[k]);
    }
  }

  lemma HalfBack(x0: int, y0: int, x1: int, y1: int, p: Pixel)
    ensures WithinHalf(x1, y1, x0, y0, p) == WithinHalf(x0, y0, x1, y1, p)
  {
  }

  // ----- circles -----

  /** x is the distance from the other axis nearest to the circle at height y. */
  ghost predicate Ring(x: int, y: int, r: int) {
    -x < x * x + y * y - r * r <= x
  }

  /** An offset from the centre whose longer side is the right one for its shorter side. */
  ghost predicate OnRing(dx: int, dy: int, r: int) {
    Ring(Max(Abs(dx), Abs(dy)), Min(Abs(dx), Abs(dy)), r)
  }

  lemma RingUnique(x: int, z: int, y: int, r: int)
    requires x >= 0 && z >= 0 && Ring(x, y, r) && Ring(z, y, r)
    ensures x <= z
  {
    if x > z {
      Grows(x, z);
    }
  }

  lemma Grows(x: int, z: int)
    requires x > z >= 0
    ensures x * x - x >= z * z + z
  {
    var g := x - z - 1;
    assert x == z + 1 + g;
    assert x * x == (z + 1) * (z + 1) + 2 * (z + 1) * g + g * g;
    assert (z + 1) * (z + 1) == z * z + 2 * z + 1;
    assert 2 * (z + 1) * g >= g;
  }

  /** What the decision variable is, and where the candidate of the next row lies. */
  ghost predicate Tracks(x: int, y: int, r: int, p: int) {
    p == x * x + y * y - r * r + 2 * y - x + 1
  }

  lemma CircleStep(x: int, y: int, r: int, p: int)
    requires 0 <= y < x && Tracks(x, y, r, p) && Ring(x, y, r)
    ensures p <= 0 ==> Tracks(x, y + 1, r, p + 2 * (y + 1) + 1) && Ring(x, y + 1, r)
    ensures p > 0 ==> Tracks(x - 1, y + 1, r, p + 2 * (y + 1 - (x - 1)) + 1)
    ensures p > 0 && x > y + 1 ==> Ring(x - 1, y + 1, r)
    ensures p > 0 && x == y + 1 ==> x * x + x * x - r * r > x
  {
  }

  /** Past the diagonal nothing is left to draw. */
  lemma PastDiagonal(x: int, r: int, X: int, Y: int)
    requires 1 <= x <= Y <= X && x * x - x + x * x > r * r
    ensures !Ring(X, Y, r)
  {
  }

  /** The two points on the axes that the code leaves out: it plots (r, 0) and (0, r) twice
      and the opposite points never. */
  predicate Missing(dx: int, dy: int, r: int) {
    (dx == -r && dy == 0) || (dx == 0 && dy == -r)
  }

  /** Drawn so far: the offsets whose shorter side is at most n. */
  ghost predicate Drawn(dx: int, dy: int, r: int, n: int) {
    OnRing(dx, dy, r) && Min(Abs(dx), Abs(dy)) <= n && !Missing(dx, dy, r)
  }

  /** The eight reflections of (x, y). */
  function Eight(x: int, y: int): set<Pixel> {
    {(x, y), (-x, y), (x, -y), (-x, -y), (y, x), (-y, x), (y, -x), (-y, -x)}
  }

  /** Row y of the octant, reflected, is all that row y + 1 adds. */
  lemma RowDrawn(dx: int, dy: int, r: int, x: int, y: int)
    requires 1 <= y <= x && Ring(x, y, r)
    ensures Drawn(dx, dy, r, y) <==> Drawn(dx, dy, r, y - 1) || (dx, dy) in Eight(x, y)
  {
    hide Ring;
    var a, b := Max(Abs(dx), Abs(dy)), Min(Abs(dx), Abs(dy));
    if b == y && Ring(a, y, r) {
      RingUnique(x, a, y, r);
      RingUnique(a, x, y, r);
    }
  }

  lemma AxisDrawn(dx: int, dy: int, r: int)
    requires r >= 1
    ensures Drawn(dx, dy, r, 0) <==> (dx == r && dy == 0) || (dx == 0 && dy == r)
    ensures Ring(r, 0, r) && Tracks(r, 0, r, 1 - r)
  {
    assert Ring(r, 0, r);
    hide Ring;
    var a, b := Max(Abs(dx), Abs(dy)), Min(Abs(dx), Abs(dy));
    if b == 0 && Ring(a, 0, r) {
      RingUnique(r, a, 0, r);
      RingUnique(a, r, 0, r);
    }
  }

  /** Rows beyond n hold nothing once the diagonal has been passed. */
  lemma AllDrawn(dx: int, dy: int, r: int, n: int)
    requires n >= 0 && (n + 1) * (n + 1) - (n + 1) + (n + 1) * (n + 1) > r * r
    ensures Drawn(dx, dy, r, n) <==> OnRing(dx, dy, r) && !Missing(dx, dy, r)
  {
    hide Ring;
    var a, b := Max(Abs(dx), Abs(dy)), Min(Abs(dx), Abs(dy));
    if b > n {
      PastDiagonal(n + 1, r, a, b);
    }
  }

  ghost predicate Shows(pixels: set<Pixel>, x0: int, y0: int, r: int, n: int) {
    forall p: Pixel :: p in pixels <==> Drawn(p.0 - x0, p.1 - y0, r, n)
  }

  lemma ShowsAxis(x0: int, y0: int, r: int)
    requires r >= 1
    ensures Shows({(r + x0, y0), (x0, r + y0)}, x0, y0, r, 0)
  {
    hide Drawn;
    forall p: Pixel ensures p in {(r + x0, y0), (x0, r + y0)} <==> Drawn(p.0 - x0, p.1 - y0, r, 0) {
      AxisDrawn(p.0 - x0, p.1 - y0, r);
    }
  }

  /** The eight reflections of (x, y) around the centre. */
  function EightAt(x0: int, y0: int, x: int, y: int): set<Pixel> {
    {(x + x0, y + y0), (-x + x0, y + y0), (x + x0, -y + y0), (-x + x0, -y + y0)} +
    {(y + x0, x + y0), (-y + x0, x + y0), (y + x0, -x + y0), (-y + x0, -x + y0)}
  }

  lemma ShowsRow(pixels: set<Pixel>, x0: int, y0: int, r: int, x: int, y: int)
    requires Shows(pixels, x0, y0, r, y - 1) && 1 <= y <= x && Ring(x, y, r)
    ensures Shows(pixels + EightAt(x0, y0, x, y), x0, y0, r, y)
  {
    hide Drawn, Ring;
    var more := pixels + EightAt(x0, y0, x, y);
    forall p: Pixel ensures p in more <==> Drawn(p.0 - x0, p.1 - y0, r, y) {
      RowDrawn(p.0 - x0, p.1 - y0, r, x, y);
    }
  }

  /** video_framebuffer_draw_circle plots exactly the pixels nearest to the circle, except
      two of the four on the axes. */
  method DrawCircle(x0: int, y0: int, r: int) returns (pixels: set<Pixel>)
    ensures r >= 1 ==> forall p: Pixel :: p in pixels <==>
      OnRing(p.0 - x0, p.1 - y0, r) && !Missing(p.0 - x0, p.1 - y0, r)
  {
    hide Shows, OnRing, Missing, Ring, Tracks;
    var x, y := r, 0;
    pixels := {(x + x0, y + y0), (x + x0, -y + y0), (y + x0, x + y0), (-y + x0, x + y0)};
    var p := 1 - r;
    if r >= 1 {
      assert pixels == {(r + x0, y0), (x0, r + y0)};
      ShowsAxis(x0, y0, r);
      AxisDrawn(0, 0, r);
    }
    while x > y
      invariant r >= 1 ==> 0 <= y <= x && Tracks(x, y, r, p) && Ring(x, y, r) && Shows(pixels, x0, y0, r, y)
      invariant r >= 1 || x <= y
      decreases x - y
    {
      CircleStep(x, y, r, p);
      y := y + 1;
      if p <= 0 {
        p := p + 2 * y + 1;
      } else {
        x := x - 1;
        p := p + 2 * (y - x) + 1;
      }
      if x < y {
        Complete(pixels, x0, y0, r, y - 1);
        return;
      }
      ShowsRow(pixels, x0, y0, r, x, y);
      ghost var row := pixels + EightAt(x0, y0, x, y);
      pixels := pixels + {(x + x0, y + y0), (-x + x0, y + y0), (x + x0, -y + y0), (-x + x0, -y + y0)};
      if x != y {
        pixels := pixels + {(y + x0, x + y0), (-y + x0, x + y0), (y + x0, -x + y0), (-y + x0, -x + y0)};
      }
      assert pixels == row;
    }
    if r >= 1 {
      DiagonalReached(x, r);
      Complete(pixels, x0, y0, r, y);
    }
  }

  lemma DiagonalReached(x: int, r: int)
    requires x >= 0 && Ring(x, x, r)
    ensures (x + 1) * (x + 1) - (x + 1) + (x + 1) * (x + 1) > r * r
  {
  }

  lemma Complete(pixels: set<Pixel>, x0: int, y0: int, r: int, n: int)
    requires Shows(pixels, x0, y0, r, n) && n >= 0 && (n + 1) * (n + 1) - (n + 1) + (n + 1) * (n + 1) > r * r
    ensures forall p: Pixel :: p in pixels <==> OnRing(p.0 - x0, p.1 - y0, r) && !Missing(p.0 - x0, p.1 - y0, r)
  {
    hide OnRing, Missing, Drawn;
    forall p: Pixel ensures p in pixels <==> OnRing(p.0 - x0, p.1 - y0, r) && !Missing(p.0 - x0, p.1 - y0, r) {
      AllDrawn(p.0 - x0, p.1 - y0, r, n);
    }
  }

  /** The two pixels left out are nearest to the circle like the others. */
  lemma MissingIsNearest(r: int)
    requires r >= 1
    ensures OnRing(-r, 0, r) && OnRing(0, -r, r) && Missing(-r, 0, r) && Missing(0, -r, r)
    ensures OnRing(r, 0, r) && OnRing(0, r, r) && !Missing(r, 0, r) && !Missing(0, r, r)
  {
  }
}
