/** g15r_drawLine: Bresenham's loop with its running error term, against the closed form of
    the points it visits. */
module Line {
  import opened Screen

  /** A line as the loop sweeps it: along the major axis u by steps of one from u0, with the
      minor coordinate v moving away from v0 in the direction vstep. */
  datatype Sweep = Sweep(steep: bool, u0: int, v0: int, du: nat, dv: nat, vstep: int)

  predicate WellFormed(s: Sweep) {
    s.dv <= s.du && (s.vstep == 1 || s.vstep == -1)
  }

  function Abs(n: int): nat {
    if n < 0 then -n else n
  }

  function Oriented(steep: bool, u1: int, v1: int, u2: int, v2: int): Sweep
    requires u1 <= u2
  {
    Sweep(steep, u1, v1, u2 - u1, Abs(v2 - v1), if v1 < v2 then 1 else -1)
  }

  function SweepOf(x1: int, y1: int, x2: int, y2: int): (s: Sweep)
    ensures WellFormed(s)
  {
    var steep := Abs(y2 - y1) > Abs(x2 - x1);
    var (u1, v1, u2, v2) := if steep then (y1, x1, y2, x2) else (x1, y1, x2, y2);
    if u1 > u2 then Oriented(steep, u2, v2, u1, v1) else Oriented(steep, u1, v1, u2, v2)
  }

  /** The minor offset at step k: k*dv/du rounded to the nearest integer, halves upward. */
  function Minor(s: Sweep, k: int): int {
    if s.du == 0 then 0 else (2 * (k * s.dv) + s.du) / (2 * s.du)
  }

  function Across(s: Sweep, k: int): int {
    s.v0 + s.vstep * Minor(s, k)
  }

  function SweepDot(s: Sweep, k: int, color: int): Dot {
    var u, v := s.u0 + k, Across(s, k);
    if s.steep then Dot(v, u, color) else Dot(u, v, color)
  }

  function SweepDots(s: Sweep, color: int): seq<Dot> {
    seq(s.du + 1, k => SweepDot(s, k, color))
  }

  function LineDots(x1: int, y1: int, x2: int, y2: int, color: int): seq<Dot> {
    SweepDots(SweepOf(x1, y1, x2, y2), color)
  }

  lemma MulMono(a: int, b: int, d: int)
    requires a <= b && d >= 0
    ensures a * d <= b * d
  {
    assert (b - a) * d >= 0;
  }

  lemma DivBand(n: int, d: int, m: int)
    requires d > 0
    ensures m == n / d <==> m * d <= n < m * d + d
  {
    var q := n / d;
    assert q * d <= n < q * d + d;
    if m < q {
      MulMono(m + 1, q, d);
    } else if m > q {
      MulMono(q + 1, m, d);
    }
  }

  /** The rounding quotient is the only integer whose remainder lies in the half-open band. */
  lemma MinorUnique(s: Sweep, k: int, m: int)
    requires s.du > 0
    ensures m == Minor(s, k) <==> 0 - s.du <= 2 * (k * s.dv - m * s.du) < s.du
  {
    DivBand(2 * (k * s.dv) + s.du, 2 * s.du, m);
    assert m * (2 * s.du) == 2 * (m * s.du);
  }

  /** One step right moves the rounded quotient by nought or one. */
  lemma MinorStep(s: Sweep, k: nat)
    requires WellFormed(s) && s.du > 0
    ensures Minor(s, k) <= Minor(s, k + 1) <= Minor(s, k) + 1
    ensures Minor(s, k + 1) == Minor(s, k) + 1 <==> 2 * ((k + 1) * s.dv - Minor(s, k) * s.du) >= s.du
  {
    var m := Minor(s, k);
    MinorUnique(s, k, m);
    MinorUnique(s, k + 1, m);
    MinorUnique(s, k + 1, m + 1);
    assert (k + 1) * s.dv == k * s.dv + s.dv;
    assert (m + 1) * s.du == m * s.du + s.du;
  }

  lemma MinorEnds(s: Sweep)
    requires WellFormed(s)
    ensures Minor(s, 0) == 0 && Minor(s, s.du) == s.dv
  {
    if s.du > 0 {
      MinorUnique(s, 0, 0);
      MinorUnique(s, s.du, s.dv);
    }
  }

  lemma {:induction false} MinorMonotone(s: Sweep, j: nat, k: nat)
    requires WellFormed(s) && j <= k
    ensures Minor(s, j) <= Minor(s, k)
    decreases k - j
  {
    if s.du > 0 && j < k {
      MinorMonotone(s, j, k - 1);
      MinorStep(s, k - 1);
    }
  }

  lemma MinorRange(s: Sweep, k: nat)
    requires WellFormed(s) && k <= s.du
    ensures 0 <= Minor(s, k) <= s.dv
  {
    MinorEnds(s);
    MinorMonotone(s, 0, k);
    MinorMonotone(s, k, s.du);
  }

  /** What the running error of the loop stands for, and what its update does. */
  function Error(s: Sweep, k: int): int {
    k * s.dv - Minor(s, k) * s.du
  }

  lemma ErrorStep(s: Sweep, k: nat)
    requires WellFormed(s) && s.du > 0
    ensures var e := Error(s, k) + s.dv;
            if 2 * e >= s.du
            then Error(s, k + 1) == e - s.du && Across(s, k + 1) == Across(s, k) + s.vstep
            else Error(s, k + 1) == e && Across(s, k + 1) == Across(s, k)
  {
    MinorStep(s, k);
    var m := Minor(s, k);
    assert (k + 1) * s.dv == k * s.dv + s.dv;
    assert (m + 1) * s.du == m * s.du + s.du;
    assert s.vstep * (m + 1) == s.vstep * m + s.vstep;
  }

  ghost predicate Advances(s: Sweep, vs: seq<int>, es: seq<int>, k: nat)
    requires k + 1 < |vs| == |es|
  {
    if 2 * (es[k] + s.dv) >= s.du
    then es[k + 1] == es[k] + s.dv - s.du && vs[k + 1] == vs[k] + s.vstep
    else es[k + 1] == es[k] + s.dv && vs[k + 1] == vs[k]
  }

  /** The minor coordinates and error terms of a whole sweep, step by step. */
  lemma Walk(s: Sweep, color: int) returns (vs: seq<int>, es: seq<int>)
    requires WellFormed(s)
    ensures |vs| == |es| == s.du + 1 == |SweepDots(s, color)| && vs[0] == s.v0 && es[0] == 0
    ensures forall k :: 0 <= k <= s.du ==>
              SweepDots(s, color)[k] == if s.steep then Dot(vs[k], s.u0 + k, color) else Dot(s.u0 + k, vs[k], color)
    ensures forall k :: 0 <= k < s.du ==> Advances(s, vs, es, k)
  {
    vs := seq(s.du + 1, k => Across(s, k));
    es := seq(s.du + 1, k => Error(s, k));
    MinorEnds(s);
    forall k | 0 <= k < s.du
      ensures Advances(s, vs, es, k)
    {
      ErrorStep(s, k);
    }
  }

  method DrawLine(canvas: Canvas, x1: int, y1: int, x2: int, y2: int, color: int)
    requires canvas.Valid()
    modifies canvas.buffer
    ensures canvas.Bytes() == PlotAll(old(canvas.Bytes()), canvas.CurrentMode(), LineDots(x1, y1, x2, y2, color))
  {
    hide Plot, PlotAll, SweepDots;
    var px1, py1, px2, py2 := x1, y1, x2, y2;
    var steep := Abs(py2 - py1) > Abs(px2 - px1);
    if steep {
      px1, py1 := py1, px1;
      px2, py2 := py2, px2;
    }
    if px1 > px2 {
      px1, px2 := px2, px1;
      py1, py2 := py2, py1;
    }
    var dx, dy := px2 - px1, Abs(py2 - py1);
    var error := 0;
    var y := py1;
    var ystep := if py1 < py2 then 1 else -1;
    var x := px1;

    ghost var dots := LineDots(x1, y1, x2, y2, color);
    ghost var was, mode := canvas.Bytes(), canvas.CurrentMode();
    assert SweepOf(x1, y1, x2, y2) == Sweep(steep, px1, py1, dx, dy, ystep);
    ghost var s := Sweep(steep, px1, py1, dx, dy, ystep);
    ghost var vs, es := Walk(s, color);
    ghost var k := 0;
    PlotNone(was, mode);
    assert dots[..0] == [];
    while x <= px2
      invariant x == px1 + k <= px2 + 1
      invariant x <= px2 ==> y == vs[k] && error == es[k]
      invariant canvas.Bytes() == PlotAll(was, mode, dots[..k])
    {
      if steep {
        canvas.SetPixel(y, x, color);
      } else {
        canvas.SetPixel(x, y, color);
      }
      PlotNext(was, mode, dots, k);
      assert k < dx ==> Advances(s, vs, es, k);
      error := error + dy;
      if 2 * error >= dx {
        y := y + ystep;
        error := error - dx;
      }
      x, k := x + 1, k + 1;
    }
    assert dots[..k] == dots;
  }

  /** The points on the rounded line, without any rounding: within half a pixel of the ideal
      line along the minor axis, ties going one way only. */
  predicate OnLine(s: Sweep, u: int, v: int) {
    0 <= u - s.u0 <= s.du
    && if s.du == 0 then v == s.v0
       else 0 - s.du <= 2 * ((u - s.u0) * s.dv - s.vstep * (v - s.v0) * s.du) < s.du
  }

  /** The line paints exactly the pixels nearest to the ideal line, one per major step. */
  lemma LineExact(x1: int, y1: int, x2: int, y2: int, color: int, x: int, y: int)
    ensures var s := SweepOf(x1, y1, x2, y2);
            Hit(LineDots(x1, y1, x2, y2, color), x, y) <==> if s.steep then OnLine(s, y, x) else OnLine(s, x, y)
  {
    var s := SweepOf(x1, y1, x2, y2);
    var dots := LineDots(x1, y1, x2, y2, color);
    var (u, v) := if s.steep then (y, x) else (x, y);
    var k := u - s.u0;
    var m := s.vstep * (v - s.v0);
    assert v == s.v0 + s.vstep * m;
    if s.du > 0 {
      MinorUnique(s, k, m);
    }
    if 0 <= k <= s.du && Minor(s, k) == m {
      assert dots[k] == SweepDot(s, k, color);
    }
  }

  lemma LineEndpoints(x1: int, y1: int, x2: int, y2: int, color: int)
    ensures var dots := LineDots(x1, y1, x2, y2, color);
            var a, b := Dot(x1, y1, color), Dot(x2, y2, color);
            && |dots| == 1 + (if Abs(y2 - y1) > Abs(x2 - x1) then Abs(y2 - y1) else Abs(x2 - x1))
            && ((dots[0] == a && dots[|dots| - 1] == b) || (dots[0] == b && dots[|dots| - 1] == a))
  {
    MinorEnds(SweepOf(x1, y1, x2, y2));
  }

  /** Consecutive points touch, at a corner or an edge, and never coincide. */
  lemma LineConnected(x1: int, y1: int, x2: int, y2: int, color: int, k: nat)
    requires k + 1 < |LineDots(x1, y1, x2, y2, color)|
    ensures var dots := LineDots(x1, y1, x2, y2, color);
            var dx, dy := Abs(dots[k + 1].x - dots[k].x), Abs(dots[k + 1].y - dots[k].y);
            dx <= 1 && dy <= 1 && dx + dy >= 1
  {
    MinorStep(SweepOf(x1, y1, x2, y2), k);
  }

  function Min(a: int, b: int): int {
    if a < b then a else b
  }

  function Max(a: int, b: int): int {
    if a < b then b else a
  }

  lemma LineInBox(x1: int, y1: int, x2: int, y2: int, color: int, k: nat)
    requires k < |LineDots(x1, y1, x2, y2, color)|
    ensures var d := LineDots(x1, y1, x2, y2, color)[k];
            Min(x1, x2) <= d.x <= Max(x1, x2) && Min(y1, y2) <= d.y <= Max(y1, y2) && d.val == color
  {
    MinorRange(SweepOf(x1, y1, x2, y2), k);
  }

  lemma LineColour(x1: int, y1: int, x2: int, y2: int, color: int)
    ensures Uniform(LineDots(x1, y1, x2, y2, color), color)
  {
  }

  /** The line in plain coordinates, for a gentle slope from left to right: in each column the pixel
      whose centre is nearest to the ideal line. */
  lemma LineGentle(x1: int, y1: int, x2: int, y2: int, color: int, x: int, y: int)
    requires x1 < x2 && Abs(y2 - y1) <= x2 - x1
    ensures var dx, dy := x2 - x1, y2 - y1;
            var above := 2 * ((x - x1) * dy - (y - y1) * dx);
            Hit(LineDots(x1, y1, x2, y2, color), x, y)
            <==> x1 <= x <= x2 && if dy > 0 then -dx <= above < dx else -dx < above <= dx
  {
    hide LineDots, Hit;
    LineExact(x1, y1, x2, y2, color, x, y);
    var s := SweepOf(x1, y1, x2, y2);
    assert s == Sweep(false, x1, y1, x2 - x1, Abs(y2 - y1), if y1 < y2 then 1 else -1);
    Slope(x - x1, y - y1, x2 - x1, y2 - y1, s.vstep);
  }

  lemma Slope(u: int, v: int, dx: int, dy: int, vstep: int)
    requires vstep == if dy > 0 then 1 else -1
    ensures 2 * (u * Abs(dy) - vstep * v * dx) == vstep * (2 * (u * dy - v * dx))
  {
    if dy <= 0 {
      assert u * -dy == -(u * dy);
      assert -1 * v * dx == -(v * dx);
    }
  }

  /** A steep line is a gentle one with the axes exchanged. */
  lemma LineSteep(x1: int, y1: int, x2: int, y2: int, color: int, x: int, y: int)
    requires Abs(y2 - y1) > Abs(x2 - x1)
    ensures Hit(LineDots(x1, y1, x2, y2, color), x, y) <==> Hit(LineDots(y1, x1, y2, x2, color), y, x)
  {
    LineExact(x1, y1, x2, y2, color, x, y);
    LineExact(y1, x1, y2, x2, color, y, x);
  }

  /** No pixel of a line is plotted twice. */
  lemma LineOnce(x1: int, y1: int, x2: int, y2: int, color: int, x: int, y: int)
    ensures Hits(LineDots(x1, y1, x2, y2, color), x, y) == if Hit(LineDots(x1, y1, x2, y2, color), x, y) then 1 else 0
  {
    HitsOnce(LineDots(x1, y1, x2, y2, color), x, y);
  }

  /** Exchanging the end points draws the same line. */
  lemma LineSymmetric(x1: int, y1: int, x2: int, y2: int, color: int)
    ensures LineDots(x1, y1, x2, y2, color) == LineDots(x2, y2, x1, y1, color)
  {
    assert SweepOf(x1, y1, x2, y2) == SweepOf(x2, y2, x1, y1);
  }

  lemma HorizontalLine(x1: int, x2: int, y0: int, color: int, x: int, y: int)
    ensures Hit(LineDots(x1, y0, x2, y0, color), x, y) <==> y == y0 && Min(x1, x2) <= x <= Max(x1, x2)
  {
    LineExact(x1, y0, x2, y0, color, x, y);
    var s := SweepOf(x1, y0, x2, y0);
    FlatBand(s, x, y);
  }

  lemma VerticalLine(x0: int, y1: int, y2: int, color: int, x: int, y: int)
    ensures Hit(LineDots(x0, y1, x0, y2, color), x, y) <==> x == x0 && Min(y1, y2) <= y <= Max(y1, y2)
  {
    LineExact(x0, y1, x0, y2, color, x, y);
    var s := SweepOf(x0, y1, x0, y2);
    if s.steep {
      FlatBand(s, y, x);
    }
  }

  lemma FlatBand(s: Sweep, u: int, v: int)
    requires WellFormed(s) && s.dv == 0
    ensures OnLine(s, u, v) <==> 0 <= u - s.u0 <= s.du && v == s.v0
  {
    var m := s.vstep * (v - s.v0);
    assert (u - s.u0) * s.dv == 0;
    assert m == 0 <==> v == s.v0;
    if s.du > 0 {
      if m >= 1 {
        MulMono(1, m, s.du);
      } else if m <= -1 {
        MulMono(m, -1, s.du);
      }
    }
  }
}
