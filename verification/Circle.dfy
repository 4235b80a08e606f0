/** g15r_drawCircle. The loop decides each step from a running value dd; the specification
    decides it from the position alone, and the geometry is proved about that.

    The start value and the update of dd make it (xx+1)^2 + yy^2 + 2 - (r+1)^2 throughout. */
module Circle {
  import opened Screen
  import opened Line

  function Decision(r: nat, xx: int, yy: int): int {
    (xx + 1) * (xx + 1) + yy * yy + 2 - (r + 1) * (r + 1)
  }

  /** The two updates the loop makes to its decision value. */
  lemma DecisionSteps(r: nat, xx: int, yy: int)
    ensures Decision(r, xx, yy - 1) == Decision(r, xx, yy) - (2 * (yy - 1) + 1)
    ensures Decision(r, xx + 1, yy) == Decision(r, xx, yy) + (2 * (xx + 1) + 1)
  {
  }

  lemma DecisionStart(r: nat)
    ensures Decision(r, 0, r) == 2 * (1 - r)
  {
  }

  /** Whether the loop leaves row yy, and whether it then leaves column xx. */
  predicate StepsDown(r: nat, xx: int, yy: int) {
    Decision(r, xx, yy) + yy > 0
  }

  predicate StepsRight(r: nat, xx: int, yy: int) {
    xx > Decision(r, xx, yy)
  }

  function NextRow(r: nat, xx: int, yy: int): int {
    if StepsDown(r, xx, yy) then yy - 1 else yy
  }

  function NextColumn(r: nat, xx: int, yy: int): int {
    if StepsRight(r, xx, NextRow(r, xx, yy)) then xx + 1 else xx
  }

  /** The loop never stands still, and its column never passes r + 1. */
  lemma Progress(r: nat, xx: nat, yy: nat)
    requires xx <= r + 1
    ensures StepsDown(r, xx, yy) || StepsRight(r, xx, yy)
    ensures NextColumn(r, xx, yy) <= r + 1
  {
    if !StepsDown(r, xx, yy) && !StepsRight(r, xx, yy) {
      assert xx == 0 && yy == 0;
      assert (r + 1) * (r + 1) == 3;
      if r >= 1 {
        MulMono(2, r + 1, r + 1);
      }
      assert false;
    }
    var y' := NextRow(r, xx, yy);
    if xx == r + 1 {
      assert y' * y' >= 0;
      assert (xx + 1) * (xx + 1) == xx * xx + 2 * xx + 1;
    }
  }

  /** The points of the first quadrant the loop visits from (xx, yy) on. */
  function Walk(r: nat, xx: nat, yy: int): (w: seq<(int, int)>)
    requires xx <= r + 1
    decreases if yy < 0 then 0 else yy + 1 + (r + 1 - xx)
  {
    if yy < 0 then []
    else
      Progress(r, xx, yy);
      [(xx, yy)] + Walk(r, NextColumn(r, xx, yy), NextRow(r, xx, yy))
  }

  function Quadrant(r: nat): seq<(int, int)> {
    Walk(r, 0, r)
  }

  function PointDots(x: int, y: int, xx: int, yy: int, fill: bool, color: int): seq<Dot> {
    if fill then
      LineDots(x - xx, y - yy, x + xx, y - yy, color) + LineDots(x - xx, y + yy, x + xx, y + yy, color)
    else
      [Dot(x + xx, y - yy, color), Dot(x + xx, y + yy, color), Dot(x - xx, y - yy, color), Dot(x - xx, y + yy, color)]
  }

  function WalkDots(x: int, y: int, w: seq<(int, int)>, fill: bool, color: int): seq<Dot> {
    if |w| == 0 then []
    else PointDots(x, y, w[0].0, w[0].1, fill, color) + WalkDots(x, y, w[1..], fill, color)
  }

  function CircleDots(x: int, y: int, r: int, fill: bool, color: int): seq<Dot> {
    if r < 0 then [] else WalkDots(x, y, Quadrant(r), fill, color)
  }

  /** The dots still to come when the loop is at (xx, yy). */
  function RestDots(x: int, y: int, r: nat, xx: nat, yy: int, fill: bool, color: int): seq<Dot>
    requires xx <= r + 1
  {
    WalkDots(x, y, Walk(r, xx, yy), fill, color)
  }

  lemma CircleStart(x: int, y: int, r: int, fill: bool, color: int)
    ensures CircleDots(x, y, r, fill, color) == if r < 0 then [] else RestDots(x, y, r, 0, r, fill, color)
  {
  }

  lemma RestEnd(x: int, y: int, r: nat, xx: nat, fill: bool, color: int)
    requires xx <= r + 1
    ensures RestDots(x, y, r, xx, -1, fill, color) == []
  {
  }

  lemma RestNext(x: int, y: int, r: nat, xx: nat, yy: nat, fill: bool, color: int)
    requires xx <= r + 1
    ensures NextColumn(r, xx, yy) <= r + 1
    ensures RestDots(x, y, r, xx, yy, fill, color)
         == PointDots(x, y, xx, yy, fill, color)
            + RestDots(x, y, r, NextColumn(r, xx, yy), NextRow(r, xx, yy), fill, color)
  {
    Progress(r, xx, yy);
    assert Walk(r, xx, yy)[1..] == Walk(r, NextColumn(r, xx, yy), NextRow(r, xx, yy));
  }

  method DrawCircle(canvas: Canvas, x: int, y: int, r: int, fill: int, color: int)
    requires canvas.Valid()
    modifies canvas.buffer
    ensures canvas.Bytes() == PlotAll(old(canvas.Bytes()), canvas.CurrentMode(), CircleDots(x, y, r, fill != 0, color))
  {
    hide Plot, PlotAll, LineDots, RestDots, PointDots, CircleDots, Decision;
    var xx, yy, dd := 0, r, 2 * (1 - r);
    ghost var was, mode := canvas.Bytes(), canvas.CurrentMode();
    ghost var done: seq<Dot> := [];
    PlotNone(was, mode);
    CircleStart(x, y, r, fill != 0, color);
    if r >= 0 {
      DecisionStart(r);
    }
    while yy >= 0
      invariant r < 0 ==> yy == r && done == []
      invariant r >= 0 ==> 0 <= xx <= r + 1 && -1 <= yy && dd == Decision(r, xx, yy)
      invariant r >= 0 ==> done + RestDots(x, y, r, xx, yy, fill != 0, color) == CircleDots(x, y, r, fill != 0, color)
      invariant canvas.Bytes() == PlotAll(was, mode, done)
      decreases yy + 1 + (r + 1 - xx)
    {
      Progress(r, xx, yy);
      DecisionSteps(r, xx, yy);
      DecisionSteps(r, xx, yy - 1);
      RestNext(x, y, r, xx, yy, fill != 0, color);
      ghost var here := PointDots(x, y, xx, yy, fill != 0, color);
      ghost var xx', yy' := NextColumn(r, xx, yy), NextRow(r, xx, yy);
      PlotPoint(was, mode, done, x, y, xx, yy, fill != 0, color);
      if fill == 0 {
        canvas.SetPixel(x + xx, y - yy, color);
        canvas.SetPixel(x + xx, y + yy, color);
        canvas.SetPixel(x - xx, y - yy, color);
        canvas.SetPixel(x - xx, y + yy, color);
      } else {
        DrawLine(canvas, x - xx, y - yy, x + xx, y - yy, color);
        DrawLine(canvas, x - xx, y + yy, x + xx, y + yy, color);
      }
      done := done + here;
      if dd + yy > 0 {
        yy := yy - 1;
        dd := dd - (2 * yy + 1);
      }
      if xx > dd {
        xx := xx + 1;
        dd := dd + (2 * xx + 1);
      }
      assert xx == xx' && yy == yy';
    }
    if r >= 0 {
      RestEnd(x, y, r, xx, fill != 0, color);
      assert done + [] == done;
    }
  }

  lemma PlotPoint(buf: Buffer, mode: Mode, before: seq<Dot>, x: int, y: int, xx: int, yy: int, fill: bool, color: int)
    ensures var b := PlotAll(buf, mode, before);
            PlotAll(buf, mode, before + PointDots(x, y, xx, yy, fill, color))
            == if fill then
                 PlotAll(PlotAll(b, mode, LineDots(x - xx, y - yy, x + xx, y - yy, color)),
                         mode, LineDots(x - xx, y + yy, x + xx, y + yy, color))
               else
                 Plot(Plot(Plot(Plot(b, mode, Dot(x + xx, y - yy, color)), mode, Dot(x + xx, y + yy, color)),
                           mode, Dot(x - xx, y - yy, color)), mode, Dot(x - xx, y + yy, color))
  {
    hide Plot, LineDots;
    if fill {
      var l1, l2 := LineDots(x - xx, y - yy, x + xx, y - yy, color), LineDots(x - xx, y + yy, x + xx, y + yy, color);
      PlotAllConcat(buf, mode, before, l1);
      PlotAllConcat(buf, mode, before + l1, l2);
      assert before + (l1 + l2) == before + l1 + l2;
    } else {
      var p := PointDots(x, y, xx, yy, fill, color);
      PlotAllConcat(buf, mode, before, p);
      var b := PlotAll(buf, mode, before);
      PlotNone(b, mode);
      assert p[..0] == [] && p[..4] == p;
      PlotNext(b, mode, p, 0);
      PlotNext(b, mode, p, 1);
      PlotNext(b, mode, p, 2);
      PlotNext(b, mode, p, 3);
    }
  }

  /** How far a visited point may lie from the circle of radius r + 1. */
  predicate Band(r: nat, xx: int, yy: int) {
    (r + 1) * (r + 1) - 2 * xx - 3 * yy - 4 <= xx * xx + yy * yy <= (r + 1) * (r + 1) + xx - 1
  }

  lemma BandStep(r: nat, xx: nat, yy: nat)
    requires xx <= r + 1 && Band(r, xx, yy) && NextRow(r, xx, yy) >= 0
    ensures Band(r, NextColumn(r, xx, yy), NextRow(r, xx, yy))
  {
    Progress(r, xx, yy);
  }

  lemma {:induction false} WalkInBand(r: nat, xx: nat, yy: int, a: int, b: int)
    requires xx <= r + 1 && (yy >= 0 ==> Band(r, xx, yy)) && (a, b) in Walk(r, xx, yy)
    ensures xx <= a <= r + 1 && 0 <= b <= yy && Band(r, a, b)
    decreases if yy < 0 then 0 else yy + 1 + (r + 1 - xx)
  {
    Progress(r, xx, yy);
    if (a, b) != (xx, yy) {
      if NextRow(r, xx, yy) >= 0 {
        BandStep(r, xx, yy);
      }
      WalkInBand(r, NextColumn(r, xx, yy), NextRow(r, xx, yy), a, b);
    }
  }

  /** Every plotted point lies in a thin band about the circle of radius r + 1. */
  lemma CircleBand(r: nat, a: int, b: int)
    requires (a, b) in Quadrant(r)
    ensures 0 <= a <= r + 1 && 0 <= b <= r
    ensures (r + 1) * (r + 1) - 2 * a - 3 * b - 4 <= a * a + b * b <= (r + 1) * (r + 1) + a - 1
  {
    WalkInBand(r, 0, r, a, b);
  }

  lemma {:induction false} WalkLength(r: nat, xx: nat, yy: int)
    requires xx <= r + 1 && -1 <= yy
    ensures |Walk(r, xx, yy)| <= yy + 1 + (r + 1 - xx)
    decreases if yy < 0 then 0 else yy + 1 + (r + 1 - xx)
  {
    if yy >= 0 {
      Progress(r, xx, yy);
      WalkLength(r, NextColumn(r, xx, yy), NextRow(r, xx, yy));
    }
  }

  /** The loop body runs at most 2r + 2 times. */
  lemma CircleIterations(r: nat)
    ensures |Quadrant(r)| <= 2 * r + 2
  {
    WalkLength(r, 0, r);
  }

  /** From a visited point the walk goes on as from there; what it visited before lies above or to
      the left. */
  lemma {:induction false} WalkGoesOn(r: nat, xx: nat, yy: int, a: int, b: int, p: (int, int))
    requires xx <= r + 1 && (a, b) in Walk(r, xx, yy)
    ensures xx <= a <= r + 1 && 0 <= b <= yy
    ensures p in Walk(r, a, b) ==> p in Walk(r, xx, yy)
    ensures p in Walk(r, xx, yy) ==> p in Walk(r, a, b) || (p.0 <= a && p.1 >= b && p != (a, b))
    decreases if yy < 0 then 0 else yy + 1 + (r + 1 - xx)
  {
    hide StepsDown, StepsRight, Decision;
    Progress(r, xx, yy);
    if (a, b) != (xx, yy) {
      var xx', yy' := NextColumn(r, xx, yy), NextRow(r, xx, yy);
      assert Walk(r, xx, yy) == [(xx, yy)] + Walk(r, xx', yy');
      WalkGoesOn(r, xx', yy', a, b, p);
    }
  }

  /** The walk goes right and down only. */
  lemma {:induction false} WalkAhead(r: nat, xx: nat, yy: int, a: int, b: int)
    requires xx <= r + 1 && (a, b) in Walk(r, xx, yy)
    ensures xx <= a && 0 <= b <= yy
  {
    WalkGoesOn(r, xx, yy, a, b, (a, b));
  }

  /** Which points are visited, told from squares: the walk begins at the top, in column 0; */
  lemma QuadrantTop(r: nat)
    ensures (0, r) in Quadrant(r) && forall a, b :: (a, b) in Quadrant(r) ==> 0 <= a && 0 <= b <= r
  {
    assert Quadrant(r)[0] == (0, r);
    forall a, b | (a, b) in Quadrant(r) ensures 0 <= a && 0 <= b <= r {
      WalkAhead(r, 0, r, a, b);
    }
  }

  /** it goes on along a row exactly while the next point stays far enough inside; */
  lemma QuadrantRow(r: nat, a: int, b: int)
    requires (a, b) in Quadrant(r)
    ensures (a + 1, b) in Quadrant(r) <==> (a + 1) * (a + 1) + b * b + b + 2 <= (r + 1) * (r + 1)
  {
    WalkGoesOn(r, 0, r, a, b, (a + 1, b));
    Progress(r, a, b);
    var a', b' := NextColumn(r, a, b), NextRow(r, a, b);
    assert Walk(r, a, b) == [(a, b)] + Walk(r, a', b');
    if StepsDown(r, a, b) {
      if (a + 1, b) in Walk(r, a', b') {
        WalkAhead(r, a', b', a + 1, b);
      }
    } else {
      assert Walk(r, a', b')[0] == (a + 1, b);
    }
  }

  /** and from the last point of a row it goes straight down, or down and right, by the sign of one
      more difference of squares. */
  lemma QuadrantRowBelow(r: nat, a: int, b: int, c: int)
    requires (a, b) in Quadrant(r) && (a + 1, b) !in Quadrant(r) && b > 0
    ensures var straight := a <= (a + 1) * (a + 1) + (b - 1) * (b - 1) + 2 - (r + 1) * (r + 1);
            var begin := if straight then a else a + 1;
            (begin, b - 1) in Quadrant(r) && (c < begin ==> (c, b - 1) !in Quadrant(r))
  {
    QuadrantRow(r, a, b);
    WalkGoesOn(r, 0, r, a, b, (c, b - 1));
    Progress(r, a, b);
    var a', b' := NextColumn(r, a, b), NextRow(r, a, b);
    WalkGoesOn(r, 0, r, a, b, (a', b'));
    assert Walk(r, a, b) == [(a, b)] + Walk(r, a', b');
    assert Walk(r, a', b')[0] == (a', b');
    if (c, b - 1) in Walk(r, a', b') {
      WalkAhead(r, a', b', c, b - 1);
    }
  }

  /** For instance radius 2, as the clock draws its centre. */
  lemma QuadrantOfTwo()
    ensures Quadrant(2) == [(0, 2), (1, 2), (2, 1), (2, 0)]
  {
    Progress(2, 0, 2);
    Progress(2, 1, 2);
    Progress(2, 2, 1);
    Progress(2, 2, 0);
    assert Walk(2, 2, 0) == [(2, 0)];
    assert Walk(2, 2, 1) == [(2, 1), (2, 0)];
    assert Walk(2, 1, 2) == [(1, 2), (2, 1), (2, 0)];
  }

  ghost predicate VisitsRow(w: seq<(int, int)>, b: int) {
    exists a :: (a, b) in w
  }

  lemma {:induction false} WalkVisitsRow(r: nat, xx: nat, yy: int, b: nat)
    requires xx <= r + 1 && b <= yy
    ensures VisitsRow(Walk(r, xx, yy), b)
    decreases if yy < 0 then 0 else yy + 1 + (r + 1 - xx)
  {
    Progress(r, xx, yy);
    var rest := Walk(r, NextColumn(r, xx, yy), NextRow(r, xx, yy));
    assert Walk(r, xx, yy) == [(xx, yy)] + rest;
    if b == yy {
      assert (xx, b) in Walk(r, xx, yy);
    } else {
      WalkVisitsRow(r, NextColumn(r, xx, yy), NextRow(r, xx, yy), b);
      var a :| (a, b) in rest;
      assert (a, b) in Walk(r, xx, yy);
    }
  }

  /** From above the centre row, a walk for r >= 3 arrives on that row in column r + 1. */
  lemma {:induction false} WalkReachesEdge(r: nat, xx: nat, yy: nat)
    requires 3 <= r && xx <= r + 1 && 1 <= yy
    ensures (r + 1, 0) in Walk(r, xx, yy)
    decreases yy + 1 + (r + 1 - xx)
  {
    Progress(r, xx, yy);
    var xx', yy' := NextColumn(r, xx, yy), NextRow(r, xx, yy);
    if yy' >= 1 {
      WalkReachesEdge(r, xx', yy');
    } else {
      if xx < r {
        MulMono(xx + 1, r, xx + 1);
        MulMono(xx + 1, r, r);
        assert false;
      }
      assert xx' == r + 1;
      Progress(r, xx', yy');
      assert Walk(r, xx', yy')[0] == (r + 1, 0);
    }
  }

  /** Up to r = 2 the column never passes r, yet reaches it on the centre row. */
  lemma {:induction false} SmallWalkStays(r: nat, xx: nat, yy: int, a: int, b: int)
    requires r <= 2 && xx <= r && (a, b) in Walk(r, xx, yy)
    ensures a <= r
    decreases if yy < 0 then 0 else yy + 1 + (r + 1 - xx)
  {
    Progress(r, xx, yy);
    var yy' := NextRow(r, xx, yy);
    assert xx == r ==> Decision(r, xx, yy') == yy' * yy' + 2;
    if (a, b) != (xx, yy) {
      SmallWalkStays(r, NextColumn(r, xx, yy), yy', a, b);
    }
  }

  lemma {:induction false} SmallWalkReachesEdge(r: nat, xx: nat, yy: nat)
    requires r <= 2 && xx <= r
    ensures (r, 0) in Walk(r, xx, yy)
    decreases yy + 1 + (r + 1 - xx)
  {
    Progress(r, xx, yy);
    var xx', yy' := NextColumn(r, xx, yy), NextRow(r, xx, yy);
    assert Walk(r, xx, yy) == [(xx, yy)] + Walk(r, xx', yy');
    if (xx, yy) == (r, 0) {
      assert Walk(r, xx, yy)[0] == (r, 0);
    } else {
      assert xx == r ==> Decision(r, xx, yy') == yy' * yy' + 2;
      assert yy == 0 ==> (xx + 1) * (xx + 1) <= r * r;
      SmallWalkReachesEdge(r, xx', yy');
    }
  }

  function HalfWidth(r: nat): nat {
    if r <= 2 then r else r + 1
  }

  lemma QuadrantExtent(r: nat)
    ensures (HalfWidth(r), 0) in Quadrant(r) && (0, r) in Quadrant(r)
    ensures forall a, b :: (a, b) in Quadrant(r) ==> 0 <= a <= HalfWidth(r) && 0 <= b <= r
  {
    assert Quadrant(r)[0] == (0, r);
    if r <= 2 {
      SmallWalkReachesEdge(r, 0, r);
    } else {
      WalkReachesEdge(r, 0, r);
    }
    forall a, b | (a, b) in Quadrant(r) ensures 0 <= a <= HalfWidth(r) && 0 <= b <= r {
      CircleBand(r, a, b);
      if r <= 2 {
        SmallWalkStays(r, 0, r, a, b);
      }
    }
  }

  predicate NonNegative(w: seq<(int, int)>) {
    forall i :: 0 <= i < |w| ==> w[i].0 >= 0 && w[i].1 >= 0
  }

  lemma PointHit(x: int, y: int, xx: nat, yy: nat, fill: bool, color: int, u: int, v: int)
    ensures Hit(PointDots(x, y, xx, yy, fill, color), u, v)
       <==> Abs(v - y) == yy && (if fill then Abs(u - x) <= xx else Abs(u - x) == xx)
  {
    var p := PointDots(x, y, xx, yy, fill, color);
    if fill {
      var l1, l2 := LineDots(x - xx, y - yy, x + xx, y - yy, color), LineDots(x - xx, y + yy, x + xx, y + yy, color);
      HitConcat(l1, l2, u, v);
      HorizontalLine(x - xx, x + xx, y - yy, color, u, v);
      HorizontalLine(x - xx, x + xx, y + yy, color, u, v);
    } else {
      assert p[0] == Dot(x + xx, y - yy, color) && p[1] == Dot(x + xx, y + yy, color);
      assert p[2] == Dot(x - xx, y - yy, color) && p[3] == Dot(x - xx, y + yy, color);
    }
  }

  ghost predicate Spans(w: seq<(int, int)>, du: int, dv: int) {
    exists i :: 0 <= i < |w| && w[i].1 == dv && du <= w[i].0
  }

  lemma {:induction false} WalkHit(x: int, y: int, w: seq<(int, int)>, fill: bool, color: int, u: int, v: int)
    requires NonNegative(w)
    ensures Hit(WalkDots(x, y, w, fill, color), u, v)
       <==> if fill then Spans(w, Abs(u - x), Abs(v - y)) else (Abs(u - x), Abs(v - y)) in w
  {
    hide Hit, PointDots, Abs;
    if |w| == 0 {
      HitNone(u, v);
    } else {
      WalkHit(x, y, w[1..], fill, color, u, v);
      PointHit(x, y, w[0].0, w[0].1, fill, color, u, v);
      HitConcat(PointDots(x, y, w[0].0, w[0].1, fill, color), WalkDots(x, y, w[1..], fill, color), u, v);
      var rest := w[1..];
      if Spans(rest, Abs(u - x), Abs(v - y)) {
        var i :| 0 <= i < |rest| && rest[i].1 == Abs(v - y) && Abs(u - x) <= rest[i].0;
        assert w[i + 1] == rest[i];
      }
      if Spans(w, Abs(u - x), Abs(v - y)) {
        var i :| 0 <= i < |w| && w[i].1 == Abs(v - y) && Abs(u - x) <= w[i].0;
        assert i > 0 ==> rest[i - 1] == w[i];
      }
    }
  }

  lemma QuadrantNonNegative(r: nat)
    ensures NonNegative(Quadrant(r))
  {
    forall i | 0 <= i < |Quadrant(r)| ensures Quadrant(r)[i].0 >= 0 && Quadrant(r)[i].1 >= 0 {
      var (a, b) := Quadrant(r)[i];
      assert (a, b) in Quadrant(r);
      CircleBand(r, a, b);
    }
  }

  /** The outline is the walked quadrant mirrored in both axes through the centre. */
  lemma OutlineExact(x: int, y: int, r: nat, color: int, u: int, v: int)
    ensures Hit(CircleDots(x, y, r, false, color), u, v) <==> (Abs(u - x), Abs(v - y)) in Quadrant(r)
  {
    QuadrantNonNegative(r);
    WalkHit(x, y, Quadrant(r), false, color, u, v);
  }

  /** The filled circle is the outline with every row closed up, no more and no less. */
  lemma FilledExact(x: int, y: int, r: nat, color: int, u: int, v: int)
    ensures Hit(CircleDots(x, y, r, true, color), u, v)
       <==> exists u' :: Hit(CircleDots(x, y, r, false, color), u', v) && Abs(u' - x) >= Abs(u - x)
  {
    hide CircleDots, Hit;
    QuadrantNonNegative(r);
    var w := Quadrant(r);
    FilledSpans(x, y, r, color, u, v);
    if Spans(w, Abs(u - x), Abs(v - y)) {
      var i :| 0 <= i < |w| && w[i].1 == Abs(v - y) && Abs(u - x) <= w[i].0;
      OutlineExact(x, y, r, color, x + w[i].0, v);
      assert (w[i].0, w[i].1) in w;
    }
    if u' :| Hit(CircleDots(x, y, r, false, color), u', v) && Abs(u' - x) >= Abs(u - x) {
      OutlineExact(x, y, r, color, u', v);
      var i :| 0 <= i < |w| && w[i] == (Abs(u' - x), Abs(v - y));
      assert Spans(w, Abs(u - x), Abs(v - y));
    }
  }

  lemma FilledSpans(x: int, y: int, r: nat, color: int, u: int, v: int)
    ensures Hit(CircleDots(x, y, r, true, color), u, v) <==> Spans(Quadrant(r), Abs(u - x), Abs(v - y))
  {
    QuadrantNonNegative(r);
    WalkHit(x, y, Quadrant(r), true, color, u, v);
  }

  /** The filled circle meets every row from y - r to y + r, and no other row. */
  lemma FilledRows(x: int, y: int, r: nat, color: int, v: int)
    ensures Hit(CircleDots(x, y, r, true, color), x, v) <==> y - r <= v <= y + r
  {
    FilledSpans(x, y, r, color, x, v);
    QuadrantExtent(r);
    var w := Quadrant(r);
    if y - r <= v <= y + r {
      WalkVisitsRow(r, 0, r, Abs(v - y));
      var a :| (a, Abs(v - y)) in w;
      var i :| 0 <= i < |w| && w[i] == (a, Abs(v - y));
    }
  }

  /** The figure is exactly r high on each side but, from radius 3 on, r + 1 wide. */
  lemma CircleExtent(x: int, y: int, r: nat, color: int)
    ensures forall u, v :: Hit(CircleDots(x, y, r, false, color), u, v) ==>
                  Abs(u - x) <= HalfWidth(r) && Abs(v - y) <= r
    ensures Hit(CircleDots(x, y, r, false, color), x + HalfWidth(r), y)
    ensures Hit(CircleDots(x, y, r, false, color), x - HalfWidth(r), y)
    ensures Hit(CircleDots(x, y, r, false, color), x, y + r) && Hit(CircleDots(x, y, r, false, color), x, y - r)
  {
    QuadrantExtent(r);
    forall u, v | Hit(CircleDots(x, y, r, false, color), u, v) ensures Abs(u - x) <= HalfWidth(r) && Abs(v - y) <= r {
      OutlineExact(x, y, r, color, u, v);
    }
    OutlineExact(x, y, r, color, x + HalfWidth(r), y);
    OutlineExact(x, y, r, color, x - HalfWidth(r), y);
    OutlineExact(x, y, r, color, x, y + r);
    OutlineExact(x, y, r, color, x, y - r);
  }

  /** The outline stays within r of its centre, as a circle of radius r should, only up to r = 2. */
  lemma CircleWithinRadius(x: int, y: int, r: nat, color: int)
    ensures (forall u, v :: Hit(CircleDots(x, y, r, false, color), u, v) ==> Abs(u - x) <= r && Abs(v - y) <= r)
       <==> r <= 2
  {
    CircleExtent(x, y, r, color);
  }

  lemma {:induction false} WalkColour(x: int, y: int, w: seq<(int, int)>, fill: bool, color: int)
    ensures Uniform(WalkDots(x, y, w, fill, color), color)
  {
    hide LineDots;
    if |w| > 0 {
      var xx, yy := w[0].0, w[0].1;
      WalkColour(x, y, w[1..], fill, color);
      LineColour(x - xx, y - yy, x + xx, y - yy, color);
      LineColour(x - xx, y + yy, x + xx, y + yy, color);
    }
  }

  lemma CircleColour(x: int, y: int, r: int, fill: bool, color: int)
    ensures Uniform(CircleDots(x, y, r, fill, color), color)
  {
    if r >= 0 {
      WalkColour(x, y, Quadrant(r), fill, color);
    }
  }

  // ---- how often pixels are plotted ----

  ghost predicate DistinctPoints(w: seq<(int, int)>) {
    forall i, j :: 0 <= i < j < |w| ==> w[i] != w[j]
  }

  lemma {:induction false} WalkDistinct(r: nat, xx: nat, yy: int)
    requires xx <= r + 1
    ensures DistinctPoints(Walk(r, xx, yy))
    decreases if yy < 0 then 0 else yy + 1 + (r + 1 - xx)
  {
    if yy >= 0 {
      Progress(r, xx, yy);
      var rest := Walk(r, NextColumn(r, xx, yy), NextRow(r, xx, yy));
      WalkDistinct(r, NextColumn(r, xx, yy), NextRow(r, xx, yy));
      if (xx, yy) in rest {
        WalkAhead(r, NextColumn(r, xx, yy), NextRow(r, xx, yy), xx, yy);
      }
      assert Walk(r, xx, yy) == [(xx, yy)] + rest;
    }
  }

  /** A point mirrored in both axes is plotted twice on an axis, four times at the centre. */
  function Mirrors(xx: nat, yy: nat): nat {
    (if xx == 0 then 2 else 1) * (if yy == 0 then 2 else 1)
  }

  lemma PointHits(x: int, y: int, xx: nat, yy: nat, color: int, u: int, v: int)
    ensures Hits(PointDots(x, y, xx, yy, false, color), u, v)
         == if Abs(u - x) == xx && Abs(v - y) == yy then Mirrors(xx, yy) else 0
  {
    var p := PointDots(x, y, xx, yy, false, color);
    assert p[..3] == [p[0], p[1], p[2]] && p[..3][..2] == [p[0], p[1]];
    assert p[..3][..2][..1] == [p[0]] && p[..3][..2][..1][..0] == [];
    assert Hits(p[..3][..2][..1], u, v) == if p[0].x == u && p[0].y == v then 1 else 0;
    assert Hits(p[..3][..2], u, v) == Hits(p[..3][..2][..1], u, v) + if p[1].x == u && p[1].y == v then 1 else 0;
    assert Hits(p[..3], u, v) == Hits(p[..3][..2], u, v) + if p[2].x == u && p[2].y == v then 1 else 0;
  }

  lemma RowPairHits(x: int, y: int, xx: nat, yy: nat, color: int, u: int, v: int)
    ensures Hits(PointDots(x, y, xx, yy, true, color), u, v)
         == if Abs(u - x) <= xx && Abs(v - y) == yy then (if yy == 0 then 2 else 1) else 0
  {
    hide Hits, LineDots;
    var l1, l2 := LineDots(x - xx, y - yy, x + xx, y - yy, color), LineDots(x - xx, y + yy, x + xx, y + yy, color);
    HitsConcat(l1, l2, u, v);
    LineOnce(x - xx, y - yy, x + xx, y - yy, color, u, v);
    LineOnce(x - xx, y + yy, x + xx, y + yy, color, u, v);
    HorizontalLine(x - xx, x + xx, y - yy, color, u, v);
    HorizontalLine(x - xx, x + xx, y + yy, color, u, v);
  }

  lemma {:induction false} WalkHits(x: int, y: int, w: seq<(int, int)>, color: int, u: int, v: int)
    requires NonNegative(w) && DistinctPoints(w)
    ensures Hits(WalkDots(x, y, w, false, color), u, v)
         == if (Abs(u - x), Abs(v - y)) in w then Mirrors(Abs(u - x), Abs(v - y)) else 0
  {
    hide Hits, PointDots, Abs, Mirrors;
    if |w| == 0 {
      NoDots(u, v);
    } else {
      WalkHits(x, y, w[1..], color, u, v);
      PointHits(x, y, w[0].0, w[0].1, color, u, v);
      HitsConcat(PointDots(x, y, w[0].0, w[0].1, false, color), WalkDots(x, y, w[1..], false, color), u, v);
      assert w == [w[0]] + w[1..];
      FirstApart(w);
    }
  }

  lemma FirstApart(w: seq<(int, int)>)
    requires |w| > 0 && DistinctPoints(w)
    ensures w[0] !in w[1..]
  {
    forall i | 0 <= i < |w[1..]| ensures w[1..][i] != w[0] {
      assert w[1..][i] == w[i + 1];
    }
  }

  lemma NoDots(x: int, y: int)
    ensures Hits([], x, y) == 0
  {
  }

  /** The visited points of row dv that lie at least du out. */
  function RowCount(w: seq<(int, int)>, du: int, dv: int): nat {
    if |w| == 0 then 0 else (if w[0].1 == dv && du <= w[0].0 then 1 else 0) + RowCount(w[1..], du, dv)
  }

  lemma {:induction false} FilledHits(x: int, y: int, w: seq<(int, int)>, color: int, u: int, v: int)
    requires NonNegative(w)
    ensures Hits(WalkDots(x, y, w, true, color), u, v)
         == (if v == y then 2 else 1) * RowCount(w, Abs(u - x), Abs(v - y))
  {
    hide Hits, PointDots;
    if |w| == 0 {
      NoDots(u, v);
    } else {
      FilledHits(x, y, w[1..], color, u, v);
      RowPairHits(x, y, w[0].0, w[0].1, color, u, v);
      HitsConcat(PointDots(x, y, w[0].0, w[0].1, true, color), WalkDots(x, y, w[1..], true, color), u, v);
    }
  }

  /** In xor mode the outline in colour 1 toggles its pixels except those straight above, below, left
      and right of the centre, which it plots twice. */
  lemma OutlineToggles(buf: Buffer, mode: Mode, x: int, y: int, r: nat, color: int, u: int, v: int)
    requires mode.xor && (color == 0 || color == 1) && OnScreen(u, v)
    ensures Pixel(PlotAll(buf, mode, CircleDots(x, y, r, false, color)), u, v)
         == (Pixel(buf, u, v) != ((color == 1) != mode.reverse
                                  && (Abs(u - x), Abs(v - y)) in Quadrant(r) && u != x && v != y))
  {
    hide PlotAll, Hits, PixelAt, Quadrant, WalkDots;
    QuadrantNonNegative(r);
    QuadrantDistinct(r);
    CircleColour(x, y, r, false, color);
    XorToggles(buf, mode, CircleDots(x, y, r, false, color), color, u, v);
    WalkHits(x, y, Quadrant(r), color, u, v);
  }

  lemma QuadrantDistinct(r: nat)
    ensures DistinctPoints(Quadrant(r))
  {
    WalkDistinct(r, 0, r);
  }

  /** In xor mode the filled circle leaves its centre row as it was, and in the other rows toggles
      where it has drawn an odd number of lines over each other: one for each point visited. */
  lemma FilledToggles(buf: Buffer, mode: Mode, x: int, y: int, r: nat, color: int, u: int, v: int)
    requires mode.xor && (color == 0 || color == 1) && OnScreen(u, v)
    ensures Pixel(PlotAll(buf, mode, CircleDots(x, y, r, true, color)), u, v)
         == (Pixel(buf, u, v) != ((color == 1) != mode.reverse
                                  && v != y && RowCount(Quadrant(r), Abs(u - x), Abs(v - y)) % 2 == 1))
  {
    hide PlotAll, Hits, PixelAt, Quadrant, WalkDots;
    QuadrantNonNegative(r);
    CircleColour(x, y, r, true, color);
    XorToggles(buf, mode, CircleDots(x, y, r, true, color), color, u, v);
    FilledHits(x, y, Quadrant(r), color, u, v);
  }
}
