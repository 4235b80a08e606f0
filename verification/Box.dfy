/** g15r_pixelBox, g15r_pixelReverseFill and g15r_pixelOverlay. */
module Box {
  import opened Screen
  import opened Line

  function LayerDots(x1: int, y1: int, x2: int, y2: int, color: int): seq<Dot> {
    LineDots(x1, y1, x2, y1, color) + LineDots(x1, y1, x1, y2, color)
    + LineDots(x2, y1, x2, y2, color) + LineDots(x1, y2, x2, y2, color)
  }

  /** n nested frames, each one pixel further in than the last. */
  function LayersDots(x1: int, y1: int, x2: int, y2: int, color: int, n: nat): seq<Dot> {
    if n == 0 then []
    else
      var i := n - 1;
      LayersDots(x1, y1, x2, y2, color, i) + LayerDots(x1 + i, y1 + i, x2 - i, y2 - i, color)
  }

  function ColumnDots(x: int, y1: int, y2: int, color: int): seq<Dot> {
    if y1 > y2 then [] else seq(y2 - y1 + 1, k => Dot(x, y1 + k, color))
  }

  function FillDots(x1: int, y1: int, x2: int, y2: int, color: int): seq<Dot>
    decreases x2 - x1
  {
    if x1 > x2 then [] else FillDots(x1, y1, x2 - 1, y2, color) + ColumnDots(x2, y1, y2, color)
  }

  function BoxDots(x1: int, y1: int, x2: int, y2: int, color: int, thick: int, fill: bool): seq<Dot> {
    var t := if thick < 0 then 0 else thick;
    LayersDots(x1, y1, x2, y2, color, t)
    + if fill then FillDots(x1 + t, y1 + t, x2 - t, y2 - t, color) else []
  }

  lemma FourLines(buf: Buffer, mode: Mode, before: seq<Dot>, x1: int, y1: int, x2: int, y2: int, color: int)
    ensures var b0 := PlotAll(buf, mode, before);
            var b1 := PlotAll(b0, mode, LineDots(x1, y1, x2, y1, color));
            var b2 := PlotAll(b1, mode, LineDots(x1, y1, x1, y2, color));
            var b3 := PlotAll(b2, mode, LineDots(x2, y1, x2, y2, color));
            PlotAll(b3, mode, LineDots(x1, y2, x2, y2, color))
            == PlotAll(buf, mode, before + LayerDots(x1, y1, x2, y2, color))
  {
    hide PlotAll, LineDots;
    var l1, l2 := LineDots(x1, y1, x2, y1, color), LineDots(x1, y1, x1, y2, color);
    var l3, l4 := LineDots(x2, y1, x2, y2, color), LineDots(x1, y2, x2, y2, color);
    PlotAllConcat(buf, mode, before, l1);
    PlotAllConcat(buf, mode, before + l1, l2);
    PlotAllConcat(buf, mode, before + l1 + l2, l3);
    PlotAllConcat(buf, mode, before + l1 + l2 + l3, l4);
    assert before + LayerDots(x1, y1, x2, y2, color) == before + l1 + l2 + l3 + l4;
  }

  method PixelBox(canvas: Canvas, px1: int, py1: int, px2: int, py2: int, color: int, thick: int, fill: int)
    requires canvas.Valid()
    modifies canvas.buffer
    ensures canvas.Bytes() == PlotAll(old(canvas.Bytes()), canvas.CurrentMode(),
                                      BoxDots(px1, py1, px2, py2, color, thick, fill != 0))
  {
    hide Plot, PlotAll, LineDots, LayerDots;
    var x1, y1, x2, y2 := px1, py1, px2, py2;
    ghost var was, mode := canvas.Bytes(), canvas.CurrentMode();
    ghost var dots: seq<Dot> := [];
    PlotNone(was, mode);
    var i := 0;
    while i < thick
      invariant 0 <= i && (i <= thick || thick < 0 == i)
      invariant x1 == px1 + i && y1 == py1 + i && x2 == px2 - i && y2 == py2 - i
      invariant dots == LayersDots(px1, py1, px2, py2, color, i)
      invariant canvas.Bytes() == PlotAll(was, mode, dots)
    {
      FourLines(was, mode, dots, x1, y1, x2, y2, color);
      DrawLine(canvas, x1, y1, x2, y1, color);
      DrawLine(canvas, x1, y1, x1, y2, color);
      DrawLine(canvas, x2, y1, x2, y2, color);
      DrawLine(canvas, x1, y2, x2, y2, color);
      dots := dots + LayerDots(x1, y1, x2, y2, color);
      i, x1, y1, x2, y2 := i + 1, x1 + 1, y1 + 1, x2 - 1, y2 - 1;
    }
    if fill != 0 {
      FillArea(canvas, x1, y1, x2, y2, color);
      PlotAllConcat(was, mode, dots, FillDots(x1, y1, x2, y2, color));
    } else {
      assert dots + [] == dots;
    }
  }

  /** The two loops that fill the inside of a box. */
  method FillArea(canvas: Canvas, x1: int, y1: int, x2: int, y2: int, color: int)
    requires canvas.Valid()
    modifies canvas.buffer
    ensures canvas.Bytes() == PlotAll(old(canvas.Bytes()), canvas.CurrentMode(), FillDots(x1, y1, x2, y2, color))
  {
    hide Plot, PlotAll;
    ghost var was, mode := canvas.Bytes(), canvas.CurrentMode();
    ghost var dots: seq<Dot> := [];
    PlotNone(was, mode);
    var x := x1;
    while x <= x2
      invariant x1 <= x && (x <= x2 + 1 || x == x1)
      invariant dots == FillDots(x1, y1, x - 1, y2, color)
      invariant canvas.Bytes() == PlotAll(was, mode, dots)
    {
      ghost var column, atColumn := ColumnDots(x, y1, y2, color), canvas.Bytes();
      PlotNone(atColumn, mode);
      assert column[..0] == [];
      var y := y1;
      while y <= y2
        invariant y1 <= y && (y <= y2 + 1 || y == y1) && y - y1 <= |column|
        invariant canvas.Bytes() == PlotAll(atColumn, mode, column[..y - y1])
      {
        PlotNext(atColumn, mode, column, y - y1);
        canvas.SetPixel(x, y, color);
        y := y + 1;
      }
      assert column[..y - y1] == column;
      PlotAllConcat(was, mode, dots, column);
      dots := dots + column;
      x := x + 1;
    }
  }

  predicate InRect(x1: int, y1: int, x2: int, y2: int, x: int, y: int) {
    x1 <= x <= x2 && y1 <= y <= y2
  }

  /** Distance of a point of the rectangle from its border. */
  function Depth(x1: int, y1: int, x2: int, y2: int, x: int, y: int): int {
    Min(Min(x - x1, x2 - x), Min(y - y1, y2 - y))
  }

  predicate OnFrame(x1: int, y1: int, x2: int, y2: int, x: int, y: int) {
    ((y == y1 || y == y2) && Min(x1, x2) <= x <= Max(x1, x2))
    || ((x == x1 || x == x2) && Min(y1, y2) <= y <= Max(y1, y2))
  }

  predicate OnLayer(x1: int, y1: int, x2: int, y2: int, i: int, x: int, y: int) {
    OnFrame(x1 + i, y1 + i, x2 - i, y2 - i, x, y)
  }

  lemma LayerExact(x1: int, y1: int, x2: int, y2: int, color: int, x: int, y: int)
    ensures Hit(LayerDots(x1, y1, x2, y2, color), x, y) <==> OnFrame(x1, y1, x2, y2, x, y)
  {
    hide LineDots, Hit;
    var l1, l2 := LineDots(x1, y1, x2, y1, color), LineDots(x1, y1, x1, y2, color);
    var l3, l4 := LineDots(x2, y1, x2, y2, color), LineDots(x1, y2, x2, y2, color);
    HitConcat(l1, l2, x, y);
    HitConcat(l1 + l2, l3, x, y);
    HitConcat(l1 + l2 + l3, l4, x, y);
    HorizontalLine(x1, x2, y1, color, x, y);
    HorizontalLine(x1, x2, y2, color, x, y);
    VerticalLine(x1, y1, y2, color, x, y);
    VerticalLine(x2, y1, y2, color, x, y);
  }

  lemma {:induction false} LayersExact(x1: int, y1: int, x2: int, y2: int, color: int, n: nat, x: int, y: int)
    ensures Hit(LayersDots(x1, y1, x2, y2, color, n), x, y)
       <==> exists i :: 0 <= i < n && OnLayer(x1, y1, x2, y2, i, x, y)
  {
    hide Hit, LayerDots, OnFrame;
    if n == 0 {
      HitNone(x, y);
    } else {
      var i := n - 1;
      LayersExact(x1, y1, x2, y2, color, i, x, y);
      LayerExact(x1 + i, y1 + i, x2 - i, y2 - i, color, x, y);
      HitConcat(LayersDots(x1, y1, x2, y2, color, i), LayerDots(x1 + i, y1 + i, x2 - i, y2 - i, color), x, y);
      assert OnLayer(x1, y1, x2, y2, i, x, y) <==> OnFrame(x1 + i, y1 + i, x2 - i, y2 - i, x, y);
    }
  }

  lemma {:induction false} FillExact(x1: int, y1: int, x2: int, y2: int, color: int, x: int, y: int)
    ensures Hit(FillDots(x1, y1, x2, y2, color), x, y) <==> InRect(x1, y1, x2, y2, x, y)
    decreases x2 - x1
  {
    if x1 <= x2 {
      FillExact(x1, y1, x2 - 1, y2, color, x, y);
      var column := ColumnDots(x2, y1, y2, color);
      HitConcat(FillDots(x1, y1, x2 - 1, y2, color), column, x, y);
      if x == x2 && y1 <= y <= y2 {
        assert column[y - y1] == Dot(x, y, color);
      }
    }
  }

  /** What the box is meant to paint: the rectangle, or its border thick pixels wide. */
  predicate WantedInBox(x1: int, y1: int, x2: int, y2: int, thick: int, fill: bool, x: int, y: int) {
    InRect(x1, y1, x2, y2, x, y) && (fill || Depth(x1, y1, x2, y2, x, y) < thick)
  }

  ghost predicate PaintsBox(x1: int, y1: int, x2: int, y2: int, color: int, thick: int, fill: bool) {
    forall x, y :: Hit(BoxDots(x1, y1, x2, y2, color, thick, fill), x, y)
              <==> WantedInBox(x1, y1, x2, y2, thick, fill, x, y)
  }

  lemma BoxHit(x1: int, y1: int, x2: int, y2: int, color: int, thick: int, fill: bool, x: int, y: int)
    ensures var t := if thick < 0 then 0 else thick;
            (Hit(BoxDots(x1, y1, x2, y2, color, thick, fill), x, y)
             <==> (exists i :: 0 <= i < t && OnLayer(x1, y1, x2, y2, i, x, y))
                  || (fill && InRect(x1 + t, y1 + t, x2 - t, y2 - t, x, y)))
  {
    hide Hit, LayersDots, FillDots, OnFrame;
    HitNone(x, y);
    var t := if thick < 0 then 0 else thick;
    LayersExact(x1, y1, x2, y2, color, t, x, y);
    FillExact(x1 + t, y1 + t, x2 - t, y2 - t, color, x, y);
    HitConcat(LayersDots(x1, y1, x2, y2, color, t),
              if fill then FillDots(x1 + t, y1 + t, x2 - t, y2 - t, color) else [], x, y);
  }

  /** The shrinking frames paint the wanted pixels and no others exactly when none of them has
      shrunk past the opposite side: beyond that the frames grow out of the rectangle again. */
  lemma BoxExact(x1: int, y1: int, x2: int, y2: int, color: int, thick: int, fill: bool)
    ensures PaintsBox(x1, y1, x2, y2, color, thick, fill)
       <==> thick <= 0 || thick - 1 <= Min(x2 - x1, y2 - y1)
  {
    hide BoxDots, Hit;
    var w, h := x2 - x1, y2 - y1;
    if thick <= 0 || thick - 1 <= Min(w, h) {
      forall x, y ensures Hit(BoxDots(x1, y1, x2, y2, color, thick, fill), x, y)
                     <==> WantedInBox(x1, y1, x2, y2, thick, fill, x, y)
      {
        BoxHit(x1, y1, x2, y2, color, thick, fill, x, y);
        var d := Depth(x1, y1, x2, y2, x, y);
        if 0 <= d < thick {
          assert OnLayer(x1, y1, x2, y2, d, x, y);
        }
      }
    } else {
      var i := if w < 0 || h < 0 then 0 else Min(w, h) + 1;
      var x, y := x1 + i, y1 + i;
      BoxHit(x1, y1, x2, y2, color, thick, fill, x, y);
      assert OnLayer(x1, y1, x2, y2, i, x, y);
      assert !WantedInBox(x1, y1, x2, y2, thick, fill, x, y);
    }
  }

  lemma LayerColour(x1: int, y1: int, x2: int, y2: int, color: int)
    ensures Uniform(LayerDots(x1, y1, x2, y2, color), color)
  {
  }

  lemma {:induction false} LayersColour(x1: int, y1: int, x2: int, y2: int, color: int, n: nat)
    ensures Uniform(LayersDots(x1, y1, x2, y2, color, n), color)
  {
    hide LayerDots;
    if n > 0 {
      var i := n - 1;
      LayersColour(x1, y1, x2, y2, color, i);
      LayerColour(x1 + i, y1 + i, x2 - i, y2 - i, color);
      UniformConcat(LayersDots(x1, y1, x2, y2, color, i), LayerDots(x1 + i, y1 + i, x2 - i, y2 - i, color), color);
    }
  }

  lemma {:induction false} FillColour(x1: int, y1: int, x2: int, y2: int, color: int)
    ensures Uniform(FillDots(x1, y1, x2, y2, color), color)
    decreases x2 - x1
  {
    if x1 <= x2 {
      FillColour(x1, y1, x2 - 1, y2, color);
    }
  }

  lemma BoxColour(x1: int, y1: int, x2: int, y2: int, color: int, thick: int, fill: bool)
    ensures Uniform(BoxDots(x1, y1, x2, y2, color, thick, fill), color)
  {
    var t := if thick < 0 then 0 else thick;
    LayersColour(x1, y1, x2, y2, color, t);
    FillColour(x1 + t, y1 + t, x2 - t, y2 - t, color);
  }

  /** Outside xor mode the box ends up in its colour and every other pixel is as it was. */
  lemma BoxPainted(buf: Buffer, mode: Mode, x1: int, y1: int, x2: int, y2: int, color: int,
                   thick: int, fill: bool, x: int, y: int)
    requires !mode.xor && OnScreen(x, y)
    requires thick <= 0 || thick - 1 <= Min(x2 - x1, y2 - y1)
    ensures Pixel(PlotAll(buf, mode, BoxDots(x1, y1, x2, y2, color, thick, fill)), x, y)
         == if WantedInBox(x1, y1, x2, y2, thick, fill, x, y) then (color != 0) != mode.reverse
            else Pixel(buf, x, y)
  {
    hide PlotAll, BoxDots, Hit;
    BoxExact(x1, y1, x2, y2, color, thick, fill);
    BoxColour(x1, y1, x2, y2, color, thick, fill);
    PaintAll(buf, mode, BoxDots(x1, y1, x2, y2, color, thick, fill), color, x, y);
  }

  /** A frame plots its corners twice. */
  lemma LayerHits(x1: int, y1: int, x2: int, y2: int, color: int, x: int, y: int)
    requires x1 < x2 && y1 < y2
    ensures Hits(LayerDots(x1, y1, x2, y2, color), x, y)
         == if !OnFrame(x1, y1, x2, y2, x, y) then 0
            else if (x == x1 || x == x2) && (y == y1 || y == y2) then 2 else 1
  {
    hide LineDots, Hits;
    var l1, l2 := LineDots(x1, y1, x2, y1, color), LineDots(x1, y1, x1, y2, color);
    var l3, l4 := LineDots(x2, y1, x2, y2, color), LineDots(x1, y2, x2, y2, color);
    HitsConcat(l1, l2, x, y);
    HitsConcat(l1 + l2, l3, x, y);
    HitsConcat(l1 + l2 + l3, l4, x, y);
    LineOnce(x1, y1, x2, y1, color, x, y);
    LineOnce(x1, y1, x1, y2, color, x, y);
    LineOnce(x2, y1, x2, y2, color, x, y);
    LineOnce(x1, y2, x2, y2, color, x, y);
    HorizontalLine(x1, x2, y1, color, x, y);
    HorizontalLine(x1, x2, y2, color, x, y);
    VerticalLine(x1, y1, y2, color, x, y);
    VerticalLine(x2, y1, y2, color, x, y);
  }

  /** n frames inside each other plot the diagonals of their corners twice. */
  lemma {:induction false} LayersHits(x1: int, y1: int, x2: int, y2: int, color: int, n: nat, x: int, y: int)
    requires 2 * (n - 1) < Min(x2 - x1, y2 - y1)
    ensures Hits(LayersDots(x1, y1, x2, y2, color, n), x, y)
         == if !WantedInBox(x1, y1, x2, y2, n, false, x, y) then 0
            else if Min(x - x1, x2 - x) == Min(y - y1, y2 - y) then 2 else 1
  {
    hide LayerDots, Hits;
    if n == 0 {
      NoHits(x, y);
    } else {
      var i := n - 1;
      LayersHits(x1, y1, x2, y2, color, i, x, y);
      LayerHits(x1 + i, y1 + i, x2 - i, y2 - i, color, x, y);
      HitsConcat(LayersDots(x1, y1, x2, y2, color, i), LayerDots(x1 + i, y1 + i, x2 - i, y2 - i, color), x, y);
    }
  }

  lemma NoHits(x: int, y: int)
    ensures Hits([], x, y) == 0
  {
  }

  lemma {:induction false} FillHits(x1: int, y1: int, x2: int, y2: int, color: int, x: int, y: int)
    ensures Hits(FillDots(x1, y1, x2, y2, color), x, y) == if InRect(x1, y1, x2, y2, x, y) then 1 else 0
    decreases x2 - x1
  {
    if x1 > x2 {
      NoHits(x, y);
    } else {
      var column := ColumnDots(x2, y1, y2, color);
      FillHits(x1, y1, x2 - 1, y2, color, x, y);
      HitsConcat(FillDots(x1, y1, x2 - 1, y2, color), column, x, y);
      HitsOnce(column, x, y);
      if x == x2 && y1 <= y <= y2 {
        assert column[y - y1] == Dot(x, y, color);
      }
    }
  }

  /** In xor mode a box in colour 1 toggles the pixels it is meant to paint, except on the diagonals
      from its corners as far in as its sides are thick: those it plots twice. */
  lemma BoxToggles(buf: Buffer, mode: Mode, x1: int, y1: int, x2: int, y2: int, color: int,
                   thick: nat, fill: bool, x: int, y: int)
    requires mode.xor && (color == 0 || color == 1) && OnScreen(x, y) && 2 * (thick - 1) < Min(x2 - x1, y2 - y1)
    ensures var corner := WantedInBox(x1, y1, x2, y2, thick, false, x, y) && Min(x - x1, x2 - x) == Min(y - y1, y2 - y);
            Pixel(PlotAll(buf, mode, BoxDots(x1, y1, x2, y2, color, thick, fill)), x, y)
            == (Pixel(buf, x, y) != ((color == 1) != mode.reverse
                                     && WantedInBox(x1, y1, x2, y2, thick, fill, x, y) && !corner))
  {
    hide PlotAll, LayersDots, FillDots, Hits, PixelAt;
    BoxColour(x1, y1, x2, y2, color, thick, fill);
    XorToggles(buf, mode, BoxDots(x1, y1, x2, y2, color, thick, fill), color, x, y);
    LayersHits(x1, y1, x2, y2, color, thick, x, y);
    FillHits(x1 + thick, y1 + thick, x2 - thick, y2 - thick, color, x, y);
    NoHits(x, y);
    HitsConcat(LayersDots(x1, y1, x2, y2, color, thick),
               if fill then FillDots(x1 + thick, y1 + thick, x2 - thick, y2 - thick, color) else [], x, y);
  }

  /** What g15r_pixelReverseFill leaves in a pixel of its area. */
  predicate ReverseFilled(mode: Mode, fill: bool, color: int, was: bool) {
    Ink(mode, if fill then color else if was then 0 else 1, was)
  }

  method PixelReverseFill(canvas: Canvas, x1: int, y1: int, x2: int, y2: int, fill: int, colour: int)
    requires canvas.Valid()
    modifies canvas.buffer
    ensures forall x, y :: OnScreen(x, y) ==>
              Pixel(canvas.Bytes(), x, y)
              == if InRect(x1, y1, x2, y2, x, y)
                 then ReverseFilled(canvas.CurrentMode(), fill != 0, colour, Pixel(old(canvas.Bytes()), x, y))
                 else Pixel(old(canvas.Bytes()), x, y)
    ensures forall p :: WIDTH * HEIGHT <= p < 8 * BUFFER_LEN ==>
                  PixelAt(canvas.Bytes(), p) == PixelAt(old(canvas.Bytes()), p)
  {
    hide Plot, PixelAt, Ink;
    ghost var was, mode := canvas.Bytes(), canvas.CurrentMode();
    var color := colour;
    var x := x1;
    while x <= x2
      invariant x1 <= x && (x <= x2 + 1 || x == x1)
      invariant fill != 0 ==> color == colour
      invariant forall p :: WIDTH * HEIGHT <= p < 8 * BUFFER_LEN ==> PixelAt(canvas.Bytes(), p) == PixelAt(was, p)
      invariant forall u, v :: OnScreen(u, v) ==>
                  Pixel(canvas.Bytes(), u, v)
                  == if x1 <= u < x && y1 <= v <= y2 then ReverseFilled(mode, fill != 0, colour, Pixel(was, u, v))
                     else Pixel(was, u, v)
    {
      var y := y1;
      while y <= y2
        invariant y1 <= y && (y <= y2 + 1 || y == y1)
        invariant fill != 0 ==> color == colour
        invariant forall p :: WIDTH * HEIGHT <= p < 8 * BUFFER_LEN ==> PixelAt(canvas.Bytes(), p) == PixelAt(was, p)
        invariant forall u, v :: OnScreen(u, v) ==>
                    Pixel(canvas.Bytes(), u, v)
                    == if (x1 <= u < x && y1 <= v <= y2) || (u == x && y1 <= v < y)
                       then ReverseFilled(mode, fill != 0, colour, Pixel(was, u, v))
                       else Pixel(was, u, v)
      {
        if fill == 0 {
          var here := canvas.GetPixel(x, y);
          color := if here != 0 then 0 else 1;
        }
        ghost var before := canvas.Bytes();
        canvas.SetPixel(x, y, color);
        forall u, v | OnScreen(u, v)
          ensures Pixel(canvas.Bytes(), u, v)
               == if u == x && v == y then Ink(mode, color, Pixel(before, u, v)) else Pixel(before, u, v)
        {
          PlotAt(before, mode, Dot(x, y, color), Offset(u, v));
        }
        forall p | WIDTH * HEIGHT <= p < 8 * BUFFER_LEN ensures PixelAt(canvas.Bytes(), p) == PixelAt(before, p) {
          PlotAt(before, mode, Dot(x, y, color), p);
        }
        y := y + 1;
      }
      x := x + 1;
    }
  }

  /** The area is complemented, as documented for fill == 0, exactly when neither drawing mode
      is on: xor mode sets every pixel to one value and reverse mode alone changes nothing. */
  lemma ReverseFillComplements(mode: Mode, color: int)
    ensures (forall was: bool :: ReverseFilled(mode, false, color, was) == !was) <==> !mode.xor && !mode.reverse
    ensures mode.xor ==> forall was: bool :: ReverseFilled(mode, false, color, was) == !mode.reverse
  {
    assert ReverseFilled(mode, false, color, true) == if mode.xor then !mode.reverse else mode.reverse;
    assert ReverseFilled(mode, false, color, false) == !mode.reverse;
  }

  /** With fill the area is painted in the given colour as setPixel would: solid outside xor mode,
      toggled or kept in it. */
  lemma ReverseFillFills(mode: Mode, color: int, was: bool)
    ensures !mode.xor ==> ReverseFilled(mode, true, color, was) == ((color != 0) != mode.reverse)
    ensures mode.xor && (color == 0 || color == 1) ==>
              ReverseFilled(mode, true, color, was) == (was != ((color == 1) != mode.reverse))
    ensures mode.xor && color != 0 && color != 1 ==> ReverseFilled(mode, true, color, was) == !mode.reverse
  {
  }

  function OverlayDots(x1: int, y1: int, width: nat, height: nat, colormap: seq<int>): seq<Dot>
    requires |colormap| >= width * height
  {
    seq(width * height, i requires 0 <= i < width * height =>
      Dot(x1 + i % width, y1 + i / width, if colormap[i] != 0 then 1 else 0))
  }

  method PixelOverlay(canvas: Canvas, x1: int, y1: int, width: nat, height: nat, colormap: seq<int>)
    requires canvas.Valid() && |colormap| >= width * height
    modifies canvas.buffer
    ensures canvas.Bytes() == PlotAll(old(canvas.Bytes()), canvas.CurrentMode(),
                                      OverlayDots(x1, y1, width, height, colormap))
  {
    hide Plot, PlotAll;
    ghost var was, mode := canvas.Bytes(), canvas.CurrentMode();
    ghost var dots := OverlayDots(x1, y1, width, height, colormap);
    PlotNone(was, mode);
    assert dots[..0] == [];
    for i := 0 to width * height
      invariant canvas.Bytes() == PlotAll(was, mode, dots[..i])
    {
      var color := if colormap[i] != 0 then 1 else 0;
      var x := x1 + i % width;
      var y := y1 + i / width;
      PlotNext(was, mode, dots, i);
      canvas.SetPixel(x, y, color);
    }
    assert dots[..width * height] == dots;
  }

  lemma CellIndex(width: nat, height: nat, c: nat, r: nat)
    requires c < width && r < height
    ensures 0 <= r * width + c < width * height
    ensures (r * width + c) / width == r && (r * width + c) % width == c
  {
    MulMono(r + 1, height, width);
    DivBand(r * width + c, width, r);
  }

  /** Cell (c, r) of the bitmap lands on its pixel; in the plain modes it is copied there. */
  lemma OverlayExact(buf: Buffer, mode: Mode, x1: int, y1: int, width: nat, height: nat, colormap: seq<int>,
                     x: int, y: int)
    requires |colormap| >= width * height && OnScreen(x, y)
    ensures var after := PlotAll(buf, mode, OverlayDots(x1, y1, width, height, colormap));
            if InRect(x1, y1, x1 + width - 1, y1 + height - 1, x, y) then
              var i := (y - y1) * width + (x - x1);
              && 0 <= i < width * height
              && Pixel(after, x, y) == Ink(mode, if colormap[i] != 0 then 1 else 0, Pixel(buf, x, y))
            else
              Pixel(after, x, y) == Pixel(buf, x, y)
  {
    hide Ink, Plot, PlotAll, PixelAt;
    var dots := OverlayDots(x1, y1, width, height, colormap);
    if InRect(x1, y1, x1 + width - 1, y1 + height - 1, x, y) {
      var k := (y - y1) * width + (x - x1);
      CellIndex(width, height, x - x1, y - y1);
      forall j | 0 <= j < |dots| && j != k ensures dots[j].x != x || dots[j].y != y {
        CellOf(width, height, j);
      }
      SoleDot(buf, mode, dots, k);
    } else {
      forall j | 0 <= j < |dots| ensures dots[j].x != x || dots[j].y != y {
        CellOf(width, height, j);
      }
      Untouched(buf, mode, dots, x, y);
    }
  }

  lemma CellOf(width: nat, height: nat, j: nat)
    requires j < width * height
    ensures 0 <= j % width < width && 0 <= j / width < height && j == (j / width) * width + j % width
  {
    DivBand(j, width, j / width);
    if j / width >= height {
      MulMono(height, j / width, width);
    }
  }
}
