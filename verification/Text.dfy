/** Bitmap fonts and text: g15r_renderG15Glyph, g15r_G15FontRenderString,
    g15r_testG15FontWidth and the justification in g15r_G15FPrint. */
module Text {
  import opened Options
  import opened Bits
  import opened Screen
  import opened Line
  import opened Box

  const MAX_GLYPH := 256
  const SPACE := 32

  type Char = c: nat | c < MAX_GLYPH

  /** One glyph; buffer is None for a NULL pointer. */
  datatype Glyph = Glyph(buffer: Option<seq<bv8>>, width: nat, gap: nat)

  /** Bytes per glyph row. */
  function Stride(width: nat): nat {
    (width + 7) / 8
  }

  class Font {
    var fontHeight: nat
    var ascenderHeight: nat
    var lineheight: nat
    var numchars: nat
    var defaultGap: nat
    const glyph: array<Glyph>
    const active: array<bool>

    /** Sizes, and for every active glyph a buffer with all its rows. */
    ghost predicate Valid()
      reads this, glyph
    {
      && glyph.Length == MAX_GLYPH && active.Length == MAX_GLYPH
      && forall c: Char :: glyph[c].width < 256 && (glyph[c].buffer.Some? ==>
           |glyph[c].buffer.value| >= fontHeight * Stride(glyph[c].width))
    }

    constructor ()
      ensures Valid() && fresh(glyph) && fresh(active)
      ensures fontHeight == ascenderHeight == lineheight == numchars == defaultGap == 0
      ensures forall c: Char :: glyph[c] == Glyph(None, 0, 0) && !active[c]
    {
      fontHeight, ascenderHeight, lineheight, numchars, defaultGap := 0, 0, 0, 0, 0;
      glyph := new Glyph[MAX_GLYPH](_ => Glyph(None, 0, 0));
      active := new bool[MAX_GLYPH](_ => false);
    }

    /** Whether renderG15Glyph draws anything for c. */
    predicate Draws(c: Char)
      requires Valid()
      reads this, glyph, active
    {
      glyph[c].buffer.Some? && active[c]
    }
  }

  /** The part of a font and of a call that decides which dots a glyph makes. */
  datatype Stamp = Stamp(bits: seq<bv8>, width: nat, height: nat, left: int, top: int, colour: int, paintBg: bool)

  predicate WellFormed(s: Stamp) {
    |s.bits| >= s.height * Stride(s.width)
  }

  /** The bit of row r, column c of the glyph: most significant bit first within each byte. */
  predicate Inked(s: Stamp, c: nat, r: nat)
    requires WellFormed(s) && c < s.width && r < s.height
  {
    RowByte(s, c, r);
    Bit(s.bits[r * Stride(s.width) + c / 8], 7 - c % 8)
  }

  lemma RowByte(s: Stamp, c: nat, r: nat)
    requires WellFormed(s) && c < s.width && r < s.height
    ensures r * Stride(s.width) + c / 8 < s.height * Stride(s.width)
  {
    MulMono(r + 1, s.height, Stride(s.width));
  }

  /** The dots made for the cell in row r and column c of the padded glyph. */
  function CellDots(s: Stamp, c: nat, r: nat): seq<Dot>
    requires WellFormed(s) && r < s.height
  {
    if c >= s.width then []
    else if Inked(s, c, r) then [Dot(s.left + 1 + c, s.top + r, s.colour)]
    else if s.paintBg then [Dot(s.left + 1 + c, s.top + r, XorBit(s.colour, 1))]
    else []
  }

  /** The dots of the first n cells of row r. */
  function RowDots(s: Stamp, r: nat, n: nat): seq<Dot>
    requires WellFormed(s) && r < s.height
  {
    if n == 0 then [] else RowDots(s, r, n - 1) + CellDots(s, n - 1, r)
  }

  /** The dots of the first n rows. */
  function RowsDots(s: Stamp, n: nat): seq<Dot>
    requires WellFormed(s) && n <= s.height
  {
    if n == 0 then [] else RowsDots(s, n - 1) + RowDots(s, n - 1, 8 * Stride(s.width))
  }

  function BackgroundDots(s: Stamp, gap: nat, lineheight: nat): seq<Dot> {
    if s.paintBg then
      BoxDots(s.left, s.top - 1, s.left + s.width + gap, s.top + lineheight, XorBit(s.colour, 1), 1, true)
    else []
  }

  function StampDots(s: Stamp, gap: nat, lineheight: nat): seq<Dot>
    requires WellFormed(s)
  {
    BackgroundDots(s, gap, lineheight) + RowsDots(s, s.height)
  }

  /** The dots of the cells before the cursor (x, y), where x counts the cells done in row y. */
  function CursorDots(s: Stamp, x: nat, y: nat): seq<Dot>
    requires WellFormed(s) && y <= s.height && (x > 0 ==> y < s.height)
  {
    RowsDots(s, y) + if x == 0 then [] else RowDots(s, y, x)
  }

  lemma CursorNext(s: Stamp, x: nat, y: nat)
    requires WellFormed(s) && y < s.height
    ensures CursorDots(s, x + 1, y) == CursorDots(s, x, y) + CellDots(s, x, y)
  {
    hide CellDots, RowsDots;
  }

  lemma CursorWraps(s: Stamp, y: nat)
    requires WellFormed(s) && y < s.height
    ensures CursorDots(s, 8 * Stride(s.width), y) == CursorDots(s, 0, y + 1)
  {
    hide CellDots;
    assert RowDots(s, y, 0) == [];
  }

  lemma {:induction false} NoColumns(s: Stamp, n: nat)
    requires WellFormed(s) && n <= s.height && s.width == 0
    ensures RowsDots(s, n) == []
  {
    if n > 0 {
      NoColumns(s, n - 1);
    }
  }

  function StampOf(g: Glyph, height: nat, left: int, top: int, colour: int, paintBg: bool): Stamp
    requires g.buffer.Some?
  {
    Stamp(g.buffer.value, g.width, height, left, top, colour, paintBg)
  }

  /** What one call of renderG15Glyph draws. */
  ghost function GlyphDots(font: Font, c: Char, left: int, y: int, colour: int, paintBg: bool): seq<Dot>
    requires font.Valid()
    reads font, font.glyph, font.active
  {
    if font.Draws(c) then
      var top := y - (font.fontHeight - font.ascenderHeight - 1);
      StampDots(StampOf(font.glyph[c], font.fontHeight, left, top, colour, paintBg), font.defaultGap, font.lineheight)
    else []
  }

  /** How far one call of renderG15Glyph moves the pen. */
  function Advance(font: Font, c: Char): nat
    requires font.Valid()
    reads font, font.glyph, font.active
  {
    if !font.Draws(c) then 0
    else font.glyph[c].width + if c == SPACE then 0 else font.defaultGap
  }

  method RenderG15Glyph(canvas: Canvas, font: Font, character: Char, left: int, topLeftY: int,
                        colour: int, paintBg: int)
    returns (advance: nat)
    requires canvas.Valid() && font.Valid()
    modifies canvas.buffer
    ensures canvas.Bytes() == PlotAll(old(canvas.Bytes()), canvas.CurrentMode(),
                                      GlyphDots(font, character, left, topLeftY, colour, paintBg != 0))
    ensures advance == Advance(font, character)
  {
    hide Plot, PlotAll, RowsDots, BoxDots;
    ghost var was, mode := canvas.Bytes(), canvas.CurrentMode();
    PlotNone(was, mode);
    if font.glyph[character].buffer.None? || !font.active[character] {
      return 0;
    }
    var width := font.glyph[character].width;
    var top := topLeftY - (font.fontHeight - font.ascenderHeight - 1);
    var s := StampOf(font.glyph[character], font.fontHeight, left, top, colour, paintBg != 0);
    if paintBg != 0 {
      PixelBox(canvas, left, top - 1, left + width + font.defaultGap, top + font.lineheight, XorBit(colour, 1), 1, 1);
    }
    BlitBits(canvas, s);
    PlotAllConcat(was, mode, BackgroundDots(s, font.defaultGap, font.lineheight), RowsDots(s, s.height));
    if character != SPACE {
      return width + font.defaultGap;
    } else {
      return width;
    }
  }

  /** Bytes of the glyph before row y. */
  function RowStart(s: Stamp, y: nat): nat {
    y * Stride(s.width)
  }

  lemma RowStartNext(s: Stamp, y: nat)
    ensures RowStart(s, 0) == 0 && RowStart(s, y + 1) == RowStart(s, y) + Stride(s.width)
  {
  }

  /** The loops over the glyph's bytes and bits, with their running x, y cursor. */
  method BlitBits(canvas: Canvas, s: Stamp)
    requires canvas.Valid() && WellFormed(s)
    modifies canvas.buffer
    ensures canvas.Bytes() == PlotAll(old(canvas.Bytes()), canvas.CurrentMode(), RowsDots(s, s.height))
  {
    hide Plot, PlotAll, CursorDots, CellDots, RowsDots, Bit, RowStart;
    var width: int := s.width;
    var bufferlen := s.height * ((width + 7) / 8);
    var w := width + (7 - width % 8);
    if width % 8 == 0 {
      w := width - 1;
    }
    var x, y := 0, 0;

    ghost var was, mode := canvas.Bytes(), canvas.CurrentMode();
    assert w + 1 == 8 * Stride(width);
    AllRows(s);
    RowStartNext(s, 0);
    PlotNone(was, mode);
    CursorStart(s);
    for bp := 0 to bufferlen
      invariant 0 <= x <= w + 1 && 0 <= y <= s.height && (x > 0 ==> y < s.height)
      invariant 8 * RowStart(s, y) + x == 8 * bp
      invariant canvas.Bytes() == PlotAll(was, mode, CursorDots(s, x, y))
    {
      for i := 0 to 8
        invariant 0 <= x <= w + 1 && 0 <= y <= s.height && (x > 0 ==> y < s.height)
        invariant 8 * RowStart(s, y) + x == 8 * bp + i
        invariant canvas.Bytes() == PlotAll(was, mode, CursorDots(s, x, y))
      {
        if x > w {
          CursorWraps(s, y);
          RowStartNext(s, y);
          x := 0;
          y := y + 1;
        }
        RowInside(s, y, bp);
        PlotNextCell(was, mode, s, x, y, bp, i);
        x := x + 1;
        if x <= width {
          if s.bits[bp] & (0x80 >> i) != 0 {
            canvas.SetPixel(s.left + x, s.top + y, s.colour);
          } else if s.paintBg {
            canvas.SetPixel(s.left + x, s.top + y, XorBit(s.colour, 1));
          }
        }
      }
    }
    CursorEnd(s, x, y);
  }

  lemma AllRows(s: Stamp)
    ensures s.height * ((s.width + 7) / 8) == RowStart(s, s.height)
    ensures WellFormed(s) ==> |s.bits| >= RowStart(s, s.height)
  {
  }

  lemma CursorStart(s: Stamp)
    requires WellFormed(s)
    ensures CursorDots(s, 0, 0) == []
  {
  }

  /** When every bit has been walked the cursor has passed every row. */
  lemma CursorEnd(s: Stamp, x: nat, y: nat)
    requires WellFormed(s) && y <= s.height && x <= 8 * Stride(s.width) && (x > 0 ==> y < s.height)
    requires 8 * RowStart(s, y) + x == 8 * RowStart(s, s.height)
    ensures CursorDots(s, x, y) == RowsDots(s, s.height)
  {
    hide CellDots;
    var stride := Stride(s.width);
    if stride == 0 {
      NoColumns(s, y);
      NoColumns(s, s.height);
    } else if y < s.height {
      if y + 1 < s.height {
        MulMono(y + 2, s.height, stride);
      }
      CursorWraps(s, y);
    }
  }

  lemma RowInside(s: Stamp, y: nat, bp: nat)
    requires RowStart(s, y) <= bp < RowStart(s, s.height)
    ensures y < s.height
  {
    if y >= s.height {
      MulMono(s.height, y, Stride(s.width));
    }
  }

  /** The loop's byte and bit are those of the cell under the cursor. */
  lemma PlotCell(buf: Buffer, mode: Mode, s: Stamp, x: nat, y: nat, bp: nat, i: nat)
    requires WellFormed(s) && y < s.height && i < 8
    requires 8 * RowStart(s, y) + x == 8 * bp + i && bp < RowStart(s, s.height) <= |s.bits|
    ensures PlotAll(buf, mode, CellDots(s, x, y))
         == if x >= s.width then buf
            else if s.bits[bp] & (0x80 >> i) != 0 then Plot(buf, mode, Dot(s.left + 1 + x, s.top + y, s.colour))
            else if s.paintBg then Plot(buf, mode, Dot(s.left + 1 + x, s.top + y, XorBit(s.colour, 1)))
            else buf
  {
    hide Plot, Bit;
    var dots := CellDots(s, x, y);
    assert x / 8 == bp - y * Stride(s.width) && x % 8 == i;
    MaskBit(s.bits[bp], i);
    PlotNone(buf, mode);
    if |dots| == 1 {
      PlotNext(buf, mode, dots, 0);
      assert dots[..1] == dots && dots[..0] == [];
    }
  }

  lemma PlotNextCell(was: Buffer, mode: Mode, s: Stamp, x: nat, y: nat, bp: nat, i: nat)
    requires WellFormed(s) && y < s.height && i < 8
    requires 8 * RowStart(s, y) + x == 8 * bp + i && bp < RowStart(s, s.height) <= |s.bits|
    ensures var buf := PlotAll(was, mode, CursorDots(s, x, y));
            PlotAll(was, mode, CursorDots(s, x + 1, y))
            == if x >= s.width then buf
               else if s.bits[bp] & (0x80 >> i) != 0 then Plot(buf, mode, Dot(s.left + 1 + x, s.top + y, s.colour))
               else if s.paintBg then Plot(buf, mode, Dot(s.left + 1 + x, s.top + y, XorBit(s.colour, 1)))
               else buf
  {
    hide Plot, PlotAll, CursorDots, CellDots, Bit;
    CursorNext(s, x, y);
    PlotAllConcat(was, mode, CursorDots(s, x, y), CellDots(s, x, y));
    PlotCell(PlotAll(was, mode, CursorDots(s, x, y)), mode, s, x, y, bp, i);
  }

  /** The value a glyph gives the pixel (x, y), if it touches it. */
  function GlyphInk(s: Stamp, x: int, y: int): Option<int>
    requires WellFormed(s)
  {
    var c, r := x - s.left - 1, y - s.top;
    if !(0 <= c < s.width && 0 <= r < s.height) then None
    else if Inked(s, c, r) then Some(s.colour)
    else if s.paintBg then Some(XorBit(s.colour, 1))
    else None
  }

  predicate AfterInk(mode: Mode, ink: Option<int>, was: bool) {
    if ink.Some? then Ink(mode, ink.value, was) else was
  }

  lemma CellEffect(buf: Buffer, mode: Mode, s: Stamp, c: nat, r: nat, x: int, y: int)
    requires WellFormed(s) && r < s.height && OnScreen(x, y)
    ensures Pixel(PlotAll(buf, mode, CellDots(s, c, r)), x, y)
         == if x == s.left + 1 + c && y == s.top + r then AfterInk(mode, GlyphInk(s, x, y), Pixel(buf, x, y))
            else Pixel(buf, x, y)
  {
    hide Plot, PlotAll, Inked, Ink, PixelAt, XorBit;
    var dots := CellDots(s, c, r);
    PlotNone(buf, mode);
    if |dots| == 1 {
      PlotNext(buf, mode, dots, 0);
      assert dots[..1] == dots && dots[..0] == [];
      PlotAt(buf, mode, dots[0], Offset(x, y));
    }
  }

  lemma {:induction false} RowEffect(buf: Buffer, mode: Mode, s: Stamp, r: nat, n: nat, x: int, y: int)
    requires WellFormed(s) && r < s.height && OnScreen(x, y)
    ensures Pixel(PlotAll(buf, mode, RowDots(s, r, n)), x, y)
         == if y == s.top + r && x - s.left - 1 < n then AfterInk(mode, GlyphInk(s, x, y), Pixel(buf, x, y))
            else Pixel(buf, x, y)
  {
    hide Plot, PlotAll, CellDots, Inked, Ink, PixelAt, XorBit;
    if n == 0 {
      PlotNone(buf, mode);
    } else {
      RowEffect(buf, mode, s, r, n - 1, x, y);
      PlotAllConcat(buf, mode, RowDots(s, r, n - 1), CellDots(s, n - 1, r));
      CellEffect(PlotAll(buf, mode, RowDots(s, r, n - 1)), mode, s, n - 1, r, x, y);
    }
  }

  /** Blitting n rows writes each pixel of theirs once and touches no other. */
  lemma {:induction false} RowsEffect(buf: Buffer, mode: Mode, s: Stamp, n: nat, x: int, y: int)
    requires WellFormed(s) && n <= s.height && OnScreen(x, y)
    ensures Pixel(PlotAll(buf, mode, RowsDots(s, n)), x, y)
         == if y - s.top < n then AfterInk(mode, GlyphInk(s, x, y), Pixel(buf, x, y)) else Pixel(buf, x, y)
  {
    hide Plot, PlotAll, RowDots, Inked, Ink, PixelAt, XorBit;
    if n == 0 {
      PlotNone(buf, mode);
    } else {
      var wide := 8 * Stride(s.width);
      assert wide >= s.width;
      RowsEffect(buf, mode, s, n - 1, x, y);
      PlotAllConcat(buf, mode, RowsDots(s, n - 1), RowDots(s, n - 1, wide));
      RowEffect(PlotAll(buf, mode, RowsDots(s, n - 1)), mode, s, n - 1, wide, x, y);
    }
  }

  /** The glyph without background: pixel (left+1+c, top+r) takes bit 7 - c mod 8 of byte
      r*stride + c/8 for every c below the width; padding bits are never drawn. */
  lemma GlyphExact(buf: Buffer, mode: Mode, s: Stamp, gap: nat, lineheight: nat, x: int, y: int)
    requires WellFormed(s) && OnScreen(x, y) && !s.paintBg && !mode.xor
    ensures var c, r := x - s.left - 1, y - s.top;
            Pixel(PlotAll(buf, mode, StampDots(s, gap, lineheight)), x, y)
            == if 0 <= c < s.width && 0 <= r < s.height && Inked(s, c, r) then (s.colour != 0) != mode.reverse
               else Pixel(buf, x, y)
  {
    hide Plot, PlotAll, RowsDots, Inked, PixelAt;
    RowsEffect(buf, mode, s, s.height, x, y);
    assert [] + RowsDots(s, s.height) == RowsDots(s, s.height);
  }

  /** With a painted background the cell is opaque: ink on the glyph, the other colour on the rest
      of the cell and of its background box, whatever was there. */
  lemma GlyphWithBackground(buf: Buffer, mode: Mode, s: Stamp, gap: nat, lineheight: nat, x: int, y: int)
    requires WellFormed(s) && OnScreen(x, y) && s.paintBg && !mode.xor && (s.colour == 0 || s.colour == 1)
    ensures var ink := GlyphInk(s, x, y);
            Pixel(PlotAll(buf, mode, StampDots(s, gap, lineheight)), x, y)
            == if ink.Some? || InRect(s.left, s.top - 1, s.left + s.width + gap, s.top + lineheight, x, y)
               then ((ink == Some(s.colour)) == (s.colour == 1)) != mode.reverse
               else Pixel(buf, x, y)
  {
    hide Plot, PlotAll, RowsDots, BoxDots, Inked, PixelAt, WantedInBox;
    var box := BackgroundDots(s, gap, lineheight);
    var x2, y2 := s.left + s.width + gap, s.top + lineheight;
    PlotAllConcat(buf, mode, box, RowsDots(s, s.height));
    BoxPainted(buf, mode, s.left, s.top - 1, x2, y2, XorBit(s.colour, 1), 1, true, x, y);
    WantedWhenFilled(s.left, s.top - 1, x2, y2, x, y);
    RowsEffect(PlotAll(buf, mode, box), mode, s, s.height, x, y);
  }

  lemma WantedWhenFilled(x1: int, y1: int, x2: int, y2: int, x: int, y: int)
    ensures WantedInBox(x1, y1, x2, y2, 1, true, x, y) <==> InRect(x1, y1, x2, y2, x, y)
  {
  }

  /** What testG15FontWidth counts for the first n characters. */
  function Measured(font: Font, str: seq<Char>, n: nat): nat
    requires font.Valid() && n <= |str|
    reads font, font.glyph
  {
    if n == 0 then 0
    else
      var g := font.glyph[str[n - 1]];
      Measured(font, str, n - 1) + g.width + g.gap + font.defaultGap
  }

  method TestG15FontWidth(font: Font?, str: seq<Char>) returns (totalwidth: nat)
    requires font != null ==> font.Valid()
    requires forall c :: c in str ==> 0 < c < 128
    modifies if font == null then {} else {font.glyph}
    ensures font == null ==> totalwidth == 0
    ensures font != null ==> font.Valid() && totalwidth == Measured(font, str, |str|)
    ensures font != null ==> font.glyph[..] == old(font.glyph[..])[SPACE := old(font.glyph[SPACE]).(gap := 0)]
  {
    totalwidth := 0;
    if font == null {
      return;
    }
    font.glyph[SPACE] := font.glyph[SPACE].(gap := 0);
    for i := 0 to |str|
      invariant totalwidth == Measured(font, str, i)
    {
      totalwidth := totalwidth + font.glyph[str[i]].width + font.glyph[str[i]].gap + font.defaultGap;
    }
  }

  /** Pen movement over the first n characters. */
  function Pen(font: Font, str: seq<Char>, n: nat): nat
    requires font.Valid() && n <= |str|
    reads font, font.glyph, font.active
  {
    if n == 0 then 0 else Pen(font, str, n - 1) + Advance(font, str[n - 1])
  }

  ghost function StringDots(font: Font, str: seq<Char>, n: nat, sx: int, sy: int, colour: int, paintBg: bool): seq<Dot>
    requires font.Valid() && n <= |str|
    reads font, font.glyph, font.active
  {
    if n == 0 then []
    else StringDots(font, str, n - 1, sx, sy, colour, paintBg)
         + GlyphDots(font, str[n - 1], sx + Pen(font, str, n - 1), sy, colour, paintBg)
  }

  method RenderString(canvas: Canvas, font: Font?, str: seq<Char>, row: int, x: int, y: int, colour: int, paintBg: int)
    requires canvas.Valid() && (font != null ==> font.Valid())
    requires forall c :: c in str ==> c != 0
    modifies canvas.buffer
    ensures canvas.Bytes() == if font == null then old(canvas.Bytes())
                              else PlotAll(old(canvas.Bytes()), canvas.CurrentMode(),
                                           StringDots(font, str, |str|, x, y + font.lineheight * row,
                                                      colour, paintBg != 0))
  {
    hide Plot, PlotAll, GlyphDots;
    if font == null {
      return;
    }
    ghost var was, mode := canvas.Bytes(), canvas.CurrentMode();
    PlotNone(was, mode);
    var prevwidth, sx, sy := 0, x, y + font.lineheight * row;
    for i := 0 to |str|
      invariant i == 0 ==> prevwidth == 0 && sx == x
      invariant i > 0 ==> sx + prevwidth == x + Pen(font, str, i)
      invariant canvas.Bytes() == PlotAll(was, mode, StringDots(font, str, i, x, sy, colour, paintBg != 0))
    {
      sx := sx + prevwidth;
      PlotAllConcat(was, mode, StringDots(font, str, i, x, sy, colour, paintBg != 0),
                    GlyphDots(font, str[i], sx, sy, colour, paintBg != 0));
      prevwidth := RenderG15Glyph(canvas, font, str[i], sx, sy, colour, paintBg);
    }
  }

  /** Where g15r_G15FPrint starts a line of measured width xc: given, centred or right-justified. */
  function StartColumn(center: int, x: int, xc: nat): int {
    if center == 1 then 80 - xc / 2 else if center == 2 then 160 - xc else x
  }

  /** g15r_G15FPrint once the default font of that size is at hand. */
  method G15FPrint(canvas: Canvas, font: Font?, str: seq<Char>, px: int, py: int,
                   size: int, center: int, colour: int, row: int)
    returns (ghost start: int)
    requires canvas.Valid() && (font != null ==> font.Valid())
    requires forall c :: c in str ==> 0 < c && (center == 1 || center == 2 ==> c < 128)
    modifies canvas.buffer, if font == null then {} else {font.glyph}
    ensures font == null || center !in {0, 1, 2} ==> canvas.Bytes() == old(canvas.Bytes())
    ensures font != null ==> font.Valid()
    ensures font != null && center in {0, 1, 2} ==>
      canvas.Bytes() == PlotAll(old(canvas.Bytes()), canvas.CurrentMode(),
        StringDots(font, str, |str|, start, py - (if size < 3 then 1 else 0) + font.lineheight * row, colour, size < 3))
    ensures center == 0 ==> start == px - if size < 3 then 1 else 0
    ensures font != null && center == 1 ==> 0 <= start - (WIDTH - (start + Measured(font, str, |str|))) <= 1
    ensures font != null && center == 2 ==> start + Measured(font, str, |str|) == WIDTH
    ensures font != null && (center == 1 || center == 2) ==>
              start == StartColumn(center, px, Measured(font, str, |str|)) && font.glyph[SPACE].gap == 0
  {
    hide PlotAll, StringDots;
    start := px - if size < 3 then 1 else 0;
    if font == null {
      return;
    }
    var x, y, paintBg := px, py, 0;
    if size < 3 {
      paintBg := 1;
      x := x - 1;
      y := y - 1;
    }
    if center == 0 {
      RenderString(canvas, font, str, row, x, y, colour, paintBg);
    } else if center == 1 {
      var xc: int := TestG15FontWidth(font, str);
      start := 80 - xc / 2;
      RenderString(canvas, font, str, row, 80 - xc / 2, y, colour, paintBg);
    } else if center == 2 {
      var xc: int := TestG15FontWidth(font, str);
      start := 160 - xc;
      RenderString(canvas, font, str, row, 160 - xc, y, colour, paintBg);
    }
  }

  /** What the measured width counts beyond the pen movement. */
  function Slack(font: Font, str: seq<Char>, n: nat): nat
    requires font.Valid() && n <= |str|
    reads font, font.glyph, font.active
  {
    if n == 0 then 0
    else
      var c := str[n - 1];
      Slack(font, str, n - 1) + font.glyph[c].gap
      + (if c == SPACE || !font.Draws(c) then font.defaultGap else 0)
      + (if font.Draws(c) then 0 else font.glyph[c].width)
  }

  lemma {:induction false} MeasuredIsPenPlusSlack(font: Font, str: seq<Char>, n: nat)
    requires font.Valid() && n <= |str|
    ensures Measured(font, str, n) == Pen(font, str, n) + Slack(font, str, n)
  {
    if n > 0 {
      MeasuredIsPenPlusSlack(font, str, n - 1);
    }
  }

  /** Which pixels the cells of a row hit. */
  lemma {:induction false} RowHit(s: Stamp, r: nat, n: nat, x: int, y: int)
    requires WellFormed(s) && r < s.height
    ensures Hit(RowDots(s, r, n), x, y) <==> y == s.top + r && x - s.left - 1 < n && GlyphInk(s, x, y).Some?
  {
    hide Hit, Inked, XorBit;
    if n == 0 {
      HitNone(x, y);
    } else {
      RowHit(s, r, n - 1, x, y);
      HitConcat(RowDots(s, r, n - 1), CellDots(s, n - 1, r), x, y);
      CellHit(s, n - 1, r, x, y);
    }
  }

  lemma CellHit(s: Stamp, c: nat, r: nat, x: int, y: int)
    requires WellFormed(s) && r < s.height
    ensures Hit(CellDots(s, c, r), x, y) <==> y == s.top + r && x == s.left + 1 + c && GlyphInk(s, x, y).Some?
  {
    hide Inked, XorBit;
    var dots := CellDots(s, c, r);
    if |dots| == 1 {
      assert dots[0].x == s.left + 1 + c && dots[0].y == s.top + r;
    }
  }

  lemma {:induction false} RowsHit(s: Stamp, n: nat, x: int, y: int)
    requires WellFormed(s) && n <= s.height
    ensures Hit(RowsDots(s, n), x, y) <==> y - s.top < n && GlyphInk(s, x, y).Some?
  {
    hide Hit, RowDots, Inked, XorBit;
    if n == 0 {
      HitNone(x, y);
    } else {
      var wide := 8 * Stride(s.width);
      RowsHit(s, n - 1, x, y);
      HitConcat(RowsDots(s, n - 1), RowDots(s, n - 1, wide), x, y);
      RowHit(s, n - 1, wide, x, y);
    }
  }

  /** How the i-th character of a line of text is drawn. */
  ghost function StringStamp(font: Font, str: seq<Char>, i: nat, sx: int, sy: int, colour: int, paintBg: bool):
    (s: Stamp)
    requires font.Valid() && i < |str| && font.Draws(str[i])
    reads font, font.glyph, font.active
    ensures WellFormed(s) && s.height == font.fontHeight
  {
    StampOf(font.glyph[str[i]], font.fontHeight, sx + Pen(font, str, i),
            sy - (font.fontHeight - font.ascenderHeight - 1),
            colour, paintBg)
  }

  /** The i-th character is drawn and its glyph's cell has a dot at (x, y). */
  ghost predicate CharHits(font: Font, str: seq<Char>, i: nat, sx: int, sy: int, colour: int, paintBg: bool,
                           x: int, y: int)
    requires font.Valid() && i < |str|
    reads font, font.glyph, font.active
  {
    font.Draws(str[i]) && GlyphInk(StringStamp(font, str, i, sx, sy, colour, paintBg), x, y).Some?
  }

  /** The i-th character is drawn and (x, y) lies in its background box. */
  ghost predicate BoxHits(font: Font, str: seq<Char>, i: nat, sx: int, sy: int, x: int, y: int)
    requires font.Valid() && i < |str|
    reads font, font.glyph, font.active
  {
    var top := sy - (font.fontHeight - font.ascenderHeight - 1);
    var left := sx + Pen(font, str, i);
    && font.Draws(str[i])
    && InRect(left, top - 1, left + font.glyph[str[i]].width + font.defaultGap, top + font.lineheight, x, y)
  }

  lemma GlyphHit(font: Font, str: seq<Char>, i: nat, sx: int, sy: int, colour: int, paintBg: bool, x: int, y: int)
    requires font.Valid() && i < |str|
    ensures Hit(GlyphDots(font, str[i], sx + Pen(font, str, i), sy, colour, paintBg), x, y)
       <==> CharHits(font, str, i, sx, sy, colour, paintBg, x, y) || (paintBg && BoxHits(font, str, i, sx, sy, x, y))
  {
    hide Hit, BoxDots, RowsDots, Inked, XorBit, Pen;
    HitNone(x, y);
    if font.Draws(str[i]) {
      var s := StringStamp(font, str, i, sx, sy, colour, paintBg);
      RowsHit(s, s.height, x, y);
      HitConcat(BackgroundDots(s, font.defaultGap, font.lineheight), RowsDots(s, s.height), x, y);
      var x2, y2 := s.left + s.width + font.defaultGap, s.top + font.lineheight;
      BoxExact(s.left, s.top - 1, x2, y2, XorBit(colour, 1), 1, true);
      WantedWhenFilled(s.left, s.top - 1, x2, y2, x, y);
    }
  }

  /** The pixels a line of text touches: those of its glyphs' cells and, where the background is
      painted, of their boxes. */
  lemma {:induction false} StringHit(font: Font, str: seq<Char>, n: nat, sx: int, sy: int, colour: int, paintBg: bool,
                                     x: int, y: int)
    requires font.Valid() && n <= |str|
    ensures Hit(StringDots(font, str, n, sx, sy, colour, paintBg), x, y)
       <==> exists i :: 0 <= i < n && (CharHits(font, str, i, sx, sy, colour, paintBg, x, y)
                                       || (paintBg && BoxHits(font, str, i, sx, sy, x, y)))
  {
    hide Hit, GlyphDots, CharHits, BoxHits, Pen;
    if n == 0 {
      HitNone(x, y);
    } else {
      StringHit(font, str, n - 1, sx, sy, colour, paintBg, x, y);
      GlyphHit(font, str, n - 1, sx, sy, colour, paintBg, x, y);
      HitConcat(StringDots(font, str, n - 1, sx, sy, colour, paintBg),
                GlyphDots(font, str[n - 1], sx + Pen(font, str, n - 1), sy, colour, paintBg), x, y);
    }
  }

  /** Bit c of row r in rows of whole bytes, the most significant bit first. */
  predicate BitSet(bits: seq<bv8>, width: nat, c: nat, r: nat) {
    var i := r * ((width + 7) / 8) + c / 8;
    i < |bits| && bits[i] & (0x80 >> (c % 8)) != 0
  }

  /** Row r, column c of a character's glyph is inked: the character is active, and its bit is set. */
  ghost predicate InkedCell(font: Font, ch: Char, c: int, r: int)
    requires font.Valid()
    reads font, font.glyph, font.active
  {
    var g := font.glyph[ch];
    && font.active[ch] && g.buffer.Some? && 0 <= c < g.width && 0 <= r < font.fontHeight
    && BitSet(g.buffer.value, g.width, c, r)
  }

  /** A line of text without background, from the bits of its glyphs: column c, row r of the i-th
      character comes to the pen position plus 1 + c, and r below the top that goes with the base. */
  lemma TextExact(font: Font, str: seq<Char>, sx: int, sy: int, colour: int, x: int, y: int)
    requires font.Valid()
    ensures Hit(StringDots(font, str, |str|, sx, sy, colour, false), x, y)
       <==> exists i :: 0 <= i < |str|
              && InkedCell(font, str[i], x - (sx + Pen(font, str, i) + 1),
                           y - (sy - (font.fontHeight - font.ascenderHeight - 1)))
  {
    hide StringDots, Hit, CharHits, InkedCell, Pen;
    StringHit(font, str, |str|, sx, sy, colour, false, x, y);
    forall i | 0 <= i < |str|
      ensures CharHits(font, str, i, sx, sy, colour, false, x, y)
         <==> InkedCell(font, str[i], x - (sx + Pen(font, str, i) + 1),
                        y - (sy - (font.fontHeight - font.ascenderHeight - 1)))
    {
      CharCell(font, str, i, sx, sy, colour, x, y);
    }
  }

  lemma CharCell(font: Font, str: seq<Char>, i: nat, sx: int, sy: int, colour: int, x: int, y: int)
    requires font.Valid() && i < |str|
    ensures CharHits(font, str, i, sx, sy, colour, false, x, y)
       <==> InkedCell(font, str[i], x - (sx + Pen(font, str, i) + 1),
                      y - (sy - (font.fontHeight - font.ascenderHeight - 1)))
  {
    hide Pen, GlyphInk, BitSet;
    if font.Draws(str[i]) {
      BitInk(StringStamp(font, str, i, sx, sy, colour, false), x, y);
    }
  }

  lemma BitInk(s: Stamp, x: int, y: int)
    requires WellFormed(s) && !s.paintBg
    ensures var c, r := x - s.left - 1, y - s.top;
            GlyphInk(s, x, y).Some? <==> 0 <= c < s.width && 0 <= r < s.height && BitSet(s.bits, s.width, c, r)
  {
    hide Bit;
    var c, r := x - s.left - 1, y - s.top;
    if 0 <= c < s.width && 0 <= r < s.height {
      RowByte(s, c, r);
      MaskBit(s.bits[r * Stride(s.width) + c / 8], c % 8);
    }
  }

  /** How the pen moves: by the glyph's width and the default gap, without the gap for a space, and
      not at all for a character that is not drawn. */
  lemma PenMoves(font: Font, str: seq<Char>, n: nat)
    requires font.Valid() && n < |str|
    ensures Pen(font, str, 0) == 0
    ensures var g := font.glyph[str[n]];
            Pen(font, str, n + 1)
            == Pen(font, str, n) + if g.buffer.None? || !font.active[str[n]] then 0
                                   else if str[n] == 32 then g.width else g.width + font.defaultGap
  {
  }

  /** Every dot of a line without background has the colour asked for. */
  lemma {:induction false} TextColour(font: Font, str: seq<Char>, n: nat, sx: int, sy: int, colour: int)
    requires font.Valid() && n <= |str|
    ensures Uniform(StringDots(font, str, n, sx, sy, colour, false), colour)
  {
    hide GlyphDots, Uniform, Pen;
    if n == 0 {
      NoColour(colour);
    } else {
      TextColour(font, str, n - 1, sx, sy, colour);
      GlyphColour(font, str[n - 1], sx + Pen(font, str, n - 1), sy, colour);
      UniformConcat(StringDots(font, str, n - 1, sx, sy, colour, false),
                    GlyphDots(font, str[n - 1], sx + Pen(font, str, n - 1), sy, colour, false), colour);
    }
  }

  lemma NoColour(colour: int)
    ensures Uniform([], colour)
  {
  }

  lemma GlyphColour(font: Font, c: Char, left: int, y: int, colour: int)
    requires font.Valid()
    ensures Uniform(GlyphDots(font, c, left, y, colour, false), colour)
  {
    hide RowsDots;
    if font.Draws(c) {
      var top := y - (font.fontHeight - font.ascenderHeight - 1);
      var s := StampOf(font.glyph[c], font.fontHeight, left, top, colour, false);
      RowsColour(s, s.height);
      PlainStamp(s, font.defaultGap, font.lineheight);
    }
  }

  lemma PlainStamp(s: Stamp, gap: nat, lineheight: nat)
    requires WellFormed(s) && !s.paintBg
    ensures StampDots(s, gap, lineheight) == RowsDots(s, s.height)
  {
    hide RowsDots;
    assert [] + RowsDots(s, s.height) == RowsDots(s, s.height);
  }

  lemma {:induction false} RowsColour(s: Stamp, n: nat)
    requires WellFormed(s) && n <= s.height && !s.paintBg
    ensures Uniform(RowsDots(s, n), s.colour)
  {
    hide RowDots, Uniform;
    if n == 0 {
      NoColour(s.colour);
    } else {
      RowsColour(s, n - 1);
      RowColour(s, n - 1, 8 * Stride(s.width));
      UniformConcat(RowsDots(s, n - 1), RowDots(s, n - 1, 8 * Stride(s.width)), s.colour);
    }
  }

  lemma {:induction false} RowColour(s: Stamp, r: nat, n: nat)
    requires WellFormed(s) && r < s.height && !s.paintBg
    ensures Uniform(RowDots(s, r, n), s.colour)
  {
    hide Inked;
    if n > 0 {
      RowColour(s, r, n - 1);
    }
  }

  lemma {:induction false} MeasuredMonotone(font: Font, str: seq<Char>, m: nat, n: nat)
    requires font.Valid() && m <= n <= |str|
    ensures Measured(font, str, m) <= Measured(font, str, n)
  {
    if m < n {
      MeasuredMonotone(font, str, m, n - 1);
    }
  }

  /** A glyph ends left of the measured end of the text by at least its own gap and the default
      one. */
  lemma CharEnds(font: Font, str: seq<Char>, i: nat)
    requires font.Valid() && i < |str|
    ensures Pen(font, str, i) + font.glyph[str[i]].width + font.glyph[str[i]].gap + font.defaultGap
       <= Measured(font, str, |str|)
  {
    MeasuredIsPenPlusSlack(font, str, i);
    MeasuredMonotone(font, str, i + 1, |str|);
  }

  /** Text g15r_G15FPrint centres or justifies to the right, measured to fit the screen. Measuring
      has cleared the gap of the space. */
  predicate MeasuredToFit(font: Font, str: seq<Char>, center: int)
    requires font.Valid()
    reads font, font.glyph
  {
    && font.glyph[SPACE].gap == 0 && (center == 1 || center == 2)
    && (forall c :: c in str ==> 0 < c < 128) && Measured(font, str, |str|) <= WIDTH
  }

  /** Where the measured text starts and ends. */
  lemma JustifiedSpan(font: Font, str: seq<Char>, center: int)
    requires font.Valid() && MeasuredToFit(font, str, center)
    ensures var m := Measured(font, str, |str|);
            0 <= StartColumn(center, 0, m) && StartColumn(center, 0, m) + m <= WIDTH
  {
  }

  /** Every dot of every glyph is on a column of the screen. */
  ghost predicate InkFits(font: Font, str: seq<Char>, center: int, sy: int, colour: int, paintBg: bool)
    requires font.Valid()
    reads font, font.glyph, font.active
  {
    var sx := StartColumn(center, 0, Measured(font, str, |str|));
    forall i, x, y :: 0 <= i < |str| && CharHits(font, str, i, sx, sy, colour, paintBg, x, y) ==> 0 <= x < WIDTH
  }

  ghost predicate AllInkFits(font: Font, paintBg: bool)
    requires font.Valid()
    reads font, font.glyph, font.active
  {
    forall str, center, sy, colour :: MeasuredToFit(font, str, center) ==>
      InkFits(font, str, center, sy, colour, paintBg)
  }

  /** A printable glyph with no gap of its own that has a dot in its last column and is no wider
      than the screen. */
  ghost predicate ReachesEdge(font: Font, c: Char, paintBg: bool)
    requires font.Valid()
    reads font, font.glyph, font.active
  {
    && 0 < c < 128 && font.Draws(c) && font.glyph[c].gap == 0 && 1 <= font.glyph[c].width <= WIDTH
    && exists r :: 0 <= r < font.fontHeight && InkedLast(font, c, r, paintBg)
  }

  /** Row r of the glyph makes a dot in its last column. */
  ghost predicate InkedLast(font: Font, c: Char, r: nat, paintBg: bool)
    requires font.Valid() && font.Draws(c) && r < font.fontHeight && font.glyph[c].width > 0
    reads font, font.glyph, font.active
  {
    paintBg || Inked(StampOf(font.glyph[c], font.fontHeight, 0, 0, 1, paintBg), font.glyph[c].width - 1, r)
  }

  /** Once measuring has cleared the gap of the space, centred or right-justified text that is
      measured to fit keeps all its ink on the screen, at every size, exactly for fonts with a
      default gap, or else without a glyph that reaches its own edge. */
  lemma JustifiedFitsExactly(font: Font, paintBg: bool)
    requires font.Valid() && font.glyph[SPACE].gap == 0
    ensures AllInkFits(font, paintBg) <==> font.defaultGap >= 1 || forall c: Char :: !ReachesEdge(font, c, paintBg)
  {
    hide ReachesEdge, InkFits, CharHits, StartColumn, Measured;
    if font.defaultGap >= 1 || forall c: Char :: !ReachesEdge(font, c, paintBg) {
      forall str, center, sy, colour | MeasuredToFit(font, str, center)
        ensures InkFits(font, str, center, sy, colour, paintBg)
      {
        JustifiedFits(font, str, center, sy, colour, paintBg);
      }
    } else {
      var c: Char :| ReachesEdge(font, c, paintBg);
      RunsOff(font, c, 0, 1, paintBg);
    }
  }

  lemma JustifiedFits(font: Font, str: seq<Char>, center: int, sy: int, colour: int, paintBg: bool)
    requires font.Valid() && MeasuredToFit(font, str, center)
    requires font.defaultGap >= 1 || forall c: Char :: !ReachesEdge(font, c, paintBg)
    ensures InkFits(font, str, center, sy, colour, paintBg)
  {
    hide StartColumn, Measured, Pen, Inked, XorBit;
    var sx := StartColumn(center, 0, Measured(font, str, |str|));
    JustifiedSpan(font, str, center);
    forall i, x, y | 0 <= i < |str| && CharHits(font, str, i, sx, sy, colour, paintBg, x, y) ensures 0 <= x < WIDTH {
      CharEnds(font, str, i);
      assert str[i] in str;
      if x == WIDTH {
        LastColumn(font, str, i, sx, sy, colour, paintBg, y);
      }
    }
  }

  lemma LastColumn(font: Font, str: seq<Char>, i: nat, sx: int, sy: int, colour: int, paintBg: bool, y: int)
    requires font.Valid() && i < |str| && 0 < str[i] < 128
    requires 0 <= sx
    requires sx + Pen(font, str, i) + font.glyph[str[i]].width + font.glyph[str[i]].gap + font.defaultGap <= WIDTH
    requires CharHits(font, str, i, sx, sy, colour, paintBg, WIDTH, y)
    ensures font.defaultGap == 0 && ReachesEdge(font, str[i], paintBg)
  {
    hide Pen, Bit, XorBit;
    var s := StringStamp(font, str, i, sx, sy, colour, paintBg);
    assert InkedLast(font, str[i], y - s.top, paintBg);
  }

  /** The single character c, justified to the right without a default gap: its last column is
      column 160. */
  lemma RunsOff(font: Font, c: Char, sy: int, colour: int, paintBg: bool)
    requires font.Valid() && font.defaultGap == 0 && font.glyph[SPACE].gap == 0 && ReachesEdge(font, c, paintBg)
    ensures MeasuredToFit(font, [c], 2) && !InkFits(font, [c], 2, sy, colour, paintBg)
  {
    hide CharHits, InkedLast;
    var r :| 0 <= r < font.fontHeight && InkedLast(font, c, r, paintBg);
    assert Measured(font, [c], 0) == 0 && Measured(font, [c], 1) == font.glyph[c].width;
    var sx := StartColumn(2, 0, Measured(font, [c], 1));
    EdgeHit(font, c, r, sx, sy, colour, paintBg);
    assert sx + font.glyph[c].width == WIDTH;
  }

  lemma EdgeHit(font: Font, c: Char, r: nat, sx: int, sy: int, colour: int, paintBg: bool)
    requires font.Valid() && font.Draws(c) && r < font.fontHeight && font.glyph[c].width > 0
    requires InkedLast(font, c, r, paintBg)
    ensures CharHits(font, [c], 0, sx, sy, colour, paintBg, sx + font.glyph[c].width,
                     sy - (font.fontHeight - font.ascenderHeight - 1) + r)
  {
    hide Bit, XorBit;
    var s := StringStamp(font, [c], 0, sx, sy, colour, paintBg);
    assert Pen(font, [c], 0) == 0;
    assert s.left == sx;
    SameInk(StampOf(font.glyph[c], font.fontHeight, 0, 0, 1, paintBg), s, s.width - 1, r);
  }

  /** Where and in which colour a glyph is drawn does not change its bits. */
  lemma SameInk(s: Stamp, t: Stamp, c: nat, r: nat)
    requires WellFormed(s) && WellFormed(t) && s.bits == t.bits && s.width == t.width && s.height == t.height
    requires c < s.width && r < s.height
    ensures Inked(s, c, r) == Inked(t, c, r)
  {
    hide Bit;
  }

  /** A font with one glyph, a bar a pixel wide, for which the default gap alone decides. */
  method BarFont(gap: nat) returns (font: Font)
    ensures fresh(font) && font.Valid() && font.defaultGap == gap
    ensures AllInkFits(font, false) <==> gap >= 1
  {
    hide AllInkFits;
    font := new Font();
    font.fontHeight, font.ascenderHeight, font.lineheight, font.numchars, font.defaultGap := 1, 1, 1, 1, gap;
    font.glyph[124] := Glyph(Some([0x80]), 1, 0);
    font.active[124] := true;
    var s := StampOf(font.glyph[124], 1, 0, 0, 1, false);
    MaskBit(0x80, 0);
    assert Inked(s, 0, 0);
    assert InkedLast(font, 124, 0, false);
    assert ReachesEdge(font, 124, false);
    JustifiedFitsExactly(font, false);
  }

  /** Painted backgrounds of such text may reach one column further, which setPixel clips: no dot
      lies outside columns 0 to 160. */
  lemma BackgroundSpan(font: Font, str: seq<Char>, center: int, sy: int, colour: int, paintBg: bool, x: int, y: int)
    requires font.Valid() && MeasuredToFit(font, str, center)
    requires Hit(StringDots(font, str, |str|, StartColumn(center, 0, Measured(font, str, |str|)),
                     sy, colour, paintBg), x, y)
    ensures 0 <= x <= WIDTH
  {
    hide StartColumn, Measured, Pen, StringDots, Hit, Inked, XorBit;
    var sx := StartColumn(center, 0, Measured(font, str, |str|));
    JustifiedSpan(font, str, center);
    StringHit(font, str, |str|, sx, sy, colour, paintBg, x, y);
    var i :| 0 <= i < |str| && (CharHits(font, str, i, sx, sy, colour, paintBg, x, y)
                                || (paintBg && BoxHits(font, str, i, sx, sy, x, y)));
    CharEnds(font, str, i);
  }

  lemma {:induction false} NoSlack(font: Font, str: seq<Char>, n: nat)
    requires font.Valid() && n <= |str|
    requires forall c :: c in str ==> font.Draws(c) && c != SPACE && font.glyph[c].gap == 0
    ensures Slack(font, str, n) == 0
  {
    if n > 0 {
      NoSlack(font, str, n - 1);
    }
  }

  /** Right-justified text without spaces, missing glyphs or glyph gaps: the last glyph's cell ends
      in column 160 minus the default gap, and its painted background in column 160, whatever the
      gap. */
  lemma RightEdge(font: Font, str: seq<Char>, sy: int, colour: int, y: int)
    requires font.Valid() && |str| > 0
    requires forall c :: c in str ==> font.Draws(c) && c != SPACE && font.glyph[c].gap == 0
    ensures var n := |str| - 1;
            var start := StartColumn(2, 0, Measured(font, str, |str|));
            var top := sy - (font.fontHeight - font.ascenderHeight - 1);
            && start + Pen(font, str, n) + font.glyph[str[n]].width == WIDTH - font.defaultGap
            && (Hit(StringDots(font, str, |str|, start, sy, colour, true), WIDTH, y)
                <== top - 1 <= y <= top + font.lineheight)
  {
    hide Hit, StringDots, CharHits;
    MeasuredIsPenPlusSlack(font, str, |str|);
    NoSlack(font, str, |str|);
    var start := StartColumn(2, 0, Measured(font, str, |str|));
    StringHit(font, str, |str|, start, sy, colour, true, WIDTH, y);
    var top := sy - (font.fontHeight - font.ascenderHeight - 1);
    if top - 1 <= y <= top + font.lineheight {
      assert BoxHits(font, str, |str| - 1, start, sy, WIDTH, y);
    }
  }
}
