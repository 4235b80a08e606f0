/** The 160x43 one-bit canvas of liblogitechrender and the meaning of drawing on it.

    Every drawing operation is specified by the sequence of dots it hands to setPixel.
    What a sequence of dots does to the canvas, in each drawing mode, is settled here once. */
module Screen {
  import opened Bits

  const WIDTH := 160
  const HEIGHT := 43
  const BUFFER_LEN := 1048

  type Buffer = s: seq<bv8> | |s| == BUFFER_LEN witness seq(BUFFER_LEN, _ => 0)

  datatype Mode = Mode(xor: bool, reverse: bool)

  /** One call of setPixel. */
  datatype Dot = Dot(x: int, y: int, val: int)

  predicate OnScreen(x: int, y: int) {
    0 <= x < WIDTH && 0 <= y < HEIGHT
  }

  function Offset(x: int, y: int): nat
    requires OnScreen(x, y)
  {
    y * WIDTH + x
  }

  /** Pixels are stored row by row, most significant bit first. */
  predicate PixelAt(buf: Buffer, p: nat)
    requires p < 8 * BUFFER_LEN
  {
    Bit(buf[p / 8], 7 - p % 8)
  }

  predicate Pixel(buf: Buffer, x: int, y: int) {
    OnScreen(x, y) && PixelAt(buf, Offset(x, y))
  }

  /** val ^ bit on two's complement integers. */
  function XorBit(val: int, bit: int): int
    requires bit == 0 || bit == 1
  {
    if bit == 0 then val else if val % 2 == 0 then val + 1 else val - 1
  }

  /** The state setPixel leaves in a pixel that was old. */
  predicate Ink(mode: Mode, val: int, old_: bool) {
    var v := if mode.xor then XorBit(val, if old_ then 1 else 0) else val;
    (v != 0) != mode.reverse
  }

  lemma InkByHand(mode: Mode, value: int, was: bool, val: int)
    requires var v := if mode.xor then XorBit(value, if was then 1 else 0) else value;
             val == if mode.reverse then (if v != 0 then 0 else 1) else v
    ensures Ink(mode, value, was) == (val != 0)
  {
    hide XorBit;
  }

  function Plot(buf: Buffer, mode: Mode, d: Dot): Buffer {
    if OnScreen(d.x, d.y) then
      var p := Offset(d.x, d.y);
      buf[p / 8 := SetBit(buf[p / 8], 7 - p % 8, Ink(mode, d.val, PixelAt(buf, p)))]
    else
      buf
  }

  lemma PlotOffScreen(buf: Buffer, mode: Mode, d: Dot)
    requires !OnScreen(d.x, d.y)
    ensures Plot(buf, mode, d) == buf
  {
  }

  lemma PlotOnScreen(buf: Buffer, mode: Mode, d: Dot, on: bool)
    requires OnScreen(d.x, d.y) && on == Ink(mode, d.val, PixelAt(buf, Offset(d.x, d.y)))
    ensures var p := Offset(d.x, d.y);
            Plot(buf, mode, d) == buf[p / 8 := SetBit(buf[p / 8], 7 - p % 8, on)]
  {
  }

  function PlotAll(buf: Buffer, mode: Mode, dots: seq<Dot>): Buffer {
    if |dots| == 0 then buf
    else Plot(PlotAll(buf, mode, dots[..|dots| - 1]), mode, dots[|dots| - 1])
  }

  predicate Covers(d: Dot, p: nat) {
    OnScreen(d.x, d.y) && Offset(d.x, d.y) == p
  }

  ghost predicate Hit(dots: seq<Dot>, x: int, y: int) {
    exists i :: 0 <= i < |dots| && dots[i].x == x && dots[i].y == y
  }

  ghost predicate Uniform(dots: seq<Dot>, color: int) {
    forall i :: 0 <= i < |dots| ==> dots[i].val == color
  }

  /** The unsigned comparison of the C code rejects exactly the points outside the screen,
      negative coordinates included. */
  lemma UnsignedClip(x: int, y: int)
    requires -0x8000_0000 <= x < 0x8000_0000 && -0x8000_0000 <= y < 0x8000_0000
    ensures !(x % 0x1_0000_0000 >= WIDTH || y % 0x1_0000_0000 >= HEIGHT) <==> OnScreen(x, y)
  {
    assert x < 0 ==> x % 0x1_0000_0000 == x + 0x1_0000_0000;
    assert y < 0 ==> y % 0x1_0000_0000 == y + 0x1_0000_0000;
  }

  /** A dot changes its own pixel, if that is on the screen, and no other bit of the buffer. */
  lemma PlotAt(buf: Buffer, mode: Mode, d: Dot, p: nat)
    requires p < 8 * BUFFER_LEN
    ensures PixelAt(Plot(buf, mode, d), p)
         == if Covers(d, p) then Ink(mode, d.val, PixelAt(buf, p)) else PixelAt(buf, p)
  {
    if OnScreen(d.x, d.y) {
      var q := Offset(d.x, d.y);
      SetBitAt(buf[q / 8], 7 - q % 8, Ink(mode, d.val, PixelAt(buf, q)), 7 - p % 8);
    }
  }

  /** Where a pixel is stored: twenty bytes to a row, eight pixels to a byte, the leftmost in the
      highest bit. */
  lemma PixelByte(buf: Buffer, x: int, y: int)
    requires OnScreen(x, y)
    ensures 20 * y + x / 8 < BUFFER_LEN && (Pixel(buf, x, y) <==> buf[20 * y + x / 8] & (0x80 >> (x % 8)) != 0)
  {
    hide Bit;
    assert Offset(x, y) / 8 == 20 * y + x / 8 && Offset(x, y) % 8 == x % 8;
    MaskBit(buf[20 * y + x / 8], x % 8);
  }

  /** One dot in each drawing mode: plain paints, reverse paints the opposite, and in xor mode colour
      1 toggles and colour 0 does not, the other way round in reverse. */
  lemma DotInMode(buf: Buffer, mode: Mode, d: Dot, x: int, y: int)
    requires OnScreen(x, y)
    ensures var was, now := Pixel(buf, x, y), Pixel(Plot(buf, mode, d), x, y);
            if d.x != x || d.y != y then now == was
            else if !mode.xor then now == ((d.val != 0) != mode.reverse)
            else if d.val == 0 || d.val == 1 then now == (was != ((d.val == 1) != mode.reverse))
            else now == !mode.reverse
  {
    hide Plot, PixelAt;
    PlotAt(buf, mode, d, Offset(x, y));
  }

  /** Buffers with the same bits are the same. */
  lemma SamePixels(a: Buffer, b: Buffer)
    requires forall p :: 0 <= p < 8 * BUFFER_LEN ==> PixelAt(a, p) == PixelAt(b, p)
    ensures a == b
  {
    forall i | 0 <= i < BUFFER_LEN ensures a[i] == b[i] {
      forall k | 0 <= k < 8 ensures Bit(a[i], k) == Bit(b[i], k) {
        var p := 8 * i + (7 - k);
        assert p / 8 == i && 7 - p % 8 == k;
        assert PixelAt(a, p) == PixelAt(b, p);
      }
      SameBits(a[i], b[i]);
    }
  }

  lemma PlotNone(buf: Buffer, mode: Mode)
    ensures PlotAll(buf, mode, []) == buf
  {
  }

  lemma PlotNext(buf: Buffer, mode: Mode, dots: seq<Dot>, k: nat)
    requires k < |dots|
    ensures PlotAll(buf, mode, dots[..k + 1]) == Plot(PlotAll(buf, mode, dots[..k]), mode, dots[k])
  {
    assert dots[..k + 1][..k] == dots[..k];
  }

  lemma {:induction false} PlotAllConcat(buf: Buffer, mode: Mode, a: seq<Dot>, b: seq<Dot>)
    ensures PlotAll(buf, mode, a + b) == PlotAll(PlotAll(buf, mode, a), mode, b)
  {
    if |b| == 0 {
      assert a + b == a;
    } else {
      var m := |b| - 1;
      PlotAllConcat(buf, mode, a, b[..m]);
      assert (a + b)[..|a + b| - 1] == a + b[..m];
    }
  }

  lemma UniformConcat(a: seq<Dot>, b: seq<Dot>, color: int)
    ensures Uniform(a + b, color) <==> Uniform(a, color) && Uniform(b, color)
  {
    if Uniform(a + b, color) {
      assert forall i :: 0 <= i < |a| ==> a[i] == (a + b)[i];
      assert forall i :: 0 <= i < |b| ==> b[i] == (a + b)[|a| + i];
    }
  }

  lemma HitNone(x: int, y: int)
    ensures !Hit([], x, y)
  {
  }

  lemma HitConcat(a: seq<Dot>, b: seq<Dot>, x: int, y: int)
    ensures Hit(a + b, x, y) <==> Hit(a, x, y) || Hit(b, x, y)
  {
    if Hit(a, x, y) {
      var i :| 0 <= i < |a| && a[i].x == x && a[i].y == y;
      assert (a + b)[i] == a[i];
    }
    if Hit(b, x, y) {
      var i :| 0 <= i < |b| && b[i].x == x && b[i].y == y;
      assert (a + b)[|a| + i] == b[i];
    }
  }

  /** Outside xor mode, dots of one colour paint the pixels they hit and leave the others alone,
      whatever their order and however often they overlap. */
  lemma {:induction false} PaintAll(buf: Buffer, mode: Mode, dots: seq<Dot>, color: int, x: int, y: int)
    requires !mode.xor && Uniform(dots, color) && OnScreen(x, y)
    ensures Pixel(PlotAll(buf, mode, dots), x, y)
         == if Hit(dots, x, y) then (color != 0) != mode.reverse else Pixel(buf, x, y)
  {
    if |dots| > 0 {
      var n := |dots| - 1;
      PaintAll(buf, mode, dots[..n], color, x, y);
      PlotAt(PlotAll(buf, mode, dots[..n]), mode, dots[n], Offset(x, y));
      HitConcat(dots[..n], [dots[n]], x, y);
      assert dots[..n] + [dots[n]] == dots;
      assert Hit([dots[n]], x, y) <==> [dots[n]][0].x == x && [dots[n]][0].y == y;
    }
  }

  /** A pixel no dot hits stays as it was. */
  lemma {:induction false} Untouched(buf: Buffer, mode: Mode, dots: seq<Dot>, x: int, y: int)
    requires OnScreen(x, y) && !Hit(dots, x, y)
    ensures Pixel(PlotAll(buf, mode, dots), x, y) == Pixel(buf, x, y)
  {
    if |dots| > 0 {
      var n := |dots| - 1;
      HitConcat(dots[..n], [dots[n]], x, y);
      assert dots[..n] + [dots[n]] == dots;
      Untouched(buf, mode, dots[..n], x, y);
      PlotAt(PlotAll(buf, mode, dots[..n]), mode, dots[n], Offset(x, y));
      assert [dots[n]][0].x != x || [dots[n]][0].y != y;
    }
  }

  /** No drawing reaches the bits behind the last pixel. */
  lemma {:induction false} TailUntouched(buf: Buffer, mode: Mode, dots: seq<Dot>, p: nat)
    requires WIDTH * HEIGHT <= p < 8 * BUFFER_LEN
    ensures PixelAt(PlotAll(buf, mode, dots), p) == PixelAt(buf, p)
  {
    if |dots| > 0 {
      var n := |dots| - 1;
      TailUntouched(buf, mode, dots[..n], p);
      PlotAt(PlotAll(buf, mode, dots[..n]), mode, dots[n], p);
    }
  }

  /** A pixel hit by the k-th dot and no other takes that dot's ink, in every mode. */
  lemma {:induction false} SoleDot(buf: Buffer, mode: Mode, dots: seq<Dot>, k: nat)
    requires k < |dots| && OnScreen(dots[k].x, dots[k].y)
    requires forall j :: 0 <= j < |dots| && j != k ==> dots[j].x != dots[k].x || dots[j].y != dots[k].y
    ensures Pixel(PlotAll(buf, mode, dots), dots[k].x, dots[k].y)
         == Ink(mode, dots[k].val, Pixel(buf, dots[k].x, dots[k].y))
  {
    var n := |dots| - 1;
    var d := dots[k];
    PlotAt(PlotAll(buf, mode, dots[..n]), mode, dots[n], Offset(d.x, d.y));
    if k < n {
      SoleDot(buf, mode, dots[..n], k);
    } else {
      Untouched(buf, mode, dots[..n], d.x, d.y);
    }
  }

  /** How often the dots toggle bit p in xor mode; reverse mode exchanges the two colours. */
  function Toggles(mode: Mode, dots: seq<Dot>, p: nat): nat {
    if |dots| == 0 then 0
    else
      var n := |dots| - 1;
      Toggles(mode, dots[..n], p)
      + if Covers(dots[n], p) && (dots[n].val == 1) != mode.reverse then 1 else 0
  }

  ghost predicate TwoColour(dots: seq<Dot>) {
    forall i :: 0 <= i < |dots| ==> dots[i].val == 0 || dots[i].val == 1
  }

  lemma {:induction false} XorParity(buf: Buffer, mode: Mode, dots: seq<Dot>, p: nat)
    requires mode.xor && TwoColour(dots) && p < 8 * BUFFER_LEN
    ensures PixelAt(PlotAll(buf, mode, dots), p) == (PixelAt(buf, p) != (Toggles(mode, dots, p) % 2 == 1))
  {
    if |dots| > 0 {
      var n := |dots| - 1;
      XorParity(buf, mode, dots[..n], p);
      PlotAt(PlotAll(buf, mode, dots[..n]), mode, dots[n], p);
    }
  }

  /** How many of the dots hit a pixel. */
  function Hits(dots: seq<Dot>, x: int, y: int): nat {
    if |dots| == 0 then 0
    else
      var n := |dots| - 1;
      Hits(dots[..n], x, y) + if dots[n].x == x && dots[n].y == y then 1 else 0
  }

  lemma {:induction false} HitsConcat(a: seq<Dot>, b: seq<Dot>, x: int, y: int)
    ensures Hits(a + b, x, y) == Hits(a, x, y) + Hits(b, x, y)
  {
    if |b| == 0 {
      assert a + b == a;
    } else {
      var m := |b| - 1;
      HitsConcat(a, b[..m], x, y);
      assert (a + b)[..|a + b| - 1] == a + b[..m];
    }
  }

  /** No two of the dots are at one place. */
  ghost predicate Apart(dots: seq<Dot>) {
    forall i, j :: 0 <= i < j < |dots| ==> dots[i].x != dots[j].x || dots[i].y != dots[j].y
  }

  lemma {:induction false} HitsOnce(dots: seq<Dot>, x: int, y: int)
    requires Apart(dots)
    ensures Hits(dots, x, y) == if Hit(dots, x, y) then 1 else 0
  {
    if |dots| > 0 {
      var n := |dots| - 1;
      HitsOnce(dots[..n], x, y);
      HitConcat(dots[..n], [dots[n]], x, y);
      assert dots[..n] + [dots[n]] == dots;
      assert Hit([dots[n]], x, y) <==> [dots[n]][0].x == x && [dots[n]][0].y == y;
      if Hit(dots[..n], x, y) {
        var i :| 0 <= i < n && dots[..n][i].x == x && dots[..n][i].y == y;
        assert dots[i] == dots[..n][i];
      }
    }
  }

  /** In xor mode a drawing in one of the two colours toggles the pixels it hits an odd number of
      times - with colour 1, or with colour 0 in reverse; otherwise it changes nothing. */
  lemma {:induction false} XorToggles(buf: Buffer, mode: Mode, dots: seq<Dot>, color: int, x: int, y: int)
    requires mode.xor && Uniform(dots, color) && (color == 0 || color == 1) && OnScreen(x, y)
    ensures Pixel(PlotAll(buf, mode, dots), x, y)
         == (Pixel(buf, x, y) != ((color == 1) != mode.reverse && Hits(dots, x, y) % 2 == 1))
  {
    hide Plot;
    if |dots| > 0 {
      var n := |dots| - 1;
      XorToggles(buf, mode, dots[..n], color, x, y);
      DotInMode(PlotAll(buf, mode, dots[..n]), mode, dots[n], x, y);
    }
  }

  /** In xor mode any drawing in colours 0 and 1 undoes itself: drawing it again restores every
      byte, although its own dots may repeat and overlap. */
  lemma XorTwiceRestores(buf: Buffer, mode: Mode, dots: seq<Dot>)
    requires mode.xor && TwoColour(dots)
    ensures Undone(buf, mode, dots)
  {
    var once := PlotAll(buf, mode, dots);
    var twice := PlotAll(once, mode, dots);
    forall p | 0 <= p < 8 * BUFFER_LEN ensures PixelAt(twice, p) == PixelAt(buf, p) {
      XorParity(buf, mode, dots, p);
      XorParity(once, mode, dots, p);
    }
    SamePixels(twice, buf);
  }

  /** Any other colour does not toggle in xor mode: it paints solid. */
  lemma {:induction false} XorOtherColourPaints(buf: Buffer, mode: Mode, dots: seq<Dot>, color: int, x: int, y: int)
    requires mode.xor && Uniform(dots, color) && color != 0 && color != 1 && OnScreen(x, y)
    ensures Pixel(PlotAll(buf, mode, dots), x, y)
         == if Hit(dots, x, y) then !mode.reverse else Pixel(buf, x, y)
  {
    if |dots| > 0 {
      var n := |dots| - 1;
      XorOtherColourPaints(buf, mode, dots[..n], color, x, y);
      PlotAt(PlotAll(buf, mode, dots[..n]), mode, dots[n], Offset(x, y));
      HitConcat(dots[..n], [dots[n]], x, y);
      assert dots[..n] + [dots[n]] == dots;
      assert Hit([dots[n]], x, y) <==> [dots[n]][0].x == x && [dots[n]][0].y == y;
    }
  }

  /** Drawing the dots twice restores buf. */
  ghost predicate Undone(buf: Buffer, mode: Mode, dots: seq<Dot>) {
    PlotAll(PlotAll(buf, mode, dots), mode, dots) == buf
  }

  /** Exactly when an xor drawing in one colour is undone by repeating it on every canvas:
      the colour is 0 or 1, or no dot is on the screen. */
  lemma XorTwiceExactly(mode: Mode, dots: seq<Dot>, color: int)
    requires mode.xor && Uniform(dots, color)
    ensures (forall buf: Buffer :: Undone(buf, mode, dots))
       <==> color == 0 || color == 1 || forall x, y :: OnScreen(x, y) ==> !Hit(dots, x, y)
  {
    if color == 0 || color == 1 {
      forall buf: Buffer ensures Undone(buf, mode, dots) {
        XorTwiceRestores(buf, mode, dots);
      }
    } else if x, y :| OnScreen(x, y) && Hit(dots, x, y) {
      var blank: Buffer := seq(BUFFER_LEN, _ => if mode.reverse then 0xFF else 0);
      XorOtherColourPaints(PlotAll(blank, mode, dots), mode, dots, color, x, y);
      assert blank[Offset(x, y) / 8] == if mode.reverse then 0xFF else 0;
      assert Pixel(blank, x, y) == mode.reverse;
      assert !Undone(blank, mode, dots);
    } else {
      forall buf: Buffer ensures Undone(buf, mode, dots) {
        OffScreenDots(buf, mode, dots);
      }
    }
  }

  lemma {:induction false} OffScreenDots(buf: Buffer, mode: Mode, dots: seq<Dot>)
    requires forall x, y :: OnScreen(x, y) ==> !Hit(dots, x, y)
    ensures PlotAll(buf, mode, dots) == buf
  {
    if |dots| > 0 {
      var n := |dots| - 1;
      forall x, y | OnScreen(x, y) ensures !Hit(dots[..n], x, y) {
        HitConcat(dots[..n], [dots[n]], x, y);
        assert dots[..n] + [dots[n]] == dots;
      }
      OffScreenDots(buf, mode, dots[..n]);
      assert !OnScreen(dots[n].x, dots[n].y) by {
        assert Hit(dots, dots[n].x, dots[n].y);
      }
    }
  }

  class Canvas {
    const buffer: array<bv8>
    var modeXor: int
    var modeCache: int
    var modeReverse: int

    ghost predicate Valid() {
      buffer.Length == BUFFER_LEN
    }

    ghost function CurrentMode(): Mode
      reads this
    {
      Mode(modeXor != 0, modeReverse != 0)
    }

    ghost function Bytes(): Buffer
      reads buffer
      requires Valid()
    {
      buffer[..]
    }

    constructor ()
      ensures Valid() && fresh(buffer)
    {
      buffer := new bv8[BUFFER_LEN];
    }

    method InitCanvas()
      requires Valid()
      modifies this, buffer
      ensures Bytes() == seq(BUFFER_LEN, _ => 0) && modeCache == 0 && CurrentMode() == Mode(false, false)
    {
      forall i | 0 <= i < BUFFER_LEN {
        buffer[i] := 0;
      }
      modeCache := 0;
      modeReverse := 0;
      modeXor := 0;
      assert Bytes() == seq(BUFFER_LEN, _ => 0);
    }

    method ClearScreen(color: int)
      requires Valid()
      modifies buffer
      ensures Bytes() == seq(BUFFER_LEN, _ => if color != 0 then 0xFF else 0)
      ensures forall x, y :: OnScreen(x, y) ==> Pixel(Bytes(), x, y) == (color != 0)
    {
      forall i | 0 <= i < BUFFER_LEN {
        buffer[i] := if color != 0 then 0xFF else 0;
      }
      assert Bytes() == seq(BUFFER_LEN, _ => if color != 0 then 0xFF else 0);
      forall x, y | OnScreen(x, y) ensures Pixel(Bytes(), x, y) == (color != 0) {
        assert Bytes()[Offset(x, y) / 8] == if color != 0 then 0xFF else 0;
      }
    }

    method GetPixel(x: int, y: int) returns (val: int)
      requires Valid()
      ensures val == if Pixel(Bytes(), x, y) then 1 else 0
    {
      if x < 0 || x >= WIDTH || y < 0 || y >= HEIGHT {
        return 0;
      }
      var pixelOffset := y * WIDTH + x;
      var byteOffset := pixelOffset / 8;
      var bitOffset := 7 - pixelOffset % 8;
      return if (buffer[byteOffset] & (1 << bitOffset)) >> bitOffset == 1 then 1 else 0;
    }

    method SetPixel(x: int, y: int, value: int)
      requires Valid()
      modifies buffer
      ensures Bytes() == Plot(old(Bytes()), CurrentMode(), Dot(x, y, value))
    {
      hide Bit, SetBit, Plot, PixelAt, Ink, XorBit;
      ghost var was := Bytes();
      if x < 0 || x >= WIDTH || y < 0 || y >= HEIGHT {
        PlotOffScreen(was, CurrentMode(), Dot(x, y, value));
        return;
      }
      var pixelOffset := y * WIDTH + x;
      var byteOffset := pixelOffset / 8;
      var bitOffset := 7 - pixelOffset % 8;
      var val := value;
      if modeXor != 0 {
        var here := GetPixel(x, y);
        val := XorBit(val, here);
      }
      if modeReverse != 0 {
        val := if val != 0 then 0 else 1;
      }
      var byte := SetBit(buffer[byteOffset], bitOffset, val != 0);
      InkByHand(CurrentMode(), value, Pixel(was, x, y), val);
      PlotOnScreen(was, CurrentMode(), Dot(x, y, value), val != 0);
      buffer[byteOffset] := byte;
      assert Bytes() == was[byteOffset := byte];
    }
  }
}
