/** dumpPixmapIntoLCDFormat: from the row-major canvas to the keyboard's column bytes, compared
    with the direct column-form setPixel of the older driver. */
module Transpose {
  import opened Bits
  import opened Screen

  const LCD_OFFSET := 32
  const LCD_LEN := 992
  const HEIGHT_IN_BYTES := 6
  const DUMPED := HEIGHT_IN_BYTES * WIDTH

  /** The bit-th pixel from the left of d, moved from bit 7 down by shift. */
  function Term(d: bv8, bit: nat, shift: nat): bv8
    requires bit < 8 && shift < 8
  {
    ((d << bit) & 0x80) >> shift
  }

  /** One output byte: the bit-th pixel from the left of eight bytes above each other. */
  function Gather(d0: bv8, d1: bv8, d2: bv8, d3: bv8, d4: bv8, d5: bv8, d6: bv8, d7: bv8, bit: nat): bv8
    requires bit < 8
  {
    Term(d0, bit, 7) | Term(d1, bit, 6) | Term(d2, bit, 5) | Term(d3, bit, 4)
    | Term(d4, bit, 3) | Term(d5, bit, 2) | Term(d6, bit, 1) | Term(d7, bit, 0)
  }

  lemma TermIs(d: bv8, bit: nat)
    requires bit < 8
    ensures Term(d, bit, 7) == if Bit(d, 7 - bit) then 1 else 0
    ensures Term(d, bit, 6) == if Bit(d, 7 - bit) then 2 else 0
    ensures Term(d, bit, 5) == if Bit(d, 7 - bit) then 4 else 0
    ensures Term(d, bit, 4) == if Bit(d, 7 - bit) then 8 else 0
    ensures Term(d, bit, 3) == if Bit(d, 7 - bit) then 16 else 0
    ensures Term(d, bit, 2) == if Bit(d, 7 - bit) then 32 else 0
    ensures Term(d, bit, 1) == if Bit(d, 7 - bit) then 64 else 0
    ensures Term(d, bit, 0) == if Bit(d, 7 - bit) then 128 else 0
  {
  }

  lemma GatherIs(d: seq<bv8>, bit: nat)
    requires |d| == 8 && bit < 8
    ensures Gather(d[0], d[1], d[2], d[3], d[4], d[5], d[6], d[7], bit)
         == FromBits(Bit(d[0], 7 - bit), Bit(d[1], 7 - bit), Bit(d[2], 7 - bit), Bit(d[3], 7 - bit),
                     Bit(d[4], 7 - bit), Bit(d[5], 7 - bit), Bit(d[6], 7 - bit), Bit(d[7], 7 - bit))
  {
    hide Bit, Term;
    TermIs(d[0], bit);
    TermIs(d[1], bit);
    TermIs(d[2], bit);
    TermIs(d[3], bit);
    TermIs(d[4], bit);
    TermIs(d[5], bit);
    TermIs(d[6], bit);
    TermIs(d[7], bit);
  }

  lemma GatherAt(d: seq<bv8>, bit: nat, k: nat)
    requires |d| == 8 && bit < 8 && k < 8
    ensures Bit(Gather(d[0], d[1], d[2], d[3], d[4], d[5], d[6], d[7], bit), k) == Bit(d[k], 7 - bit)
  {
    hide Bit, Gather, FromBits;
    GatherIs(d, bit);
    var b := seq(8, j requires 0 <= j < 8 => Bit(d[j], 7 - bit));
    FromBitsAt(b, k);
  }

  /** The column byte for column bit of eight rows starting at byte base. */
  function ColumnByte(data: seq<bv8>, base: nat, bit: nat): bv8
    requires base + 140 < |data| && bit < 8
  {
    Gather(data[base], data[base + 20], data[base + 40], data[base + 60],
           data[base + 80], data[base + 100], data[base + 120], data[base + 140], bit)
  }

  /** The 960 display bytes: byte 160*row + col covers the pixels of column col in rows
      8*row to 8*row + 7. */
  function Dumped(data: seq<bv8>): (d: seq<bv8>)
    requires |data| >= DUMPED
    ensures |d| == DUMPED
  {
    seq(DUMPED, k requires 0 <= k < DUMPED => ColumnByte(data, k / WIDTH * WIDTH + k % WIDTH / 8, k % WIDTH % 8))
  }

  method DumpPixmapIntoLCDFormat(lcdBuffer: array<bv8>, data: seq<bv8>)
    requires lcdBuffer.Length >= LCD_LEN && |data| >= DUMPED
    modifies lcdBuffer
    ensures lcdBuffer[LCD_OFFSET..LCD_LEN] == Dumped(data)
    ensures lcdBuffer[..LCD_OFFSET] == old(lcdBuffer[..LCD_OFFSET])
    ensures lcdBuffer[LCD_LEN..] == old(lcdBuffer[LCD_LEN..])
  {
    hide Gather;
    var outputOffset, baseOffset := LCD_OFFSET, 0;
    ghost var dumped := Dumped(data);
    for currRow := 0 to HEIGHT_IN_BYTES
      invariant outputOffset == LCD_OFFSET + WIDTH * currRow && baseOffset == WIDTH * currRow
      invariant forall k :: 0 <= k < WIDTH * currRow ==> lcdBuffer[LCD_OFFSET + k] == dumped[k]
      invariant forall i :: 0 <= i < LCD_OFFSET || LCD_LEN <= i < lcdBuffer.Length ==> lcdBuffer[i] == old(lcdBuffer[i])
    {
      for currCol := 0 to WIDTH
        invariant outputOffset == LCD_OFFSET + WIDTH * currRow + currCol
        invariant baseOffset == WIDTH * currRow + currCol / 8
        invariant forall k :: 0 <= k < WIDTH * currRow + currCol ==> lcdBuffer[LCD_OFFSET + k] == dumped[k]
        invariant forall i :: 0 <= i < LCD_OFFSET || LCD_LEN <= i < lcdBuffer.Length ==>
                         lcdBuffer[i] == old(lcdBuffer[i])
      {
        var bit := currCol % 8;
        ghost var k := WIDTH * currRow + currCol;
        assert k / WIDTH == currRow && k % WIDTH == currCol;
        lcdBuffer[outputOffset] :=
          Gather(data[baseOffset], data[baseOffset + WIDTH / 8], data[baseOffset + WIDTH / 8 * 2],
                 data[baseOffset + WIDTH / 8 * 3], data[baseOffset + WIDTH / 8 * 4], data[baseOffset + WIDTH / 8 * 5],
                 data[baseOffset + WIDTH / 8 * 6], data[baseOffset + WIDTH / 8 * 7], bit);
        assert lcdBuffer[outputOffset] == dumped[k];
        outputOffset := outputOffset + 1;
        if bit == 7 {
          baseOffset := baseOffset + 1;
        }
      }
      baseOffset := baseOffset + (WIDTH - WIDTH / 8);
    }
  }

  /** Position of pixel (x, y) among the display bytes. */
  function ColumnIndex(x: nat, y: nat): (i: nat)
    requires x < WIDTH && y < 8 * HEIGHT_IN_BYTES
    ensures i < DUMPED
  {
    WIDTH * (y / 8) + x
  }

  /** Position of the byte holding pixel (x, y) in the row-major canvas, all 48 rows of it. */
  function RowIndex(x: nat, y: nat): (i: nat)
    requires x < WIDTH && y < 8 * HEIGHT_IN_BYTES
    ensures i < DUMPED
  {
    20 * y + x / 8
  }

  /** Bit y mod 8 of column byte (x, y div 8) is pixel (x, y) of the source. */
  lemma DumpedPixel(data: seq<bv8>, x: nat, y: nat)
    requires |data| >= DUMPED && x < WIDTH && y < 8 * HEIGHT_IN_BYTES
    ensures Bit(Dumped(data)[ColumnIndex(x, y)], y % 8) == Bit(data[RowIndex(x, y)], 7 - x % 8)
  {
    hide Bit, ColumnByte, Dumped;
    var base := WIDTH * (y / 8) + x / 8;
    ColumnByteAt(data, x, y);
    ColumnByteBit(data, base, x % 8, y % 8);
    assert base + 20 * (y % 8) == RowIndex(x, y);
  }

  lemma ColumnByteBit(data: seq<bv8>, base: nat, bit: nat, k: nat)
    requires base + 140 < |data| && bit < 8 && k < 8
    ensures Bit(ColumnByte(data, base, bit), k) == Bit(data[base + 20 * k], 7 - bit)
  {
    hide Bit, Gather;
    GatherAt([data[base], data[base + 20], data[base + 40], data[base + 60],
              data[base + 80], data[base + 100], data[base + 120], data[base + 140]], bit, k);
  }

  lemma ColumnByteAt(data: seq<bv8>, x: nat, y: nat)
    requires |data| >= DUMPED && x < WIDTH && y < 8 * HEIGHT_IN_BYTES
    ensures Dumped(data)[ColumnIndex(x, y)] == ColumnByte(data, WIDTH * (y / 8) + x / 8, x % 8)
  {
    hide ColumnByte;
    var i := ColumnIndex(x, y);
    assert i / WIDTH == y / 8 && i % WIDTH == x;
  }

  /** setPixel of Attic/g15lcd: the direct form on the display bytes. */
  function ColumnSet(lcd: seq<bv8>, x: int, y: int, val: int): (r: seq<bv8>)
    requires |lcd| >= DUMPED
    ensures |r| == |lcd|
  {
    if OnScreen(x, y) then
      var i := ColumnIndex(x, y);
      lcd[i := SetBit(lcd[i], y % 8, val != 0)]
    else lcd
  }

  method ColumnSetPixel(buffer: array<bv8>, x: int, y: int, val: int)
    requires buffer.Length >= LCD_LEN
    modifies buffer
    ensures buffer[LCD_OFFSET..LCD_LEN] == ColumnSet(old(buffer[LCD_OFFSET..LCD_LEN]), x, y, val)
    ensures buffer[..LCD_OFFSET] == old(buffer[..LCD_OFFSET]) && buffer[LCD_LEN..] == old(buffer[LCD_LEN..])
  {
    hide SetBit;
    if x < 0 || x >= WIDTH || y < 0 || y >= HEIGHT {
      return;
    }
    var row := y / 8;
    var offset := WIDTH * row + x;
    var bit := y % 8;
    buffer[LCD_OFFSET + offset] := SetBit(buffer[LCD_OFFSET + offset], bit, val != 0);
  }

  /** Display bytes are determined by their pixels. */
  lemma SameColumns(a: seq<bv8>, b: seq<bv8>)
    requires |a| == |b| == DUMPED
    requires forall x: nat, y: nat :: x < WIDTH && y < 8 * HEIGHT_IN_BYTES ==>
               Bit(a[ColumnIndex(x, y)], y % 8) == Bit(b[ColumnIndex(x, y)], y % 8)
    ensures a == b
  {
    hide Bit;
    forall i | 0 <= i < DUMPED ensures a[i] == b[i] {
      forall k | 0 <= k < 8 ensures Bit(a[i], k) == Bit(b[i], k) {
        var x, y := i % WIDTH, 8 * (i / WIDTH) + k;
        assert ColumnIndex(x, y) == i && y % 8 == k;
      }
      SameBits(a[i], b[i]);
    }
  }

  lemma SameRows(a: seq<bv8>, b: seq<bv8>)
    requires |a| >= DUMPED && |b| >= DUMPED
    requires forall x: nat, y: nat :: x < WIDTH && y < 8 * HEIGHT_IN_BYTES ==>
               Bit(a[RowIndex(x, y)], 7 - x % 8) == Bit(b[RowIndex(x, y)], 7 - x % 8)
    ensures a[..DUMPED] == b[..DUMPED]
  {
    hide Bit;
    forall i | 0 <= i < DUMPED ensures a[i] == b[i] {
      forall k | 0 <= k < 8 ensures Bit(a[i], k) == Bit(b[i], k) {
        var x, y := 8 * (i % 20) + (7 - k), i / 20;
        assert RowIndex(x, y) == i && 7 - x % 8 == k;
      }
      SameBits(a[i], b[i]);
    }
  }

  /** Setting a pixel on the canvas and converting is the same as converting and setting the
      pixel directly in the display bytes. */
  lemma DumpCommutesWithSetPixel(canvas: Buffer, px: int, py: int, val: int)
    ensures Dumped(Plot(canvas, Mode(false, false), Dot(px, py, val)))
         == ColumnSet(Dumped(canvas), px, py, val)
  {
    hide Bit, SetBit, Dumped;
    var plain := Mode(false, false);
    var after := Plot(canvas, plain, Dot(px, py, val));
    var direct := ColumnSet(Dumped(canvas), px, py, val);
    forall x: nat, y: nat | x < WIDTH && y < 8 * HEIGHT_IN_BYTES
      ensures Bit(Dumped(after)[ColumnIndex(x, y)], y % 8) == Bit(direct[ColumnIndex(x, y)], y % 8)
    {
      DumpedPixel(after, x, y);
      DumpedPixel(canvas, x, y);
      PlottedBit(canvas, px, py, val, x, y);
      if OnScreen(px, py) {
        SetBitAt(Dumped(canvas)[ColumnIndex(px, py)], py % 8, val != 0, y % 8);
        SameColumn(px, py, x, y);
      }
    }
    SameColumns(Dumped(after), direct);
  }

  /** A whole drawing made directly in the display bytes. */
  function ColumnSetAll(lcd: seq<bv8>, dots: seq<Dot>): (r: seq<bv8>)
    requires |lcd| >= DUMPED
    ensures |r| == |lcd|
  {
    if |dots| == 0 then lcd
    else
      var n := |dots| - 1;
      ColumnSet(ColumnSetAll(lcd, dots[..n]), dots[n].x, dots[n].y, dots[n].val)
  }

  /** Any drawing in plain mode, line, box, circle or text, comes out on the keyboard as if it
      had been made there dot by dot. */
  lemma {:induction false} DumpCommutesWithDrawing(canvas: Buffer, dots: seq<Dot>)
    ensures Dumped(PlotAll(canvas, Mode(false, false), dots)) == ColumnSetAll(Dumped(canvas), dots)
  {
    hide Dumped, Plot, ColumnSet;
    if |dots| > 0 {
      var n := |dots| - 1;
      DumpCommutesWithDrawing(canvas, dots[..n]);
      DumpCommutesWithSetPixel(PlotAll(canvas, Mode(false, false), dots[..n]), dots[n].x, dots[n].y, dots[n].val);
    }
  }

  lemma SameColumn(x: nat, y: nat, u: nat, v: nat)
    requires x < WIDTH && y < 8 * HEIGHT_IN_BYTES && u < WIDTH && v < 8 * HEIGHT_IN_BYTES
    ensures ColumnIndex(x, y) == ColumnIndex(u, v) && y % 8 == v % 8 <==> x == u && y == v
  {
  }

  lemma PlottedBit(canvas: Buffer, px: int, py: int, val: int, x: nat, y: nat)
    requires x < WIDTH && y < 8 * HEIGHT_IN_BYTES
    ensures Bit(Plot(canvas, Mode(false, false), Dot(px, py, val))[RowIndex(x, y)], 7 - x % 8)
         == if OnScreen(px, py) && px == x && py == y then val != 0 else Bit(canvas[RowIndex(x, y)], 7 - x % 8)
  {
    hide Bit, SetBit, Plot;
    var p := y * WIDTH + x;
    assert p / 8 == RowIndex(x, y) && p % 8 == x % 8;
    PlotAt(canvas, Mode(false, false), Dot(px, py, val), p);
  }

  /** Bit k of row byte i, read back from the display bytes. */
  predicate RowBit(lcd: seq<bv8>, i: nat, k: nat)
    requires |lcd| == DUMPED && i < DUMPED && k < 8
  {
    Bit(lcd[ColumnIndex(8 * (i % 20) + (7 - k), i / 20)], i / 20 % 8)
  }

  /** The way back from display bytes to the row-major form. */
  function Undumped(lcd: seq<bv8>): (data: seq<bv8>)
    requires |lcd| == DUMPED
    ensures |data| == DUMPED
  {
    seq(DUMPED, i requires 0 <= i < DUMPED =>
      FromBits(RowBit(lcd, i, 0), RowBit(lcd, i, 1), RowBit(lcd, i, 2), RowBit(lcd, i, 3),
               RowBit(lcd, i, 4), RowBit(lcd, i, 5), RowBit(lcd, i, 6), RowBit(lcd, i, 7)))
  }

  lemma RowIndexBack(x: nat, y: nat)
    requires x < WIDTH && y < 8 * HEIGHT_IN_BYTES
    ensures RowIndex(x, y) / 20 == y && 8 * (RowIndex(x, y) % 20) + x % 8 == x
  {
  }

  lemma UndumpedPixel(lcd: seq<bv8>, x: nat, y: nat)
    requires |lcd| == DUMPED && x < WIDTH && y < 8 * HEIGHT_IN_BYTES
    ensures Bit(Undumped(lcd)[RowIndex(x, y)], 7 - x % 8) == Bit(lcd[ColumnIndex(x, y)], y % 8)
  {
    hide Bit, FromBits;
    var i, k := RowIndex(x, y), 7 - x % 8;
    var b := seq(8, j requires 0 <= j < 8 => RowBit(lcd, i, j));
    assert Undumped(lcd)[i] == FromBits(b[0], b[1], b[2], b[3], b[4], b[5], b[6], b[7]);
    FromBitsAt(b, k);
    RowIndexBack(x, y);
  }

  /** The conversion loses nothing of its 960 input bytes and reaches every display. */
  lemma DumpInvertible(data: seq<bv8>, lcd: seq<bv8>)
    requires |data| >= DUMPED && |lcd| == DUMPED
    ensures Undumped(Dumped(data)) == data[..DUMPED]
    ensures Dumped(Undumped(lcd)) == lcd
  {
    hide Bit, Dumped, Undumped;
    var there := Dumped(data);
    forall x: nat, y: nat | x < WIDTH && y < 8 * HEIGHT_IN_BYTES
      ensures Bit(Undumped(there)[RowIndex(x, y)], 7 - x % 8) == Bit(data[RowIndex(x, y)], 7 - x % 8)
    {
      DumpedPixel(data, x, y);
      UndumpedPixel(there, x, y);
    }
    SameRows(Undumped(there), data);
    var back := Undumped(lcd);
    forall x: nat, y: nat | x < WIDTH && y < 8 * HEIGHT_IN_BYTES
      ensures Bit(Dumped(back)[ColumnIndex(x, y)], y % 8) == Bit(lcd[ColumnIndex(x, y)], y % 8)
    {
      DumpedPixel(back, x, y);
      UndumpedPixel(lcd, x, y);
    }
    SameColumns(Dumped(back), lcd);
  }

  /** The same with every number written out: byte 160 * (y div 8) + x of the display bytes, which
      stand behind 32 others, has pixel (x, y) in bit y mod 8, and byte 20 * y + x div 8 of the canvas
      has it in bit 7 - x mod 8. */
  lemma DisplayLayout(data: seq<bv8>, x: nat, y: nat)
    requires |data| >= 960 && x < 160 && y < 48
    ensures LCD_OFFSET == 32 && LCD_LEN == 32 + 960 && |Dumped(data)| == 960
    ensures Bit(Dumped(data)[160 * (y / 8) + x], y % 8) <==> Bit(data[20 * y + x / 8], 7 - x % 8)
  {
    hide Bit, Dumped;
    DumpedPixel(data, x, y);
  }

  /** The direct form changes that one bit of that one byte. */
  lemma ColumnLayout(lcd: seq<bv8>, px: int, py: int, val: int, x: nat, y: nat)
    requires |lcd| >= 960 && x < 160 && y < 48
    ensures Bit(ColumnSet(lcd, px, py, val)[160 * (y / 8) + x], y % 8)
         == if 0 <= px < 160 && 0 <= py < 43 && px == x && py == y then val != 0
            else Bit(lcd[160 * (y / 8) + x], y % 8)
  {
    hide Bit, SetBit;
    if OnScreen(px, py) {
      SetBitAt(lcd[ColumnIndex(px, py)], py % 8, val != 0, y % 8);
      SameColumn(px, py, x, y);
    }
  }
}
