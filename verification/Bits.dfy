/** Single bits of a byte, written with the same shifts and masks as the C code. */
module Bits {

  /** Bit k of b, where bit 0 is the least significant one. */
  predicate Bit(b: bv8, k: nat)
    requires k < 8
  {
    (b & (1 << k)) >> k == 1
  }

  function SetBit(b: bv8, k: nat, on: bool): bv8
    requires k < 8
  {
    if on then b | (1 << k) else b & !(1 << k)
  }

  lemma OrBit(b: bv8, k: nat, j: nat)
    requires k < 8 && j < 8
    ensures Bit(b | (1 << k), j) == (j == k || Bit(b, j))
  {
  }

  lemma AndNotBit(b: bv8, k: nat, j: nat)
    requires k < 8 && j < 8
    ensures Bit(b & !(1 << k), j) == (j != k && Bit(b, j))
  {
  }

  lemma SetBitAt(b: bv8, k: nat, on: bool, j: nat)
    requires k < 8 && j < 8
    ensures Bit(SetBit(b, k, on), j) == if j == k then on else Bit(b, j)
  {
    hide Bit;
    OrBit(b, k, j);
    AndNotBit(b, k, j);
  }

  /** A byte is determined by its eight bits. */
  lemma SameBits(a: bv8, b: bv8)
    requires forall k :: 0 <= k < 8 ==> Bit(a, k) == Bit(b, k)
    ensures a == b
  {
    assert Bit(a, 0) == Bit(b, 0);
    assert Bit(a, 1) == Bit(b, 1);
    assert Bit(a, 2) == Bit(b, 2);
    assert Bit(a, 3) == Bit(b, 3);
    assert Bit(a, 4) == Bit(b, 4);
    assert Bit(a, 5) == Bit(b, 5);
    assert Bit(a, 6) == Bit(b, 6);
    assert Bit(a, 7) == Bit(b, 7);
  }

  /** The mask 0x80 >> i picks the i-th bit from the top. */
  lemma MaskBit(b: bv8, i: nat)
    requires i < 8
    ensures b & (0x80 >> i) != 0 <==> Bit(b, 7 - i)
  {
    assert i == 0 || i == 1 || i == 2 || i == 3 || i == 4 || i == 5 || i == 6 || i == 7;
  }

  /** Bytes from bits, least significant first. */
  function FromBits(b0: bool, b1: bool, b2: bool, b3: bool, b4: bool, b5: bool, b6: bool, b7: bool): bv8 {
    (if b0 then 1 else 0) | (if b1 then 2 else 0) | (if b2 then 4 else 0) | (if b3 then 8 else 0)
    | (if b4 then 16 else 0) | (if b5 then 32 else 0) | (if b6 then 64 else 0) | (if b7 then 128 else 0)
  }

  lemma FromBitsAt(b: seq<bool>, k: nat)
    requires |b| == 8 && k < 8
    ensures Bit(FromBits(b[0], b[1], b[2], b[3], b[4], b[5], b[6], b[7]), k) == b[k]
  {
    assert k == 0 || k == 1 || k == 2 || k == 3 || k == 4 || k == 5 || k == 6 || k == 7;
  }

  /** The low byte of an unsigned integer, from its repeated halves. */
  function ToByte(n: nat): bv8 {
    var n1 := n / 2;
    var n2 := n1 / 2;
    var n3 := n2 / 2;
    var n4 := n3 / 2;
    var n5 := n4 / 2;
    var n6 := n5 / 2;
    var n7 := n6 / 2;
    FromBits(n % 2 == 1, n1 % 2 == 1, n2 % 2 == 1, n3 % 2 == 1, n4 % 2 == 1, n5 % 2 == 1, n6 % 2 == 1, n7 % 2 == 1)
  }

  /** What bit k is worth. */
  function Worth(b: bv8, k: nat, power: nat): nat
    requires k < 8
  {
    if Bit(b, k) then power else 0
  }

  function FromByte(b: bv8): nat {
    Worth(b, 0, 1) + Worth(b, 1, 2) + Worth(b, 2, 4) + Worth(b, 3, 8)
    + Worth(b, 4, 16) + Worth(b, 5, 32) + Worth(b, 6, 64) + Worth(b, 7, 128)
  }

  function Digit(on: bool, power: nat): nat {
    if on then power else 0
  }

  lemma FromByteOfBits(b: seq<bool>)
    requires |b| == 8
    ensures FromByte(FromBits(b[0], b[1], b[2], b[3], b[4], b[5], b[6], b[7]))
         == Digit(b[0], 1) + Digit(b[1], 2) + Digit(b[2], 4) + Digit(b[3], 8)
            + Digit(b[4], 16) + Digit(b[5], 32) + Digit(b[6], 64) + Digit(b[7], 128)
  {
    hide Bit, FromBits;
    FromBitsAt(b, 0);
    FromBitsAt(b, 1);
    FromBitsAt(b, 2);
    FromBitsAt(b, 3);
    FromBitsAt(b, 4);
    FromBitsAt(b, 5);
    FromBitsAt(b, 6);
    FromBitsAt(b, 7);
  }

  /** The four lowest binary digits of a number, and the rest. */
  lemma LowDigits(n: nat)
    ensures n == 16 * (n / 2 / 2 / 2 / 2) + Digit(n % 2 == 1, 1) + Digit(n / 2 % 2 == 1, 2)
                 + Digit(n / 2 / 2 % 2 == 1, 4) + Digit(n / 2 / 2 / 2 % 2 == 1, 8)
  {
  }

  lemma ToByteBits(n: nat)
    ensures var m := n / 2 / 2 / 2 / 2;
            ToByte(n) == FromBits(n % 2 == 1, n / 2 % 2 == 1, n / 2 / 2 % 2 == 1, n / 2 / 2 / 2 % 2 == 1,
                                  m % 2 == 1, m / 2 % 2 == 1, m / 2 / 2 % 2 == 1, m / 2 / 2 / 2 % 2 == 1)
  {
    hide FromBits;
  }

  lemma Remainder(n: nat, q: nat, r: nat)
    requires n == 256 * q + r && r < 256
    ensures n % 256 == r
  {
  }

  lemma ByteRoundTrip(n: nat)
    ensures FromByte(ToByte(n)) == n % 256
  {
    hide FromBits, FromByte, ToByte, Digit;
    var m := n / 2 / 2 / 2 / 2;
    LowDigits(n);
    LowDigits(m);
    HighDigits(m);
    ToByteBits(n);
    FromByteOfBits([n % 2 == 1, n / 2 % 2 == 1, n / 2 / 2 % 2 == 1, n / 2 / 2 / 2 % 2 == 1,
                    m % 2 == 1, m / 2 % 2 == 1, m / 2 / 2 % 2 == 1, m / 2 / 2 / 2 % 2 == 1]);
    ByteRange(ToByte(n));
    Remainder(n, m / 2 / 2 / 2 / 2, FromByte(ToByte(n)));
  }

  lemma HighDigits(m: nat)
    ensures 16 * (Digit(m % 2 == 1, 1) + Digit(m / 2 % 2 == 1, 2) + Digit(m / 2 / 2 % 2 == 1, 4)
                  + Digit(m / 2 / 2 / 2 % 2 == 1, 8))
         == Digit(m % 2 == 1, 16) + Digit(m / 2 % 2 == 1, 32) + Digit(m / 2 / 2 % 2 == 1, 64)
            + Digit(m / 2 / 2 / 2 % 2 == 1, 128)
  {
  }

  lemma ByteRange(b: bv8)
    ensures FromByte(b) < 256
  {
    hide Bit;
  }
}
