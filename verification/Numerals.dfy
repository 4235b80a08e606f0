/** Decimal numbers as the C library prints and reads them, and its character classes. */
module Numerals {
  predicate IsSpace(c: char) {
    c == ' ' || '\t' <= c <= '\r'
  }

  predicate IsDigit(c: char) {
    '0' <= c <= '9'
  }

  function Digit(d: nat): char
    requires d < 10
  {
    '0' + d as char
  }

  function DigitValue(c: char): nat
    requires IsDigit(c)
  {
    (c - '0') as nat
  }

  /** printf of an unsigned number. */
  function PrintNat(n: nat): (s: string)
    ensures |s| >= 1 && forall i :: 0 <= i < |s| ==> IsDigit(s[i])
  {
    if n < 10 then [Digit(n)] else PrintNat(n / 10) + [Digit(n % 10)]
  }

  /** printf of a signed number. */
  function PrintInt(n: int): string {
    if n < 0 then "-" + PrintNat(-n) else PrintNat(n)
  }

  /** Length of the leading run of characters that are not space. */
  function SkipSpace(s: string): (i: nat)
    ensures i <= |s| && (i < |s| ==> !IsSpace(s[i]))
    ensures forall j :: 0 <= j < i ==> IsSpace(s[j])
  {
    if |s| > 0 && IsSpace(s[0]) then 1 + SkipSpace(s[1..]) else 0
  }

  /** Length of the leading run of digits. */
  function DigitRun(s: string): (i: nat)
    ensures i <= |s| && (i < |s| ==> !IsDigit(s[i]))
    ensures forall j :: 0 <= j < i ==> IsDigit(s[j])
  {
    if |s| > 0 && IsDigit(s[0]) then 1 + DigitRun(s[1..]) else 0
  }

  /** The number a run of digits denotes. */
  function NatOf(s: string): nat
    requires forall i :: 0 <= i < |s| ==> IsDigit(s[i])
  {
    if |s| == 0 then 0 else 10 * NatOf(s[..|s| - 1]) + DigitValue(s[|s| - 1])
  }

  function Unsigned(s: string): nat {
    NatOf(s[..DigitRun(s)])
  }

  /** atoi, on numbers that fit the machine's int. */
  function Atoi(s: string): int {
    var t := s[SkipSpace(s)..];
    if |t| > 0 && t[0] == '-' then 0 - Unsigned(t[1..])
    else if |t| > 0 && t[0] == '+' then Unsigned(t[1..])
    else Unsigned(t)
  }

  lemma {:induction false} NatOfPrinted(n: nat)
    ensures NatOf(PrintNat(n)) == n
  {
    if n >= 10 {
      NatOfPrinted(n / 10);
    }
  }

  lemma {:induction false} WholeRun(s: string, rest: string)
    requires forall i :: 0 <= i < |s| ==> IsDigit(s[i])
    requires |rest| > 0 ==> !IsDigit(rest[0])
    ensures DigitRun(s + rest) == |s|
  {
    if |s| > 0 {
      assert (s + rest)[1..] == s[1..] + rest;
      WholeRun(s[1..], rest);
    }
  }

  lemma UnsignedPrinted(n: nat, rest: string)
    requires |rest| > 0 ==> !IsDigit(rest[0])
    ensures Unsigned(PrintNat(n) + rest) == n
  {
    WholeRun(PrintNat(n), rest);
    NatOfPrinted(n);
    assert (PrintNat(n) + rest)[..|PrintNat(n)|] == PrintNat(n);
  }

  /** What was printed is what is read back. */
  lemma IntRoundTrip(n: int)
    ensures Atoi(PrintInt(n)) == n
  {
    var s := PrintInt(n);
    assert SkipSpace(s) == 0 && s[0..] == s;
    if n < 0 {
      UnsignedPrinted(-n, "");
      assert s[1..] == PrintNat(-n) + "";
    } else {
      UnsignedPrinted(n, "");
      assert s == PrintNat(n) + "";
    }
  }

  /** For instance. */
  lemma Twelve()
    ensures PrintInt(12) == "12" && PrintInt(-12) == "-12" && PrintInt(0) == "0"
  {
    assert PrintNat(12) == PrintNat(1) + [Digit(2)];
  }

  lemma {:induction false} BlanksSkipped(blanks: string, rest: string)
    requires (forall i :: 0 <= i < |blanks| ==> IsSpace(blanks[i])) && (|rest| > 0 ==> !IsSpace(rest[0]))
    ensures SkipSpace(blanks + rest) == |blanks| && (blanks + rest)[|blanks|..] == rest
  {
    if |blanks| > 0 {
      assert (blanks + rest)[1..] == blanks[1..] + rest;
      BlanksSkipped(blanks[1..], rest);
    }
  }

  /** Reading skips blanks, takes a sign, and stops at what is no digit. */
  lemma ReadsNumber(blanks: string, sign: string, n: nat, rest: string)
    requires (forall i :: 0 <= i < |blanks| ==> IsSpace(blanks[i])) && sign in {"", "+", "-"}
    requires |rest| > 0 ==> !IsDigit(rest[0])
    ensures Atoi(blanks + (sign + (PrintNat(n) + rest))) == if sign == "-" then 0 - n else n
  {
    var digits := PrintNat(n) + rest;
    BlanksSkipped(blanks, sign + digits);
    UnsignedPrinted(n, rest);
    if sign == "" {
      assert sign + digits == digits;
    } else {
      assert (sign + digits)[1..] == digits;
    }
  }

  /** Anything else reads as 0. */
  lemma ReadsNoNumber(blanks: string, rest: string)
    requires forall i :: 0 <= i < |blanks| ==> IsSpace(blanks[i])
    requires |rest| > 0 ==> !IsDigit(rest[0]) && !IsSpace(rest[0]) && rest[0] != '-' && rest[0] != '+'
    ensures Atoi(blanks + rest) == 0
  {
    BlanksSkipped(blanks, rest);
    assert DigitRun(rest) == 0 && rest[..0] == "";
  }

  /** Any number is its last digit behind the number without it. */
  lemma DecimalDigits(n: nat)
    ensures var s := PrintNat(n);
            s[|s| - 1] as int == '0' as int + n % 10 && (s[..|s| - 1] == if n < 10 then "" else PrintNat(n / 10))
  {
  }

  /** Blanks as the C library has them: space and the five control characters from tab to return. */
  lemma BlankCharacters(c: char)
    ensures IsSpace(c) <==> c == ' ' || c == '\t' || c == '\n' || c == '\U{000B}' || c == '\U{000C}' || c == '\r'
  {
  }
}
