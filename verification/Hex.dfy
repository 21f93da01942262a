/** The two hexadecimal printers, the loader's and the kernel's, against one definition of
    the digits and a parser that inverts it. */
module Hex {
  import opened Machine

  // ---------------------------------------------------------- specification

  /** Digits of a 64-bit number. */
  const WIDTH: nat := 16

  function HexDigit(d: nat): U8
    requires d < 16
  {
    if d < 10 then 0x30 + d else 0x41 + (d - 10)
  }

  lemma DigitChar(d: nat)
    requires d < 16
    ensures HexDigit(d) == Bytes("0123456789ABCDEF")[d]
  {
  }

  /** The n lowest hexadecimal digits of v, most significant first. */
  function HexDigits(v: nat, n: nat): (s: seq<U8>)
    ensures |s| == n
  {
    if n == 0 then [] else HexDigits(v / 16, n - 1) + [HexDigit(v % 16)]
  }

  function DigitValue(c: U8): nat {
    if 0x30 <= c <= 0x39 then c - 0x30 else if 0x41 <= c <= 0x46 then c - 0x41 + 10 else 0
  }

  function Parse(s: seq<U8>): nat {
    if s == [] then 0 else 16 * Parse(s[..|s| - 1]) + DigitValue(s[|s| - 1])
  }

  function Pow16(n: nat): (p: nat)
    ensures p > 0
  {
    if n == 0 then 1 else 16 * Pow16(n - 1)
  }

  /** Parsing n digits gives the value modulo 16^n. */
  lemma {:induction false} ParseDigits(v: nat, n: nat)
    ensures Parse(HexDigits(v, n)) == v % Pow16(n)
  {
    if n == 0 {
    } else {
      ParseDigits(v / 16, n - 1);
      assert HexDigits(v, n)[..n - 1] == HexDigits(v / 16, n - 1);
      ModScale(v, 16, Pow16(n - 1));
      ValueOfDigit(v % 16);
    }
  }

  lemma ValueOfDigit(d: nat)
    requires d < 16
    ensures DigitValue(HexDigit(d)) == d
  {
  }

  /** Dropping leading digits leaves the digits of the same value. */
  lemma {:induction false} DigitsSuffix(v: nat, n: nat, k: nat)
    requires k <= n
    ensures HexDigits(v, n)[k..] == HexDigits(v, n - k)
  {
    if k == n {
    } else {
      DigitsSuffix(v / 16, n - 1, k);
      assert HexDigits(v, n)[k..] == HexDigits(v / 16, n - 1)[k..] + [HexDigit(v % 16)];
    }
  }

  /** The digit at position i is the nibble the shift brings down. */
  lemma {:induction false} DigitAt(v: nat, n: nat, i: nat)
    requires i < n
    ensures HexDigits(v, n)[i] == HexDigit(Shr(v, 4 * (n - 1 - i)) % 16)
  {
    if i == n - 1 {
    } else {
      var m := 4 * (n - 2 - i);
      DigitAt(v / 16, n - 1, i);
      ShrNibble(v, m);
    }
  }

  lemma ShrNibble(v: nat, m: nat)
    ensures Shr(v, m + 4) == Shr(v / 16, m)
  {
    assert Shr(v, m + 4) == Shr(v / 2, m + 3) == Shr(v / 2 / 2, m + 2);
    assert Shr(v / 2 / 2, m + 2) == Shr(v / 2 / 2 / 2, m + 1) == Shr(v / 2 / 2 / 2 / 2, m);
  }

  lemma Pow16Value()
    ensures Pow16(WIDTH) == 0x1_0000_0000_0000_0000
  {
    assert Pow16(8) == 0x1_0000_0000;
  }

  /** All sixteen digits determine the value; from an offset on, its low part. */
  lemma HexRoundTrip(v: U64, offset: nat)
    requires offset <= WIDTH
    ensures Parse(HexDigits(v, WIDTH)) == v
    ensures Parse(HexDigits(v, WIDTH)[offset..]) == v % Pow16(WIDTH - offset)
  {
    Pow16Value();
    ParseDigits(v, WIDTH);
    ParseSuffix(v, WIDTH, offset);
  }

  lemma ParseSuffix(v: nat, n: nat, k: nat)
    requires k <= n
    ensures Parse(HexDigits(v, n)[k..]) == v % Pow16(n - k)
  {
    DigitsSuffix(v, n, k);
    ParseDigits(v, n - k);
  }

  // -------------------------------------------------------------- printers

  /** video_convert_hex, into its static buffer. */
  method VideoConvertHex(val: U64, buf: array<U8>)
    requires buf.Length == 17
    modifies buf
    ensures buf[..] == HexDigits(val, WIDTH) + [0]
  {
    var i: U8 := 0;
    while i < 16
      invariant 0 <= i <= 16
      invariant buf[..i] == HexDigits(val, WIDTH)[..i]
    {
      LowNibble(Shr(val, 4 * (15 - i)));
      DigitAt(val, WIDTH, i);
      var temp: U8 := BitAnd(Shr(val, 4 * (15 - i)), 0x0F);
      if temp < 0x0A {
        buf[i] := temp + 0x30;
      } else {
        buf[i] := temp - 10 + 0x41;
      }
      i := i + 1;
    }
    buf[16] := 0;
  }

  /** The kernel's hex, which tests the other way round and writes behind "0x". */
  method DebugHex(num: U64, buf: array<U8>)
    requires buf.Length == 19
    modifies buf
    ensures buf[..] == [0x30, 0x78] + HexDigits(num, WIDTH) + [0]
  {
    buf[0] := 0x30;
    buf[1] := 0x78;
    buf[18] := 0;
    var i := 0;
    while i < 16
      invariant 0 <= i <= 16
      invariant buf[0] == 0x30 && buf[1] == 0x78 && buf[18] == 0
      invariant buf[2..2 + i] == HexDigits(num, WIDTH)[..i]
    {
      LowNibble(Shr(num, 4 * (15 - i)));
      DigitAt(num, WIDTH, i);
      var tmp: U8 := BitAnd(Shr(num, 4 * (15 - i)), 0x0F);
      if tmp > 9 {
        buf[i + 2] := tmp - 10 + 0x41;
      } else {
        buf[i + 2] := tmp + 0x30;
      }
      i := i + 1;
    }
    assert buf[..] == buf[..2] + buf[2..18] + buf[18..];
  }

  lemma LowNibble(x: nat)
    ensures BitAnd(x, 0x0F) == x % 16
  {
    Pow2Values();
    BitAndLow(x, 4);
  }
}
