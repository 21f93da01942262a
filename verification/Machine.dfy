/** Machine integers of fixed width, bitwise operators defined bit by bit, and
    little-endian values in byte memory. */
module Machine {
  type U8 = x: int | 0 <= x < 0x100
  type U16 = x: int | 0 <= x < 0x1_0000
  type U32 = x: int | 0 <= x < 0x1_0000_0000
  type U64 = x: int | 0 <= x < 0x1_0000_0000_0000_0000

  datatype Option<+T> = None | Some(value: T)

  /** The reductions C performs when a result does not fit its unsigned type. */
  function Wrap16(x: int): (r: U16)
    ensures 0 <= x < 0x1_0000 ==> r == x
  {
    x % 0x1_0000
  }

  function Wrap32(x: int): (r: U32)
    ensures 0 <= x < 0x1_0000_0000 ==> r == x
  {
    x % 0x1_0000_0000
  }

  function Wrap64(x: int): (r: U64)
    ensures 0 <= x < 0x1_0000_0000_0000_0000 ==> r == x
  {
    x % 0x1_0000_0000_0000_0000
  }

  lemma WrapSteps(x: nat, c: nat)
    ensures Wrap32(Wrap32(x) + c) == Wrap32(x + c)
    ensures Wrap64(Wrap64(x) + c) == Wrap64(x + c)
  {
    ModAdd(x, c, 0x1_0000_0000);
    ModAdd(x, c, 0x1_0000_0000_0000_0000);
  }

  lemma WrapTwice(x: nat)
    ensures Wrap32(Wrap64(x)) == Wrap32(x)
  {
    var h, l := x / 0x1_0000_0000_0000_0000, x % 0x1_0000_0000_0000_0000;
    ModUnique(x, 0x1_0000_0000, 0x1_0000_0000 * h + l / 0x1_0000_0000, l % 0x1_0000_0000);
  }

  lemma ModAdd(x: nat, c: nat, p: nat)
    requires p > 0
    ensures (x % p + c) % p == (x + c) % p
  {
    var q := x / p;
    var s, t := (x % p + c) / p, (x % p + c) % p;
    assert x + c == p * q + (p * s + t) == p * (q + s) + t;
    ModUnique(x + c, p, q + s, t);
  }

  // ---------------------------------------------------------------- bitwise

  /** `x & y`. */
  function BitAnd(x: nat, y: nat): nat {
    if x == 0 || y == 0 then 0
    else 2 * BitAnd(x / 2, y / 2) + (if x % 2 == 1 && y % 2 == 1 then 1 else 0)
  }

  /** `x ^ y`. */
  function BitXor(x: nat, y: nat): nat
    decreases x + y
  {
    if x == 0 then y
    else if y == 0 then x
    else 2 * BitXor(x / 2, y / 2) + (if x % 2 == y % 2 then 0 else 1)
  }

  /** `x >> n`. */
  function Shr(x: nat, n: nat): nat {
    if n == 0 then x else Shr(x / 2, n - 1)
  }

  function Pow2(k: nat): (p: nat)
    ensures p > 0
  {
    if k == 0 then 1 else 2 * Pow2(k - 1)
  }

  /** The powers the masks are made of. */
  lemma Pow2Values()
    ensures Pow2(4) == 0x10 && Pow2(12) == 0x1000 && Pow2(21) == 0x20_0000
    ensures Pow2(52) == 0x10_0000_0000_0000 && Pow2(64) == 0x1_0000_0000_0000_0000
  {
    assert Pow2(10) == 0x400;
    assert Pow2(20) == 0x10_0000 && Pow2(21) == 0x20_0000;
    assert Pow2(30) == 0x4000_0000;
    assert Pow2(40) == 0x100_0000_0000;
    assert Pow2(50) == 0x4_0000_0000_0000;
    assert Pow2(60) == 0x1000_0000_0000_0000;
  }

  /** Remainder and quotient by a product, digit first. */
  lemma ModScale(x: nat, f: nat, m: nat)
    requires f > 0 && m > 0
    ensures f * m > 0
    ensures x % (f * m) == f * (x / f % m) + x % f
    ensures x / (f * m) == x / f / m
  {
    var q, r := x / f, x % f;
    var s, t := q / m, q % m;
    ScaleParts(f, m, q, s, t, r);
    ModUnique(x, f * m, s, f * t + r);
  }

  lemma ScaleParts(f: nat, m: nat, q: nat, s: nat, t: nat, r: nat)
    requires t < m && r < f && q == m * s + t
    ensures 0 <= f * t && f * t + r < f * m
    ensures f * q + r == (f * m) * s + (f * t + r)
  {
    MulMonotone(f, m, t + 1);
    assert f * q == f * (m * s) + f * t;
    assert f * (m * s) == (f * m) * s;
  }

  lemma ModUnique(x: int, m: nat, s: int, t: nat)
    requires t < m && x == m * s + t
    ensures x / m == s && x % m == t
  {
    var q, r := x / m, x % m;
    assert m * (s - q) == r - t;
    if s > q {
      MulAtLeast(m, s - q);
    } else if s < q {
      MulAtLeast(m, q - s);
    }
  }

  lemma MulAtLeast(m: nat, d: nat)
    requires d >= 1
    ensures m * d >= m
  {
    assert m * d == m * (d - 1) + m;
  }

  lemma MulMonotone(p: nat, a: nat, b: nat)
    ensures a >= b ==> p * a >= p * b
  {
    if a >= b {
      assert p * a == p * b + p * (a - b);
    }
  }

  /** The k low bits of x, bit by bit. */
  function LowBits(x: nat, k: nat): (r: nat) {
    if k == 0 then 0 else 2 * LowBits(x / 2, k - 1) + x % 2
  }

  lemma {:induction false} LowBitsRemainder(x: nat, k: nat)
    ensures LowBits(x, k) == x % Pow2(k)
  {
    if k == 0 {
    } else {
      LowBitsRemainder(x / 2, k - 1);
      ModScale(x, 2, Pow2(k - 1));
    }
  }

  lemma {:induction false} ZeroLowBits(k: nat)
    ensures LowBits(0, k) == 0
  {
    if k == 0 {
    } else {
      ZeroLowBits(k - 1);
    }
  }

  lemma {:induction false} AndLowBits(x: nat, k: nat)
    ensures BitAnd(x, Pow2(k) - 1) == LowBits(x, k)
  {
    if x == 0 {
      ZeroLowBits(k);
    } else if k == 0 {
    } else {
      AndLowBits(x / 2, k - 1);
    }
  }

  lemma {:induction false} AndFieldBits(x: nat, k: nat, n: nat)
    requires k <= n
    ensures Pow2(k) <= Pow2(n) && BitAnd(x, Pow2(n) - Pow2(k)) == LowBits(x, n) - LowBits(x, k)
  {
    if k == 0 {
      AndLowBits(x, n);
    } else {
      AndFieldBits(x / 2, k - 1, n - 1);
      BitAndEven(x, Pow2(n - 1) - Pow2(k - 1));
    }
  }

  lemma BitAndEven(x: nat, y: nat)
    ensures BitAnd(x, 2 * y) == 2 * BitAnd(x / 2, y)
  {
    assert 2 * y / 2 == y && 2 * y % 2 == 0;
  }

  /** A mask of the low k bits takes the remainder. */
  lemma BitAndLow(x: nat, k: nat)
    ensures BitAnd(x, Pow2(k) - 1) == x % Pow2(k)
  {
    AndLowBits(x, k);
    LowBitsRemainder(x, k);
  }

  /** A mask of the bits from k up to n cuts off what is below and above. */
  lemma BitAndField(x: nat, k: nat, n: nat)
    requires k <= n
    ensures Pow2(k) <= Pow2(n)
    ensures BitAnd(x, Pow2(n) - Pow2(k)) == x % Pow2(n) - x % Pow2(k)
  {
    AndFieldBits(x, k, n);
    LowBitsRemainder(x, n);
    LowBitsRemainder(x, k);
  }

  /** Exclusive-or of disjoint bits is a sum. */
  lemma {:induction false} BitXorDisjoint(x: nat, y: nat, k: nat)
    requires x % Pow2(k) == 0 && y < Pow2(k)
    ensures BitXor(x, y) == x + y
  {
    if k == 0 || x == 0 || y == 0 {
    } else {
      ModScale(x, 2, Pow2(k - 1));
      BitXorDisjoint(x / 2, y / 2, k - 1);
    }
  }

  /** A right shift divides. */
  lemma {:induction false} ShrDivides(x: nat, n: nat)
    ensures Shr(x, n) == x / Pow2(n)
  {
    if n == 0 {
    } else {
      ShrDivides(x / 2, n - 1);
      ModScale(x, 2, Pow2(n - 1));
    }
  }

  /** The bytes of an ASCII text. */
  function Bytes(s: string): (b: seq<U8>)
    requires forall i :: 0 <= i < |s| ==> s[i] as int < 0x80
    ensures |b| == |s|
  {
    seq(|s|, i requires 0 <= i < |s| => s[i] as int)
  }

  // ---------------------------------------------------------- little endian

  function Pow256(n: nat): (p: nat)
    ensures p > 0
  {
    if n == 0 then 1 else 256 * Pow256(n - 1)
  }

  /** The value of a little-endian byte string. */
  function FromLE(b: seq<U8>): (v: nat)
    ensures v < Pow256(|b|)
  {
    if b == [] then 0 else b[0] + 256 * FromLE(b[1..])
  }

  /** The n low bytes of v, least significant first. */
  function ToLE(v: nat, n: nat): (b: seq<U8>)
    ensures |b| == n
  {
    if n == 0 then [] else [v % 256] + ToLE(v / 256, n - 1)
  }

  lemma {:induction false} FromToLE(v: nat, n: nat)
    requires v < Pow256(n)
    ensures FromLE(ToLE(v, n)) == v
  {
    if n == 0 {
    } else {
      FromToLE(v / 256, n - 1);
      assert ToLE(v, n)[1..] == ToLE(v / 256, n - 1);
    }
  }

  /** The 8-byte word at address a. */
  function WordAt(m: seq<U8>, a: nat): U64
    requires a + 8 <= |m|
  {
    assert Pow256(8) == 0x1_0000_0000_0000_0000;
    FromLE(m[a..a + 8])
  }

  lemma WordOf(s: seq<U8>, a: nat, v: U64)
    requires a + 8 <= |s| && s[a..a + 8] == ToLE(v, 8)
    ensures WordAt(s, a) == v
  {
    assert Pow256(8) == 0x1_0000_0000_0000_0000;
    FromToLE(v, 8);
  }

  /** 64-bit words one behind the other. */
  function LittleWords(ws: seq<U64>): (b: seq<U8>)
    ensures |b| == 8 * |ws|
  {
    if ws == [] then [] else ToLE(ws[0], 8) + LittleWords(ws[1..])
  }

  lemma {:induction false} WordsOf(s: seq<U8>, o: nat, ws: seq<U64>, k: nat)
    requires k < |ws| && o + 8 * |ws| <= |s| && s[o..o + 8 * |ws|] == LittleWords(ws)
    ensures WordAt(s, o + 8 * k) == ws[k]
    decreases k
  {
    var b := s[o..o + 8 * |ws|];
    if k == 0 {
      assert s[o..o + 8] == b[..8];
      WordOf(s, o, ws[0]);
    } else {
      assert s[o + 8..o + 8 * |ws|] == b[8..] == LittleWords(ws[1..]);
      WordsOf(s, o + 8, ws[1..], k - 1);
    }
  }

  /** The little-endian 32-bit number at position a. */
  function LongAt(s: seq<U8>, a: nat): U32
    requires a + 4 <= |s|
  {
    var b0: int, b1: int, b2: int, b3: int := s[a], s[a + 1], s[a + 2], s[a + 3];
    b0 + 0x100 * b1 + 0x1_0000 * b2 + 0x100_0000 * b3
  }

  lemma LongOf(s: seq<U8>, a: nat, v: U32)
    requires a + 4 <= |s| && s[a..a + 4] == ToLE(v, 4)
    ensures LongAt(s, a) == v
  {
    var p := v / 256;
    var q := p / 256;
    var b := ToLE(v, 4);
    assert b == [v % 256, p % 256] + ToLE(q, 2) && ToLE(q, 2) == [q % 256, q / 256 % 256];
    assert b[0] == s[a] && b[1] == s[a + 1] && b[2] == s[a + 2] && b[3] == s[a + 3];
  }

  lemma SliceOfSlice(s: seq<U8>, o: nat, n: nat, i: nat, j: nat)
    requires i <= j <= n && o + n <= |s|
    ensures s[o..o + n][i..j] == s[o + i..o + j]
  {
    var a, b := s[o..o + n][i..j], s[o + i..o + j];
    assert forall k :: 0 <= k < j - i ==> a[k] == b[k];
  }

  /** m with the bytes from address a on replaced by b. */
  function Splice(m: seq<U8>, a: nat, b: seq<U8>): (r: seq<U8>)
    requires a + |b| <= |m|
    ensures |r| == |m|
  {
    m[..a] + b + m[a + |b|..]
  }

  lemma SpliceWord(m: seq<U8>, a: nat, w: U64)
    requires a + 8 <= |m|
    ensures WordAt(Splice(m, a, ToLE(w, 8)), a) == w
    ensures forall b: nat :: b + 8 <= a || a + 8 <= b <= |m| - 8 ==>
              WordAt(Splice(m, a, ToLE(w, 8)), b) == WordAt(m, b)
  {
    var r := Splice(m, a, ToLE(w, 8));
    assert Pow256(8) == 0x1_0000_0000_0000_0000;
    FromToLE(w, 8);
    assert r[a..a + 8] == ToLE(w, 8);
    forall b: nat | b + 8 <= a || a + 8 <= b <= |m| - 8
      ensures WordAt(r, b) == WordAt(m, b)
    {
      assert r[b..b + 8] == m[b..b + 8];
    }
  }

  /** An 8-byte store. */
  method StoreWord(ram: array<U8>, a: nat, w: U64)
    requires a + 8 <= ram.Length
    modifies ram
    ensures ram[..] == Splice(old(ram[..]), a, ToLE(w, 8))
  {
    var b := ToLE(w, 8);
    forall k | 0 <= k < 8 {
      ram[a + k] := b[k];
    }
  }

  /** Bytes 0 make a word 0. */
  lemma ZeroWord(m: seq<U8>, a: nat)
    requires a + 8 <= |m| && forall k :: a <= k < a + 8 ==> m[k] == 0
    ensures WordAt(m, a) == 0
  {
    ZeroLE(m[a..a + 8]);
  }

  lemma {:induction false} ZeroLE(b: seq<U8>)
    requires forall k :: 0 <= k < |b| ==> b[k] == 0
    ensures FromLE(b) == 0
  {
    if b == [] {
    } else {
      ZeroLE(b[1..]);
    }
  }

  /** Two memories agree except on [lo, hi). */
  ghost predicate SameOutside(m: seq<U8>, m': seq<U8>, lo: nat, hi: nat) {
    && lo <= hi <= |m| == |m'|
    && m[..lo] == m'[..lo]
    && m[hi..] == m'[hi..]
  }

  lemma SameOutsideTwice(m: seq<U8>, m': seq<U8>, m'': seq<U8>, lo: nat, hi: nat)
    requires SameOutside(m, m', lo, hi) && SameOutside(m', m'', lo, hi)
    ensures SameOutside(m, m'', lo, hi)
  {
  }

  lemma SameBytes(m: seq<U8>, m': seq<U8>, lo: nat, hi: nat)
    requires SameOutside(m, m', lo, hi)
    ensures forall j :: 0 <= j < lo || hi <= j < |m| ==> m'[j] == m[j]
  {
    forall j | 0 <= j < lo || hi <= j < |m| ensures m'[j] == m[j] {
      if j < lo {
        assert m'[j] == m'[..lo][j] == m[..lo][j];
      } else {
        assert m'[j] == m'[hi..][j - hi] == m[hi..][j - hi];
      }
    }
  }
}
