/** The rounding macros of the kernel's and the loader's defs.h. C writes them with bit
    masks; they are stated here by arithmetic, and the lemmas at the end show that the
    masks compute the same values, wrap-around included. */
module Rounding {
  import opened Machine

  const PAGE_MASK: U64 := 0xFFFF_FFFF_FFFF_F000
  const BLOCK_MASK: U64 := 0xFFFF_FFFF_FFE0_0000

  /** Distance to the next multiple of 4 KiB, and of 2 MiB. */
  function Pad(x: U64): (p: nat)
    ensures p < 4096 && (x + p) % 4096 == 0
  {
    if x % 4096 == 0 then 0 else 4096 - x % 4096
  }

  function BlockPad(x: U64): (p: nat)
    ensures p < 0x20_0000 && (x + p) % 0x20_0000 == 0
  {
    if x % 0x20_0000 == 0 then 0 else 0x20_0000 - x % 0x20_0000
  }

  /** PAGE_DOWN: the greatest page boundary not above x. */
  function PageDown(x: U64): (r: U64)
    ensures r % 4096 == 0
  {
    x - x % 4096
  }

  /** PAGE_UP: the least page boundary not below x; on the last page the macro yields 0. */
  function PageUp(x: U64): (r: U64)
    ensures r % 4096 == 0
  {
    if x <= 0x1_0000_0000_0000_0000 - 4096 then x + Pad(x) else 0
  }

  /** PAGE_CNT. */
  function PageCnt(x: U64): nat { PageUp(x) / 4096 }

  /** BLOCK_DOWN and BLOCK_UP: the same for 2 MiB boundaries. */
  function BlockDown(x: U64): (r: U64)
    ensures r % 0x20_0000 == 0
  {
    x - x % 0x20_0000
  }

  function BlockUp(x: U64): (r: U64)
    ensures r % 0x20_0000 == 0
  {
    if x <= 0x1_0000_0000_0000_0000 - 0x20_0000 then x + BlockPad(x) else 0
  }

  // ------------------------------------------------------------- the macros

  lemma PageDownMask(x: U64)
    ensures BitAnd(x, PAGE_MASK) == PageDown(x)
  {
    MaskRounds(x, 12);
  }

  lemma PageUpMask(x: U64)
    ensures BitAnd(Wrap64(x + 4095), PAGE_MASK) == PageUp(x)
  {
    PageDownMask(Wrap64(x + 4095));
    WrappedRoundUp(x, 4096, Wrap64(x + 4095));
  }

  lemma BlockDownMask(x: U64)
    ensures BitAnd(x, BLOCK_MASK) == BlockDown(x)
  {
    MaskRounds(x, 21);
  }

  lemma BlockUpMask(x: U64)
    ensures BitAnd(Wrap64(x + 0x1F_FFFF), BLOCK_MASK) == BlockUp(x)
  {
    BlockDownMask(Wrap64(x + 0x1F_FFFF));
    WrappedRoundUp(x, 0x20_0000, Wrap64(x + 0x1F_FFFF));
  }

  /** Adding p - 1 and rounding down rounds up, or gives 0 when the addition wraps. */
  lemma WrappedRoundUp(x: U64, p: nat, y: U64)
    requires 0 < p < 0x1_0000_0000
    requires y == if x + p - 1 < 0x1_0000_0000_0000_0000 then x + p - 1 else x + p - 1 - 0x1_0000_0000_0000_0000
    ensures y - y % p
            == if x > 0x1_0000_0000_0000_0000 - p then 0 else if x % p == 0 then x else x + p - x % p
  {
    var q, r := x / p, x % p;
    assert x == p * q + r;
    if x > 0x1_0000_0000_0000_0000 - p {
      ModUnique(y, p, 0, y);
    } else if r == 0 {
      ModUnique(y, p, q, p - 1);
    } else {
      assert y == p * (q + 1) + (r - 1);
      ModUnique(y, p, q + 1, r - 1);
    }
  }

  /** Masking the low k bits away rounds down to a multiple of 2^k. */
  lemma MaskRounds(x: U64, k: nat)
    requires k <= 64
    ensures Pow2(12) == 0x1000 && Pow2(21) == 0x20_0000
    ensures Pow2(k) <= 0x1_0000_0000_0000_0000
    ensures BitAnd(x, 0x1_0000_0000_0000_0000 - Pow2(k)) == x - x % Pow2(k)
  {
    Pow2Values();
    BitAndField(x, k, 64);
  }
}
