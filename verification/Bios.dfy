/** The two collection loops of the real-mode stub, over the answers a BIOS gives: the E820
    memory map and the choice of a video mode. */
module Bios {
  import opened Machine

  // ------------------------------------------------------------------- e820

  /** One return from int 15h: carry, whether eax holds the signature, ecx, ebx and the bytes
      written to the slot. */
  datatype Answer = Answer(carry: bool, signature: bool, ecx: U32, ebx: U32, data: seq<U8>)
  {
    /** A BIOS writes as many bytes as it says: none, or 20 to 24. */
    predicate Valid() { |data| <= 24 && (!carry && ecx != 0 ==> |data| == ecx >= 20) }
  }

  const SLOT: nat := 24

  /** The loop ends at an answer with carry, a wrong signature or no continuation. */
  predicate Ends(a: Answer) { a.carry || !a.signature || a.ebx == 0 }

  /** What the slot holds after an answer: the bytes given, over a preset attribute word 1. */
  function Slot(a: Answer): (s: seq<U8>)
    requires a.Valid() && !a.carry && a.ecx != 0
    ensures |s| == SLOT
  {
    a.data + [1, 0, 0, 0][|a.data| - 20..]
  }

  /** An answer that counts: it has data, is not marked to be ignored, and the two halves of
      its length do not add up to zero in 32 bits. */
  predicate Kept(a: Answer)
    requires a.Valid()
  {
    && !a.carry && a.signature && a.ecx != 0
    && (a.ecx <= 20 || Slot(a)[20] % 2 == 1)
    && Wrap32(LongAt(Slot(a), 8) + LongAt(Slot(a), 12)) != 0
  }

  /** The kept ones of the first n answers. */
  function KeptSlots(answers: seq<Answer>, n: nat): seq<U8>
    requires n <= |answers| && forall a :: a in answers ==> a.Valid()
  {
    if n == 0 then []
    else KeptSlots(answers, n - 1) + (if Kept(answers[n - 1]) then Slot(answers[n - 1]) else [])
  }

  /** e is the first answer that ends the loop. */
  ghost predicate EndsAt(answers: seq<Answer>, e: nat) {
    e < |answers| && Ends(answers[e]) && forall j :: 0 <= j < e ==> !Ends(answers[j])
  }

  /** The call fails on a carry at once or on a wrong signature. */
  predicate Succeeds(answers: seq<Answer>, e: nat)
    requires e < |answers|
  {
    if answers[e].carry then e > 0 else answers[e].signature
  }

  /** e820: the first bp slots of the buffer are the kept answers in order. A rejected slot is
      used again. */
  method E820(answers: seq<Answer>, buf: array<U8>, ghost e: nat) returns (ok: bool, bp: U16)
    requires EndsAt(answers, e) && forall a :: a in answers ==> a.Valid()
    // room for the kept slots and for one more, which may be filled and dropped
    requires |KeptSlots(answers, e)| + SLOT <= buf.Length <= 0x1_0000
    modifies buf
    ensures ok == Succeeds(answers, e)
    ensures SLOT * bp <= buf.Length && buf[..SLOT * bp] == KeptSlots(answers, if ok && !answers[e].carry then e + 1 else e)
  {
    bp := 0;
    var di: U16 := 0;
    var k := 0;
    while true
      invariant 0 <= k <= e && di == SLOT * bp && di + SLOT <= buf.Length
      invariant buf[..di] == KeptSlots(answers, k)
      decreases e - k
    {
      var a := answers[k];
      assert a in answers;
      FillSlot(buf, di, a);
      if a.carry {
        ok := k > 0;
        return;
      }
      if !a.signature {
        return false, bp;
      }
      bp, di := KeepSlot(a, buf, bp, di, answers, k);
      if a.ebx == 0 {
        return true, bp;
      }
      k := k + 1;
      KeptGrows(answers, k, e);
    }
  }

  lemma {:induction false} KeptGrows(answers: seq<Answer>, k: nat, n: nat)
    requires k <= n <= |answers| && forall a :: a in answers ==> a.Valid()
    ensures |KeptSlots(answers, k)| <= |KeptSlots(answers, n)|
  {
    if k == n {
    } else {
      KeptGrows(answers, k, n - 1);
    }
  }

  /** The slot at di, filled from answer a, stays if it passes the tests. */
  method KeepSlot(a: Answer, buf: array<U8>, bp: U16, di: U16, ghost answers: seq<Answer>, ghost k: nat)
    returns (bp': U16, di': U16)
    requires k < |answers| && a == answers[k] && forall b :: b in answers ==> b.Valid()
    requires !a.carry && a.signature && di == SLOT * bp && di + SLOT <= buf.Length <= 0x1_0000
    requires a.ecx != 0 ==> buf[di..di + SLOT] == Slot(a)
    requires buf[..di] == KeptSlots(answers, k)
    ensures bp <= bp' <= bp + 1 && di' == SLOT * bp' <= buf.Length
    ensures buf[..di'] == KeptSlots(answers, k + 1)
  {
    assert answers[k] in answers;
    bp', di' := bp, di;
    var keep := TestSlot(buf, di, a);
    KeptStep(answers, k, buf[..di], buf[di..di + SLOT]);
    if keep {
      assert buf[..di + SLOT] == buf[..di] + buf[di..di + SLOT];
      bp' := bp + 1;
      di' := Wrap16(di + 24);
    }
  }

  /** A kept slot joins those before it, another does not. */
  lemma KeptStep(answers: seq<Answer>, k: nat, before: seq<U8>, slot: seq<U8>)
    requires k < |answers| && forall a :: a in answers ==> a.Valid()
    requires before == KeptSlots(answers, k) && answers[k] in answers
    requires Kept(answers[k]) ==> slot == Slot(answers[k])
    ensures KeptSlots(answers, k + 1) == if Kept(answers[k]) then before + slot else before
  {
  }

  /** The tests between .first and .skip on a filled slot. */
  method TestSlot(buf: array<U8>, di: nat, a: Answer) returns (keep: bool)
    requires a.Valid() && di + SLOT <= buf.Length && !a.carry && a.signature
    requires a.ecx != 0 ==> buf[di..di + SLOT] == Slot(a)
    ensures keep == Kept(a)
  {
    if a.ecx == 0 {
      return false;
    }
    LowBit(buf[di + 20]);
    assert buf[di + 20] == buf[di..di + SLOT][20];
    if a.ecx > 20 && BitAnd(buf[di + 20], 1) == 0 {
      return false;
    }
    SliceLongs(buf[..], di);
    assert buf[..][di..di + SLOT] == buf[di..di + SLOT];
    keep := Wrap32(LongAt(buf[..], di + 8) + LongAt(buf[..], di + 12)) != 0;
  }

  /** The preset attribute word, then what the BIOS writes. */
  method FillSlot(buf: array<U8>, di: nat, a: Answer)
    requires a.Valid() && di + SLOT <= buf.Length
    modifies buf
    ensures buf[..di] == old(buf[..di])
    ensures !a.carry && a.ecx != 0 ==> buf[di..di + SLOT] == Slot(a)
  {
    buf[di + 20], buf[di + 21], buf[di + 22], buf[di + 23] := 1, 0, 0, 0;
    forall i | 0 <= i < |a.data| {
      buf[di + i] := a.data[i];
    }
    if !a.carry && a.ecx != 0 {
      forall i | 0 <= i < SLOT ensures buf[di + i] == Slot(a)[i] {
        SlotAt(a, i);
      }
    }
  }

  lemma SlotAt(a: Answer, i: nat)
    requires a.Valid() && !a.carry && a.ecx != 0 && i < SLOT
    ensures Slot(a)[i] == if i < |a.data| then a.data[i] else if i == 20 then 1 else 0
  {
  }

  lemma SliceLongs(s: seq<U8>, di: nat)
    requires di + SLOT <= |s|
    ensures LongAt(s, di + 8) == LongAt(s[di..di + SLOT], 8)
    ensures LongAt(s, di + 12) == LongAt(s[di..di + SLOT], 12)
  {
    SliceOfSlice(s, di, SLOT, 8, 12);
    SliceOfSlice(s, di, SLOT, 12, 16);
  }

  lemma LowBit(x: U8)
    ensures BitAnd(x, 1) == x % 2
  {
    BitAndLow(x, 1);
  }

  /** The emptiness test is right except for lengths whose halves add up to 2^32: those are
      not empty, yet dropped. */
  lemma EmptinessTest(lo: U32, hi: U32)
    ensures (Wrap32(lo + hi) == 0 <==> lo + 0x1_0000_0000 * hi == 0) <==> lo + hi != 0x1_0000_0000
    ensures Wrap32(0xFFFF_FFFF + 1) == 0 && 0xFFFF_FFFF + 0x1_0000_0000 * 1 == 0x1_FFFF_FFFF
  {
  }

  // ------------------------------------------------------------ video modes

  /** What the mode information block says after a query. */
  datatype ModeInfo = ModeInfo(attrs: U16, width: U16, height: U16, bpp: U8)

  /** Modes the stub would use: 32 bits a pixel, supported, and lower than 1000 lines. */
  predicate Eligible(m: ModeInfo) { m.bpp == 32 && m.attrs % 2 == 1 && m.height < 1000 }

  function Area(m: ModeInfo): nat { m.width * m.height }

  /** The mode number with the linear-framebuffer bit set. */
  function Linear(mode: U16): U16 {
    if mode / 0x4000 % 2 == 1 then mode else Wrap16(mode + 0x4000)
  }

  /** `mul bx` leaves the product in dx:ax, and edx is put together from the halves. Whatever
      its upper half held is shifted out, so the result is the whole product. */
  function RebuildProduct(high: U16, ax: U16, bx: U16): (r: U32)
    ensures r == ax * bx
  {
    ProductBound(ax, bx);
    var p := ax * bx;
    ShiftedHigh(high, p / 0x1_0000);
    var edx := high * 0x1_0000 + p / 0x1_0000;
    Wrap32(edx * 0x1_0000) + p % 0x1_0000
  }

  lemma ProductBound(a: U16, b: U16)
    ensures 0 <= a * b < 0x1_0000_0000
  {
    MulMonotone(b, 0xFFFF, a);
  }

  lemma ShiftedHigh(high: U16, dx: U16)
    ensures Wrap32((high * 0x1_0000 + dx) * 0x1_0000) == dx * 0x1_0000
  {
    ModUnique((high * 0x1_0000 + dx) * 0x1_0000, 0x1_0000_0000, high, dx * 0x1_0000);
  }

  /** Mode and area are those of the first eligible mode with the largest positive area among
      the first n, or 0. */
  ghost predicate Best(modes: seq<U16>, infos: seq<ModeInfo>, n: nat, screenMode: U16, screenPixels: U32)
    requires n <= |modes| && n <= |infos|
  {
    && (forall j :: 0 <= j < n && Eligible(infos[j]) ==> Area(infos[j]) <= screenPixels)
    && (screenPixels == 0 ==> screenMode == 0)
    && (screenPixels > 0 ==> exists k :: 0 <= k < n && FirstOfArea(infos, k, screenPixels) && screenMode == Linear(modes[k]))
  }

  ghost predicate FirstOfArea(infos: seq<ModeInfo>, k: nat, area: nat)
    requires k < |infos|
  {
    && Eligible(infos[k]) && Area(infos[k]) == area
    && forall j :: 0 <= j < k && Eligible(infos[j]) ==> Area(infos[j]) < area
  }

  /** In plain numbers: a supported mode of 32 bits a pixel and fewer than 1000 lines, whose number
      is taken with bit 14, the linear framebuffer, set. */
  predicate ChosenMode(mode: U16, info: ModeInfo, screenMode: U16, screenPixels: U32) {
    && info.bpp == 32 && info.attrs % 2 == 1 && info.height < 1000
    && screenPixels == info.width * info.height
    && screenMode / 0x4000 % 2 == 1 && screenMode % 0x4000 == mode % 0x4000 && screenMode / 0x8000 == mode / 0x8000
  }

  /** The modes before it that would do are smaller. */
  predicate AllBelow(infos: seq<ModeInfo>, k: nat, area: nat)
    requires k <= |infos|
  {
    forall j :: 0 <= j < k && infos[j].bpp == 32 && infos[j].attrs % 2 == 1 && infos[j].height < 1000 ==>
      infos[j].width * infos[j].height < area
  }

  lemma BestIsChosen(modes: seq<U16>, infos: seq<ModeInfo>, n: nat, screenMode: U16, screenPixels: U32)
    requires n <= |modes| && n <= |infos| && Best(modes, infos, n, screenMode, screenPixels)
    ensures forall j :: 0 <= j < n && infos[j].bpp == 32 && infos[j].attrs % 2 == 1 && infos[j].height < 1000 ==>
              infos[j].width * infos[j].height <= screenPixels
    ensures screenPixels > 0 ==> exists k :: 0 <= k < n && ChosenMode(modes[k], infos[k], screenMode, screenPixels)
                                           && AllBelow(infos, k, screenPixels)
  {
    forall j | 0 <= j < n && infos[j].bpp == 32 && infos[j].attrs % 2 == 1 && infos[j].height < 1000
      ensures infos[j].width * infos[j].height <= screenPixels
    {
      assert Eligible(infos[j]) && Area(infos[j]) <= screenPixels;
    }
    if screenPixels > 0 {
      var k :| 0 <= k < n && FirstOfArea(infos, k, screenPixels) && screenMode == Linear(modes[k]);
      LinearBits(modes[k]);
      FirstIsAllBelow(infos, k, screenPixels);
      assert ChosenMode(modes[k], infos[k], screenMode, screenPixels);
    }
  }

  lemma FirstIsAllBelow(infos: seq<ModeInfo>, k: nat, area: nat)
    requires k < |infos| && FirstOfArea(infos, k, area)
    ensures AllBelow(infos, k, area)
  {
    forall j | 0 <= j < k && infos[j].bpp == 32 && infos[j].attrs % 2 == 1 && infos[j].height < 1000
      ensures infos[j].width * infos[j].height < area
    {
      assert Eligible(infos[j]) && Area(infos[j]) < area;
    }
  }

  lemma LinearBits(mode: U16)
    ensures var m := Linear(mode);
            m / 0x4000 % 2 == 1 && m % 0x4000 == mode % 0x4000 && m / 0x8000 == mode / 0x8000
  {
    var q, r := mode / 0x8000, mode % 0x8000;
    if r < 0x4000 {
      ModUnique(mode, 0x4000, 2 * q, r);
      ModUnique(mode + 0x4000, 0x4000, 2 * q + 1, r);
      ModUnique(mode + 0x4000, 0x8000, q, r + 0x4000);
    } else {
      ModUnique(mode, 0x4000, 2 * q + 1, r - 0x4000);
    }
  }

  /** .getMaximum over the mode list, whose end is only looked for behind the first mode. */
  method GetMaximum(modes: seq<U16>, infos: seq<ModeInfo>, ghost n: nat) returns (screenMode: U16, screenPixels: U32)
    requires 1 <= n < |modes| && |infos| >= n
    requires modes[n] == 0xFFFF && forall j :: 1 <= j < n ==> modes[j] != 0xFFFF
    ensures Best(modes, infos, n, screenMode, screenPixels)
    ensures forall j :: 0 <= j < n && infos[j].bpp == 32 && infos[j].attrs % 2 == 1 && infos[j].height < 1000 ==>
              infos[j].width * infos[j].height <= screenPixels
    ensures screenPixels > 0 ==> exists k :: 0 <= k < n && ChosenMode(modes[k], infos[k], screenMode, screenPixels)
                                           && AllBelow(infos, k, screenPixels)
  {
    screenMode, screenPixels := 0, 0;
    var i := 0;
    while true
      invariant 0 <= i < n
      invariant Best(modes, infos, i, screenMode, screenPixels)
      decreases n - i
    {
      var m := infos[i];
      if m.bpp == 32 && m.attrs % 2 != 0 && m.height < 1000 {
        var edx := RebuildProduct(0x8765, m.width, m.height);
        if edx > screenPixels {
          assert FirstOfArea(infos, i, edx);
          screenMode, screenPixels := Linear(modes[i]), edx;
        }
      }
      i := i + 1;
      if modes[i] == 0xFFFF {
        BestIsChosen(modes, infos, n, screenMode, screenPixels);
        return;
      }
    }
  }
}
