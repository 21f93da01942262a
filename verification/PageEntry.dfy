/** The two C layouts of an x86-64 page-table entry: the loader's `struct page`
    (one bit field a flag) and the kernel's `struct page_entry` (nine flag bits). */
module PageEntry {
  import opened Machine
  import opened Rounding

  type Bit = x: int | 0 <= x < 2

  /** The loader's layout, least significant field first. */
  datatype Page = Page(pres: Bit, writ: Bit, user: Bit, wrTh: Bit, dCach: Bit, accd: Bit,
                       dirty: Bit, big: Bit, glob: Bit, avl2: U8, addr: U64, avl1: U16, nx: Bit)
  {
    ghost predicate Valid() { avl2 < 8 && addr < 0x100_0000_0000 && avl1 < 2048 }

    function Flags(): nat {
      pres + 2 * writ + 4 * user + 8 * wrTh + 16 * dCach + 32 * accd + 64 * dirty + 128 * big + 256 * glob
    }

    /** The 64-bit word the compiler packs the fields into. */
    function Word(): U64
      requires Valid()
    {
      Flags() + 0x200 * avl2 + 0x1000 * addr + 0x10_0000_0000_0000 * avl1 + 0x8000_0000_0000_0000 * nx
    }
  }

  /** The kernel's layout. */
  datatype Entry = Entry(flags: U16, avl2: U8, addr: U64, avl1: U16, nx: Bit)
  {
    ghost predicate Valid() { flags < 512 && avl2 < 8 && addr < 0x100_0000_0000 && avl1 < 2048 }

    function Word(): U64
      requires Valid()
    {
      flags + 0x200 * avl2 + 0x1000 * addr + 0x10_0000_0000_0000 * avl1 + 0x8000_0000_0000_0000 * nx
    }
  }

  /** Which bit of the word each flag is, as section 4.5 of the processor manual has them. */
  lemma PageBits(p: Page)
    requires p.Valid()
    ensures var w := p.Word();
            && w % 2 == p.pres && w / 2 % 2 == p.writ && w / 4 % 2 == p.user && w / 8 % 2 == p.wrTh && w / 16 % 2 == p.dCach
            && w / 32 % 2 == p.accd && w / 64 % 2 == p.dirty && w / 128 % 2 == p.big && w / 256 % 2 == p.glob
  {
    var w := p.Word();
    var r9 := p.avl2 + 8 * p.addr + 0x800_0000_0000 * p.avl1 + 0x40_0000_0000_0000 * p.nx;
    var r5 := p.accd + 2 * p.dirty + 4 * p.big + 8 * p.glob + 16 * r9;
    FourBits(w, p.pres, p.writ, p.user, p.wrTh, p.dCach + 2 * r5);
    ModUnique(w, 16, p.dCach + 2 * r5, p.pres + 2 * p.writ + 4 * p.user + 8 * p.wrTh);
    ModUnique(p.dCach + 2 * r5, 2, r5, p.dCach);
    ModUnique(w, 32, r5, p.pres + 2 * p.writ + 4 * p.user + 8 * p.wrTh + 16 * p.dCach);
    FourBits(r5, p.accd, p.dirty, p.big, p.glob, r9);
    var low := w % 32;
    ModUnique(w, 64, r5 / 2, low + 32 * p.accd);
    ModUnique(w, 128, r5 / 4, low + 32 * p.accd + 64 * p.dirty);
    ModUnique(w, 256, r5 / 8, low + 32 * p.accd + 64 * p.dirty + 128 * p.big);
  }

  lemma FourBits(x: nat, a: Bit, b: Bit, c: Bit, d: Bit, r: nat)
    requires x == a + 2 * b + 4 * c + 8 * d + 16 * r
    ensures x % 2 == a && x / 2 % 2 == b && x / 4 % 2 == c && x / 8 % 2 == d
    ensures x / 2 == b + 2 * c + 4 * d + 8 * r && x / 4 == c + 2 * d + 4 * r && x / 8 == d + 2 * r
  {
    var x2, x4, x8 := b + 2 * c + 4 * d + 8 * r, c + 2 * d + 4 * r, d + 2 * r;
    ModUnique(x, 2, x2, a);
    ModUnique(x2, 2, x4, b);
    ModUnique(x4, 2, x8, c);
    ModUnique(x8, 2, r, d);
    ModUnique(x, 4, x4, a + 2 * b);
    ModUnique(x, 8, x8, a + 2 * b + 4 * c);
  }

  /** The kernel's fields are the same bits: nine flags, three and eleven available ones around the
      page number, and no-execute on top. */
  lemma EntryBits(e: Entry)
    requires e.Valid()
    ensures var w := e.Word();
            && w % 0x200 == e.flags && w / 0x200 % 8 == e.avl2 && w / 0x1000 % 0x100_0000_0000 == e.addr
            && w / 0x10_0000_0000_0000 % 2048 == e.avl1 && w / 0x8000_0000_0000_0000 == e.nx
  {
    FieldQuotients(e.flags, e.avl2, e.addr, e.avl1, e.nx);
  }

  const ZERO_PAGE := Page(0, 0, 0, 0, 0, 0, 0, 0, 0, 0, 0, 0, 0)

  // ------------------------------------------------- loader constructors

  /** gen_pml4e_pdpe_pte; the pointer is 32 bits wide. */
  function GenPml4ePdpePte(addr: U32): (p: Page)
    ensures p.Valid()
    ensures p.Word() == PageDown(addr) + 0x3
  {
    ShrPage(addr);
    ZERO_PAGE.(addr := Shr(addr, 12), writ := 1, pres := 1)
  }

  /** gen_pde; the one-bit field keeps the low bit of `big`. */
  function GenPde(addr: U32, big: U64): (p: Page)
    ensures p.Valid()
    ensures p.Word() == PageDown(addr) + 0x3 + 0x80 * (big % 2)
  {
    ShrPage(addr);
    ZERO_PAGE.(addr := Shr(addr, 12), writ := 1, big := big % 2, pres := 1)
  }

  // ------------------------------------------------- kernel constructors

  /** Entry e carries the page address of addr modulo 2^52 and these flags, and nothing else. */
  ghost predicate Holds(e: Entry, addr: U64, nx: bool, flags: nat) {
    && e.addr * 4096 == PageDown(addr) % 0x10_0000_0000_0000
    && e.flags == flags && e.avl2 == 0 && e.avl1 == 0 && e.nx == (if nx then 1 else 0)
  }

  /** gen_entry: 40 address bits and 9 flag bits survive. */
  function GenEntry(addr: U64, nx: bool, flags: U16): (e: Entry)
    ensures e.Valid() && Holds(e, addr, nx, flags % 512)
  {
    ShrPage(addr);
    Entry(flags % 512, 0, Shr(addr, 12) % 0x100_0000_0000, 0, if nx then 1 else 0)
  }

  function GenPml4(addr: U64, nx: bool, flags: U16): (e: Entry)
    ensures e.Valid() && Holds(e, addr, nx, BitAnd(flags, 0x1F))
  {
    BitAndBound(flags, 0x1F);
    GenEntry(addr, nx, BitAnd(flags, 0x1F))
  }

  function GenPdpePde(addr: U64, nx: bool, flags: U16): (e: Entry)
    ensures e.Valid() && Holds(e, addr, nx, BitAnd(flags, 0x9F))
  {
    BitAndBound(flags, 0x9F);
    GenEntry(addr, nx, BitAnd(flags, 0x9F))
  }

  function GenPte(addr: U64, nx: bool, flags: U16): (e: Entry)
    ensures e.Valid() && Holds(e, addr, nx, BitAnd(flags, 0x19F))
  {
    BitAndBound(flags, 0x19F);
    GenEntry(addr, nx, BitAnd(flags, 0x19F))
  }

  lemma {:induction false} BitAndBound(x: nat, y: nat)
    ensures BitAnd(x, y) <= y && BitAnd(x, y) <= x
  {
    if x == 0 || y == 0 {
    } else {
      BitAndBound(x / 2, y / 2);
    }
  }

  lemma ShrPage(x: U64)
    ensures Shr(x, 12) == x / 4096 && PageDown(x) == x / 4096 * 4096
  {
    Pow2Values();
    ShrDivides(x, 12);
  }

  // -------------------------------------------------------------- agreement

  /** Reading a word back as the kernel's fields. */
  function Decode(w: U64): (e: Entry)
    ensures e.Valid()
  {
    Entry(w % 0x200, w / 0x200 % 8, w / 0x1000 % 0x100_0000_0000, w / 0x10_0000_0000_0000 % 2048,
          w / 0x8000_0000_0000_0000)
  }

  lemma DecodeWord(e: Entry)
    requires e.Valid()
    ensures Decode(e.Word()) == e
  {
    FieldQuotients(e.flags, e.avl2, e.addr, e.avl1, e.nx);
  }

  lemma FieldQuotients(f: nat, a: nat, p: nat, b: nat, n: nat)
    requires f < 0x200 && a < 8 && p < 0x100_0000_0000 && b < 2048
    ensures var w := f + 0x200 * a + 0x1000 * p + 0x10_0000_0000_0000 * b + 0x8000_0000_0000_0000 * n;
            && w % 0x200 == f
            && w / 0x200 % 8 == a
            && w / 0x1000 % 0x100_0000_0000 == p
            && w / 0x10_0000_0000_0000 % 2048 == b
            && w / 0x8000_0000_0000_0000 == n
  {
    var w := f + 0x200 * a + 0x1000 * p + 0x10_0000_0000_0000 * b + 0x8000_0000_0000_0000 * n;
    var q3 := b + 2048 * n;
    var q2 := p + 0x100_0000_0000 * q3;
    var q1 := a + 8 * q2;
    ModUnique(w, 0x200, q1, f);
    ModUnique(q1, 8, q2, a);
    ModUnique(w, 0x1000, q2, f + 0x200 * a);
    ModUnique(q2, 0x100_0000_0000, q3, p);
    ModUnique(w, 0x10_0000_0000_0000, q3, f + 0x200 * a + 0x1000 * p);
    ModUnique(q3, 2048, n, b);
    ModUnique(w, 0x8000_0000_0000_0000, n, w - 0x8000_0000_0000_0000 * n);
  }

  lemma WordDecode(w: U64)
    ensures Decode(w).Word() == w
  {
    var a, b, c := w / 0x200, w / 0x1000, w / 0x10_0000_0000_0000;
    assert a / 8 == b && b / 0x100_0000_0000 == c && c / 2048 == w / 0x8000_0000_0000_0000;
  }

  /** A word read through the kernel's fields has the loader's fields: the layouts agree bit for bit. */
  lemma LayoutsAgree(p: Page)
    requires p.Valid()
    ensures Decode(p.Word()) == Entry(p.Flags(), p.avl2, p.addr, p.avl1, p.nx)
  {
    DecodeWord(Entry(p.Flags(), p.avl2, p.addr, p.avl1, p.nx));
  }

  /** Both programs build the same word from the same 32-bit address and flags. */
  lemma LinksAgree(addr: U32)
    ensures GenPml4ePdpePte(addr).Word() == GenPml4(addr, false, 0x3).Word() == GenPte(addr, false, 0x3).Word()
  {
    LinkFlagsKept();
    Pml4Word(addr, 0x3);
    PteWord(addr, 0x3);
  }

  lemma Pml4Word(addr: U32, flags: U16)
    requires BitAnd(flags, 0x1F) == flags
    ensures GenPml4(addr, false, flags).Word() == PageDown(addr) + flags
  {
    HoldsWord(GenPml4(addr, false, flags), addr, false, flags);
  }

  lemma PteWord(addr: U32, flags: U16)
    requires BitAnd(flags, 0x19F) == flags
    ensures GenPte(addr, false, flags).Word() == PageDown(addr) + flags
  {
    HoldsWord(GenPte(addr, false, flags), addr, false, flags);
  }

  lemma DirectoryEntriesAgree(addr: U32, big: Bit)
    ensures GenPde(addr, big).Word() == GenPdpePde(addr, false, if big == 1 then 0x83 else 0x3).Word()
  {
    DirectoryFlagsKept();
    LowPdeWord(addr, if big == 1 then 0x83 else 0x3);
  }

  lemma PdeWord(addr: U64, flags: U16)
    requires BitAnd(flags, 0x9F) == flags
    ensures GenPdpePde(addr, false, flags).Word() == PageDown(addr) % 0x10_0000_0000_0000 + flags
  {
    HoldsWord(GenPdpePde(addr, false, flags), addr, false, flags);
  }

  lemma LowPdeWord(addr: U32, flags: U16)
    requires BitAnd(flags, 0x9F) == flags
    ensures GenPdpePde(addr, false, flags).Word() == PageDown(addr) + flags
  {
    PdeWord(addr, flags);
    ModUnique(PageDown(addr), 0x10_0000_0000_0000, 0, PageDown(addr));
  }

  lemma HoldsWord(e: Entry, addr: U64, nx: bool, flags: nat)
    requires e.Valid() && Holds(e, addr, nx, flags)
    ensures e.Word() == PageDown(addr) % 0x10_0000_0000_0000 + flags
                        + (if nx then 0x8000_0000_0000_0000 else 0)
  {
  }

  /** The masks let the flags in use through. */
  lemma LinkFlagsKept()
    ensures BitAnd(0x3, 0x1F) == BitAnd(0x3, 0x19F) == 0x3
  {
  }

  lemma DirectoryFlagsKept()
    ensures BitAnd(0x3, 0x9F) == 0x3 && BitAnd(0x83, 0x9F) == 0x83
  {
    assert BitAnd(0x20, 0x27) == 0x20;
  }
}
