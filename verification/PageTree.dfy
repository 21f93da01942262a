/** What the page tables built by the loader mean: ten tables of 512 words, and the one
    partial function on virtual addresses that a page walk over them computes. */
module PageTree {
  import opened Machine
  import opened PageWalk

  const LINK_ADDRESS: U64 := 0xFFFF_FFFF_8000_0000
  const PEEK_ADDRESS: U64 := 0xFFFF_8000_0000_0000

  // Positions of the ten tables, in words from the first.
  const PML4E := 0 * 512
  const PDPE_T := 1 * 512
  const PDPE_M := 2 * 512
  const PDPE_B := 3 * 512
  const PDE_KER := 4 * 512
  const PDE_STA := 5 * 512
  const PDE_MID := 6 * 512
  const PDE_LOW := 7 * 512
  const PTE_KER := 8 * 512
  const PTE_STA := 9 * 512
  const TABLE_WORDS := 10 * 512

  /** Where the tables are and what they map: kernelPages frames from loadBuf on, and the
      stackPages frames that end with the one at stackTop. */
  datatype Tree = Tree(pages: nat, loadBuf: nat, kernelPages: nat, stackTop: nat, stackPages: nat)
  {
    ghost predicate Valid() {
      && pages % 0x1000 == loadBuf % 0x1000 == stackTop % 0x1000 == 0
      && pages + 8 * TABLE_WORDS <= 0x1_0000_0000
      && kernelPages <= 512 && loadBuf + 0x1000 * kernelPages <= 0x1_0000_0000
      && stackPages <= 511 && 0x1000 * stackPages <= stackTop < 0x1_0000_0000
    }

    /** Table k of the ten. */
    function Table(k: nat): nat { pages + 0x1000 * k }

    /** Word i of the ten tables, given the 512 words of the peek directory PDE_MID. */
    function TreeWord(dir: seq<U64>, i: nat): nat
      requires |dir| == 512
      requires 0x1000 * stackPages <= stackTop
    {
      if i == PML4E + 511 then Table(1) + 0x3
      else if i == PML4E + 256 then Table(2) + 0x3
      else if i == PML4E + 0 then Table(3) + 0x3
      else if i == PDPE_T + 510 then Table(4) + 0x3
      else if i == PDPE_T + 511 then Table(5) + 0x3
      else if i == PDPE_M + 0 then Table(6) + 0x3
      else if i == PDPE_B + 0 then Table(7) + 0x3
      else if i == PDE_KER + 0 then Table(8) + 0x3
      else if i == PDE_LOW + 0 then 0x83
      else if i == PDE_STA + 511 then Table(9) + 0x3
      else if PDE_MID <= i < PDE_MID + 512 then dir[i - PDE_MID]
      else if PTE_KER <= i < PTE_KER + kernelPages then loadBuf + 0x1000 * (i - PTE_KER) + 0x3
      else if PTE_STA + 511 - stackPages < i < TABLE_WORDS then stackTop - 0x1000 * (TABLE_WORDS - 1 - i) + 0x3
      else 0
    }

    ghost function TreeWords(dir: seq<U64>): (w: seq<nat>)
      requires |dir| == 512
      requires 0x1000 * stackPages <= stackTop
      ensures |w| == TABLE_WORDS
    {
      seq(TABLE_WORDS, i requires 0 <= i < TABLE_WORDS => TreeWord(dir, i))
    }

    /** Where virtual address v leads. Nothing else is mapped. */
    function View(dir: seq<U64>, v: U64, strict: bool): Translation
      requires |dir| == 512
      requires 0x1000 * stackPages <= stackTop
    {
      if v < 0x20_0000 then To(v)
      else if PEEK_ADDRESS <= v < PEEK_ADDRESS + 0x4000_0000 then
        WindowView(dir[(v - PEEK_ADDRESS) / 0x20_0000], v, strict)
      else if LINK_ADDRESS <= v < LINK_ADDRESS + 0x1000 * kernelPages then To(loadBuf + (v - LINK_ADDRESS))
      else if v >= 0x1_0000_0000_0000_0000 - 0x1000 * stackPages then
        To(stackTop + 0x1000 - (0x1_0000_0000_0000_0000 - v))
      else Fault
    }
  }

  /** What a peek-directory word does to an address inside its 2 MiB block. */
  function WindowView(w: U64, v: U64, strict: bool): Translation {
    if !Present(w) || (strict && LargeReserved(w)) then Fault
    else To(LargeFrame(w) + v % 0x20_0000)
  }

  /** A peek directory holds absent entries and large pages, no links to further tables. */
  ghost predicate Window(dir: seq<U64>) {
    |dir| == 512 && forall i :: 0 <= i < 512 ==> !Present(dir[i]) || Large(dir[i])
  }

  /** Word i of the tables at address `pages`, and all of them. */
  function TableWord(m: seq<U8>, pages: nat, i: nat): U64
    requires i < TABLE_WORDS && pages + 8 * TABLE_WORDS <= |m|
  {
    WordAt(m, pages + 8 * i)
  }

  ghost function Words(m: seq<U8>, pages: nat): (w: seq<nat>)
    requires pages + 8 * TABLE_WORDS <= |m|
    ensures |w| == TABLE_WORDS
  {
    seq(TABLE_WORDS, i requires 0 <= i < TABLE_WORDS => TableWord(m, pages, i))
  }

  /** Memory m holds tree t with peek directory dir. */
  ghost predicate OnTree(m: seq<U8>, t: Tree, dir: seq<U64>) {
    && t.Valid() && Window(dir)
    && t.pages + 8 * TABLE_WORDS <= |m|
    && Words(m, t.pages) == t.TreeWords(dir)
  }

  /** A store to one word of the tables changes that word only. */
  lemma WordsSplice(m: seq<U8>, pages: nat, i: nat, w: U64)
    requires i < TABLE_WORDS && pages + 8 * TABLE_WORDS <= |m|
    ensures var m' := Splice(m, pages + 8 * i, ToLE(w, 8));
            && Words(m', pages) == Words(m, pages)[i := w]
            && SameOutside(m, m', pages + 8 * i, pages + 8 * i + 8)
  {
    SpliceWord(m, pages + 8 * i, w);
  }

  /** Changing memory beside the tables leaves them alone. */
  lemma WordsBeside(m: seq<U8>, m': seq<U8>, pages: nat, lo: nat, hi: nat)
    requires pages + 8 * TABLE_WORDS <= |m| && SameOutside(m, m', lo, hi)
    requires hi <= pages || pages + 8 * TABLE_WORDS <= lo
    ensures Words(m', pages) == Words(m, pages)
  {
    SameBytes(m, m', lo, hi);
    forall i | 0 <= i < TABLE_WORDS ensures TableWord(m', pages, i) == TableWord(m, pages, i) {
      var a := pages + 8 * i;
      assert m'[a..a + 8] == m[a..a + 8];
    }
  }

  // -------------------------------------------------------------- the walk

  /** Fetching entry e of table k of the tree. */
  lemma FetchEntry(m: seq<U8>, t: Tree, dir: seq<U64>, k: nat, e: nat)
    requires OnTree(m, t, dir) && k < 10 && e < 512
    ensures Fetch(m, t.Table(k), e) == Some(t.TreeWord(dir, 512 * k + e))
  {
    assert Words(m, t.pages)[512 * k + e] == t.TreeWords(dir)[512 * k + e];
  }

  /** A link to table k names that table and is neither large nor absent. */
  lemma LinkFields(t: Tree, k: nat)
    requires t.Valid() && k < 10
    ensures Frame(t.Table(k) + 0x3) == t.Table(k)
    ensures Present(t.Table(k) + 0x3) && !Large(t.Table(k) + 0x3)
  {
    EntryFields(t.Table(k), 0x3);
  }

  /** Every entry that is present is writable, as the kernel runs its data and stack through them. */
  lemma EntriesWritable(t: Tree, dir: seq<U64>, i: nat)
    requires t.Valid() && |dir| == 512 && i < TABLE_WORDS
    requires forall j :: 0 <= j < 512 && Present(dir[j]) ==> Writable(dir[j])
    ensures Present(t.TreeWord(dir, i)) ==> Writable(t.TreeWord(dir, i))
  {
    if PTE_KER <= i < PTE_KER + t.kernelPages {
      AlignedWord(t.loadBuf, i - PTE_KER);
    } else if PTE_STA + 511 - t.stackPages < i {
      AlignedWord(t.stackTop - 0x1000 * (TABLE_WORDS - 1 - i), 0);
    } else {
      forall k: nat | k < 10 ensures Writable(t.Table(k) + 0x3) {
        AlignedWord(t.pages, k);
      }
    }
  }

  lemma AlignedWord(a: nat, k: nat)
    requires a % 0x1000 == 0 && k < 512 && a <= 0x1_0000_0000
    ensures Writable(a + 0x1000 * k + 0x3)
  {
    var q := a / 0x1000;
    ModUnique(a + 0x1000 * k + 0x3, 2, 0x800 * (q + k) + 1, 1);
    ModUnique(0x800 * (q + k) + 1, 2, 0x400 * (q + k), 1);
  }

  /** Which PML4 slot serves which canonical addresses. */
  lemma Slots(v: U64)
    requires Canonical(v)
    ensures v / 0x80_0000_0000 % 512 == 0 <==> v < 0x80_0000_0000
    ensures v / 0x80_0000_0000 % 512 == 256 <==> PEEK_ADDRESS <= v < PEEK_ADDRESS + 0x80_0000_0000
    ensures v / 0x80_0000_0000 % 512 == 511 <==> v >= 0xFFFF_FF80_0000_0000
  {
    var s := v / 0x80_0000_0000;
    if v < 0x8000_0000_0000 {
      assert s < 256;
    } else {
      assert 0x200_0000 - 256 <= s < 0x200_0000;
      assert s % 512 == s - (0x200_0000 - 512);
    }
  }

  /** A table index depends on the offset from any boundary of the level above. */
  lemma IndexFromBase(base: nat, o: nat, s: nat, q: nat)
    requires s > 0 && base == s * (512 * q)
    ensures (base + o) / s % 512 == o / s % 512
  {
    var u, r := o / s, o % s;
    assert base + o == s * (512 * q) + s * u + r == s * (512 * q + u) + r;
    ModUnique(base + o, s, 512 * q + u, r);
    ModUnique(512 * q + u, 512, q + u / 512, u % 512);
  }

  /** The indices of offset o in each of the upper windows. */
  lemma PeekIndices(o: nat)
    requires o < 0x80_0000_0000
    ensures (PEEK_ADDRESS + o) / 0x4000_0000 % 512 == o / 0x4000_0000 < 512
    ensures o < 0x4000_0000 ==> (PEEK_ADDRESS + o) / 0x20_0000 % 512 == o / 0x20_0000 < 512
  {
    IndexFromBase(PEEK_ADDRESS, o, 0x4000_0000, 0x1FF_FF00);
    IndexFromBase(PEEK_ADDRESS, o, 0x20_0000, 0x3_FFFE_0000);
  }

  lemma TopIndex(o: nat)
    requires o < 0x80_0000_0000
    ensures (0xFFFF_FF80_0000_0000 + o) / 0x4000_0000 % 512 == o / 0x4000_0000 < 512
  {
    IndexFromBase(0xFFFF_FF80_0000_0000, o, 0x4000_0000, 0x1FF_FFFF);
  }

  lemma KernelIndices(o: nat)
    requires o < 0x4000_0000
    ensures (LINK_ADDRESS + o) / 0x20_0000 % 512 == o / 0x20_0000 < 512
    ensures o < 0x20_0000 ==> (LINK_ADDRESS + o) / 0x1000 % 512 == o / 0x1000 < 512
    ensures (LINK_ADDRESS + o) % 0x1000 == o % 0x1000
  {
    IndexFromBase(LINK_ADDRESS, o, 0x20_0000, 0x3_FFFF_FFFE);
    IndexFromBase(LINK_ADDRESS, o, 0x1000, 0x7FF_FFFF_FC00);
    ModUnique(LINK_ADDRESS + o, 0x1000, LINK_ADDRESS / 0x1000 + o / 0x1000, o % 0x1000);
  }

  lemma StackIndices(o: nat)
    requires o < 0x4000_0000
    ensures (0xFFFF_FFFF_C000_0000 + o) / 0x20_0000 % 512 == o / 0x20_0000 < 512
    ensures o >= 0x3FE0_0000 ==>
              (0xFFFF_FFFF_C000_0000 + o) / 0x1000 % 512 == (o - 0x3FE0_0000) / 0x1000 < 512
    ensures (0xFFFF_FFFF_C000_0000 + o) % 0x1000 == o % 0x1000
  {
    IndexFromBase(0xFFFF_FFFF_C000_0000, o, 0x20_0000, 0x3_FFFF_FFFF);
    if o >= 0x3FE0_0000 {
      IndexFromBase(0xFFFF_FFFF_FFE0_0000, o - 0x3FE0_0000, 0x1000, 0x7FF_FFFF_FFFF);
    }
    ModUnique(0xFFFF_FFFF_C000_0000 + o, 0x1000, 0xF_FFFF_FFFC_0000 + o / 0x1000, o % 0x1000);
  }

  /** The tables compute exactly View, for every virtual address and whatever other bits
      cr3 has besides the address of the first table. */
  lemma TreeTranslates(m: seq<U8>, cr3: U64, t: Tree, dir: seq<U64>, v: U64, strict: bool)
    requires OnTree(m, t, dir) && Frame(cr3) == t.pages
    ensures Walk(m, cr3, v, strict) == t.View(dir, v, strict)
  {
    if Canonical(v) {
      Slots(v);
      FetchEntry(m, t, dir, 0, v / 0x80_0000_0000 % 512);
      if v < 0x80_0000_0000 {
        LinkFields(t, 3);
        LowTranslates(m, t, dir, v, strict);
      } else if PEEK_ADDRESS <= v < PEEK_ADDRESS + 0x80_0000_0000 {
        LinkFields(t, 2);
        MiddleTranslates(m, t, dir, v, strict);
      } else if v >= 0xFFFF_FF80_0000_0000 {
        LinkFields(t, 1);
        TopTranslates(m, t, dir, v, strict);
      }
    }
  }

  /** The kernel's window. */
  lemma KernelWindow(t: Tree, dir: seq<U64>, k: nat, strict: bool)
    requires t.Valid() && |dir| == 512 && k < 0x1000 * t.kernelPages
    ensures t.View(dir, LINK_ADDRESS + k, strict) == To(t.loadBuf + k)
  {
  }

  /** Slot 0 of the PML4: one identity-mapped large page. */
  lemma LowTranslates(m: seq<U8>, t: Tree, dir: seq<U64>, v: U64, strict: bool)
    requires OnTree(m, t, dir) && v < 0x80_0000_0000
    ensures WalkPdpt(m, t.Table(3), v, strict) == t.View(dir, v, strict)
  {
    var i := v / 0x4000_0000;
    assert v / 0x4000_0000 % 512 == i;
    FetchEntry(m, t, dir, 3, i);
    if i == 0 {
      LinkFields(t, 7);
      LowDirectoryTranslates(m, t, dir, v, strict);
    }
  }

  lemma LowDirectoryTranslates(m: seq<U8>, t: Tree, dir: seq<U64>, v: U64, strict: bool)
    requires OnTree(m, t, dir) && v < 0x4000_0000
    ensures WalkDirectory(m, t.Table(7), v, strict) == t.View(dir, v, strict)
  {
    var i := v / 0x20_0000;
    assert v / 0x20_0000 % 512 == i;
    FetchEntry(m, t, dir, 7, i);
  }

  /** Slot 256 of the PML4: the peek window. */
  lemma MiddleTranslates(m: seq<U8>, t: Tree, dir: seq<U64>, v: U64, strict: bool)
    requires OnTree(m, t, dir) && PEEK_ADDRESS <= v < PEEK_ADDRESS + 0x80_0000_0000
    ensures WalkPdpt(m, t.Table(2), v, strict) == t.View(dir, v, strict)
  {
    var o := v - PEEK_ADDRESS;
    PeekIndices(o);
    FetchEntry(m, t, dir, 2, o / 0x4000_0000);
    if o < 0x4000_0000 {
      LinkFields(t, 6);
      FetchEntry(m, t, dir, 6, o / 0x20_0000);
    }
  }

  /** Slot 511 of the PML4: kernel window and stack window. */
  lemma TopTranslates(m: seq<U8>, t: Tree, dir: seq<U64>, v: U64, strict: bool)
    requires OnTree(m, t, dir) && v >= 0xFFFF_FF80_0000_0000
    ensures WalkPdpt(m, t.Table(1), v, strict) == t.View(dir, v, strict)
  {
    var o := v - 0xFFFF_FF80_0000_0000;
    TopIndex(o);
    FetchEntry(m, t, dir, 1, o / 0x4000_0000);
    if o / 0x4000_0000 == 510 {
      LinkFields(t, 4);
      KernelTranslates(m, t, dir, v, strict);
    } else if o / 0x4000_0000 == 511 {
      LinkFields(t, 5);
      StackTranslates(m, t, dir, v, strict);
    }
  }

  lemma KernelTranslates(m: seq<U8>, t: Tree, dir: seq<U64>, v: U64, strict: bool)
    requires OnTree(m, t, dir) && LINK_ADDRESS <= v < LINK_ADDRESS + 0x4000_0000
    ensures WalkDirectory(m, t.Table(4), v, strict) == t.View(dir, v, strict)
  {
    KernelIndices(v - LINK_ADDRESS);
    FetchEntry(m, t, dir, 4, (v - LINK_ADDRESS) / 0x20_0000);
    if v < LINK_ADDRESS + 0x20_0000 {
      LinkFields(t, 8);
      KernelTableTranslates(m, t, dir, v - LINK_ADDRESS);
    }
  }

  lemma KernelTableTranslates(m: seq<U8>, t: Tree, dir: seq<U64>, o: nat)
    requires OnTree(m, t, dir) && o < 0x20_0000
    ensures WalkTable(m, t.Table(8), LINK_ADDRESS + o) == if o < 0x1000 * t.kernelPages then To(t.loadBuf + o) else Fault
  {
    KernelIndices(o);
    var e := o / 0x1000;
    FetchEntry(m, t, dir, 8, e);
    if e < t.kernelPages {
      EntryFields(t.loadBuf + 0x1000 * e, 0x3);
    }
  }

  lemma StackTranslates(m: seq<U8>, t: Tree, dir: seq<U64>, v: U64, strict: bool)
    requires OnTree(m, t, dir) && v >= 0xFFFF_FFFF_C000_0000
    ensures WalkDirectory(m, t.Table(5), v, strict) == t.View(dir, v, strict)
  {
    StackIndices(v - 0xFFFF_FFFF_C000_0000);
    FetchEntry(m, t, dir, 5, (v - 0xFFFF_FFFF_C000_0000) / 0x20_0000);
    if v >= 0xFFFF_FFFF_FFE0_0000 {
      LinkFields(t, 9);
      StackTableTranslates(m, t, dir, v - 0xFFFF_FFFF_FFE0_0000);
    }
  }

  lemma StackTableTranslates(m: seq<U8>, t: Tree, dir: seq<U64>, o: nat)
    requires OnTree(m, t, dir) && o < 0x20_0000
    ensures WalkTable(m, t.Table(9), 0xFFFF_FFFF_FFE0_0000 + o)
            == if o >= 0x20_0000 - 0x1000 * t.stackPages then To(t.stackTop + 0x1000 - (0x20_0000 - o)) else Fault
  {
    StackIndices(0x3FE0_0000 + o);
    var e := o / 0x1000;
    FetchEntry(m, t, dir, 9, e);
    if e > 511 - t.stackPages {
      EntryFields(t.stackTop - 0x1000 * (511 - e), 0x3);
    }
  }
}
