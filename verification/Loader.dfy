/** The loader's `main` from the moment the region is chosen: zero the tables and the stack,
    build the page tables, and copy the kernel file into place. */
module Loader {
  import opened Machine
  import opened Rounding
  import opened PageEntry
  import opened PageTree
  import opened Allocation

  const ADDRESS_SPACE: nat := 0x1_0000_0000

  // --------------------------------------------------------------- zeroing

  /** The byte loop over [lo, hi). Its counter is 32 bits wide: it ends only below 4 GiB. */
  method ZeroRange(ram: array<U8>, lo: U64, hi: U64)
    requires lo <= hi < 0x1_0000_0000 && hi <= ram.Length
    modifies ram
    ensures SameOutside(old(ram[..]), ram[..], lo, hi)
    ensures forall a :: lo <= a < hi ==> ram[a] == 0
  {
    var i: U32 := Wrap32(lo);
    while i < hi
      invariant lo <= i <= hi
      invariant ram[..lo] == old(ram[..lo]) && ram[hi..] == old(ram[hi..])
      invariant forall a :: lo <= a < i ==> ram[a] == 0
    {
      ram[i] := 0;
      i := Wrap32(i + 1);
    }
  }

  // ---------------------------------------------------------------- tables

  /** One assignment to an element of page_tab. */
  method StoreEntry(ram: array<U8>, pages: nat, i: nat, w: U64)
    requires i < TABLE_WORDS && pages + 8 * TABLE_WORDS <= ram.Length
    modifies ram
    ensures Words(ram[..], pages) == old(Words(ram[..], pages))[i := w]
    ensures SameOutside(old(ram[..]), ram[..], pages, pages + 8 * TABLE_WORDS)
  {
    WordsSplice(ram[..], pages, i, w);
    StoreWord(ram, pages + 8 * i, w);
  }

  /** How many frames the two mapping loops map. The bound of the second is unsigned: past
      511 pages it wraps and the loop does not run at all. */
  function StackPages(stackSize: U64): nat {
    if PageCnt(stackSize) <= 511 then PageCnt(stackSize) else 0
  }

  ghost function TreeOf(l: Layout, h: Header): Tree {
    Tree(l.pages, l.loadBuf, PageCnt(h.ImageSize()), PageDown(l.end), StackPages(h.stackSize))
  }

  ghost function EmptyWindow(): (d: seq<U64>)
    ensures Window(d)
  {
    seq(512, _ => 0)
  }

  ghost predicate AllZero(w: seq<nat>) { forall i :: 0 <= i < |w| ==> w[i] == 0 }

  /** The words w are those of tree t. */
  ghost predicate Built(w: seq<nat>, t: Tree, d: seq<U64>) {
    t.Valid() && |d| == 512 && w == t.TreeWords(d)
  }

  method BuildTables(ram: array<U8>, l: Layout, h: Header)
    requires ram.Length == ADDRESS_SPACE
    requires Placed(l, h) && l.end < ADDRESS_SPACE && h.ImageSize() <= 0x20_0000
    requires AllZero(Words(ram[..], l.pages))
    modifies ram
    ensures OnTree(ram[..], TreeOf(l, h), EmptyWindow())
    ensures SameOutside(old(ram[..]), ram[..], l.pages, l.stack)
  {
    ghost var t, d := TreeOf(l, h), EmptyWindow();
    LinkTables(ram, Wrap32(l.pages), t, d);
    MapKernel(ram, l, t, d);
    MapStack(ram, l, h.stackSize, t, d);
  }

  /** page_tab[..][..] = gen_pml4e_pdpe_pte(addr). */
  method StorePointer(ram: array<U8>, pages: nat, i: nat, addr: U32)
    requires i < TABLE_WORDS && pages + 8 * TABLE_WORDS <= ram.Length
    modifies ram
    ensures Words(ram[..], pages) == old(Words(ram[..], pages))[i := PageDown(addr) + 0x3]
    ensures SameOutside(old(ram[..]), ram[..], pages, pages + 8 * TABLE_WORDS)
  {
    var word := GenPml4ePdpePte(addr).Word();
    StoreEntry(ram, pages, i, word);
  }

  /** page_tab[..][..] = gen_pde(addr, big). */
  method StorePde(ram: array<U8>, pages: nat, i: nat, addr: U32, big: U64)
    requires i < TABLE_WORDS && pages + 8 * TABLE_WORDS <= ram.Length
    modifies ram
    ensures Words(ram[..], pages) == old(Words(ram[..], pages))[i := PageDown(addr) + 0x3 + 0x80 * (big % 2)]
    ensures SameOutside(old(ram[..]), ram[..], pages, pages + 8 * TABLE_WORDS)
  {
    var word := GenPde(addr, big).Word();
    StoreEntry(ram, pages, i, word);
  }

  lemma AlignedPlus(a: nat, k: nat)
    requires a % 0x1000 == 0
    ensures (a + 0x1000 * k) % 0x1000 == 0
  {
    ModUnique(a + 0x1000 * k, 0x1000, a / 0x1000 + k, 0);
  }

  lemma SameOffset(a: nat, k: nat)
    requires 0x1000 * k <= a
    ensures (a - 0x1000 * k) % 0x1000 == a % 0x1000
  {
    ModUnique(a - 0x1000 * k, 0x1000, a / 0x1000 - k, a % 0x1000);
  }

  /** Entry i is made to point at table k, &page_tab[k][0]. */
  method StoreLink(ram: array<U8>, p: U32, i: nat, k: nat)
    requires k < 10 && p % 0x1000 == 0 && p + 8 * TABLE_WORDS <= ADDRESS_SPACE
    requires i < TABLE_WORDS && p + 8 * TABLE_WORDS <= ram.Length
    modifies ram
    ensures Words(ram[..], p) == old(Words(ram[..], p))[i := p + 0x1000 * k + 0x3]
    ensures SameOutside(old(ram[..]), ram[..], p, p + 8 * TABLE_WORDS)
  {
    AlignedPlus(p, k);
    StorePointer(ram, p, i, p + 0x1000 * k);
  }

  /** The same inside a page directory. */
  method StoreDirectoryLink(ram: array<U8>, p: U32, i: nat, k: nat)
    requires k < 10 && p % 0x1000 == 0 && p + 8 * TABLE_WORDS <= ADDRESS_SPACE
    requires i < TABLE_WORDS && p + 8 * TABLE_WORDS <= ram.Length
    modifies ram
    ensures Words(ram[..], p) == old(Words(ram[..], p))[i := p + 0x1000 * k + 0x3]
    ensures SameOutside(old(ram[..]), ram[..], p, p + 8 * TABLE_WORDS)
  {
    AlignedPlus(p, k);
    StorePde(ram, p, i, p + 0x1000 * k, 0);
  }

  /** The ten links between the tables. */
  method LinkTables(ram: array<U8>, p: U32, ghost t: Tree, ghost d: seq<U64>)
    requires t.Valid() && t.pages == p && p + 8 * TABLE_WORDS <= ram.Length
    requires d == EmptyWindow()
    requires AllZero(Words(ram[..], p))
    modifies ram
    ensures Built(Words(ram[..], p), t.(kernelPages := 0, stackPages := 0), d)
    ensures SameOutside(old(ram[..]), ram[..], p, p + 8 * TABLE_WORDS)
  {
    ghost var z := Words(ram[..], p);
    StoreLink(ram, p, PML4E + 511, 1);
    StoreLink(ram, p, PML4E + 256, 2);
    StoreLink(ram, p, PML4E + 0, 3);

    StoreLink(ram, p, PDPE_T + 510, 4);
    StoreLink(ram, p, PDPE_T + 511, 5);
    StoreLink(ram, p, PDPE_M + 0, 6);
    StoreLink(ram, p, PDPE_B + 0, 7);

    StoreDirectoryLink(ram, p, PDE_KER + 0, 8);
    StorePde(ram, p, PDE_LOW + 0, 0, 1);
    StoreDirectoryLink(ram, p, PDE_STA + 511, 9);
    LinksBuilt(z, t, d);
  }

  lemma LinksBuilt(z: seq<nat>, t: Tree, d: seq<U64>)
    requires t.Valid() && d == EmptyWindow()
    requires |z| == TABLE_WORDS && AllZero(z)
    ensures Built(z[PML4E + 511 := t.Table(1) + 0x3][PML4E + 256 := t.Table(2) + 0x3][PML4E + 0 := t.Table(3) + 0x3]
                   [PDPE_T + 510 := t.Table(4) + 0x3][PDPE_T + 511 := t.Table(5) + 0x3][PDPE_M + 0 := t.Table(6) + 0x3]
                   [PDPE_B + 0 := t.Table(7) + 0x3][PDE_KER + 0 := t.Table(8) + 0x3][PDE_LOW + 0 := 0x83]
                   [PDE_STA + 511 := t.Table(9) + 0x3], t.(kernelPages := 0, stackPages := 0), d)
  {
  }

  /** PTE_KER: one frame after another from load_buf on. */
  method MapKernel(ram: array<U8>, l: Layout, ghost t: Tree, ghost d: seq<U64>)
    requires t.Valid() && t.pages == l.pages && t.loadBuf == l.loadBuf && l.pages + 8 * TABLE_WORDS <= ram.Length
    requires l.loadBuf <= l.pages && PageCnt(l.pages - l.loadBuf) == t.kernelPages
    requires Built(Words(ram[..], l.pages), t.(kernelPages := 0, stackPages := 0), d)
    modifies ram
    ensures Built(Words(ram[..], l.pages), t.(stackPages := 0), d)
    ensures SameOutside(old(ram[..]), ram[..], l.pages, l.pages + 8 * TABLE_WORDS)
  {
    ghost var done := t.(kernelPages := 0, stackPages := 0);
    var i: U32 := 0;
    while i < PageCnt(l.pages - l.loadBuf)
      invariant 0 <= i <= t.kernelPages && done == t.(kernelPages := i, stackPages := 0)
      invariant SameOutside(old(ram[..]), ram[..], l.pages, l.pages + 8 * TABLE_WORDS)
      invariant Built(Words(ram[..], l.pages), done, d)
    {
      KernelStep(Words(ram[..], l.pages), done, d);
      StoreKernelEntry(ram, l.pages, l.loadBuf, i);
      done := done.(kernelPages := done.kernelPages + 1);
      i := i + 1;
    }
    assert done == t.(stackPages := 0);
  }

  /** The entry for frame i of the image; the pointer arithmetic is 32 bits wide. */
  method StoreKernelEntry(ram: array<U8>, pages: nat, loadBuf: U64, i: U32)
    requires loadBuf % 4096 == 0 && i < 512 && loadBuf + 4096 * i < ADDRESS_SPACE
    requires pages + 8 * TABLE_WORDS <= ram.Length
    modifies ram
    ensures Words(ram[..], pages) == old(Words(ram[..], pages))[PTE_KER + i := loadBuf + 0x1000 * i + 0x3]
    ensures SameOutside(old(ram[..]), ram[..], pages, pages + 8 * TABLE_WORDS)
  {
    var tmp := Wrap32(Wrap32(loadBuf) + Wrap32(i * 4096));
    AlignedPlus(loadBuf, i);
    StorePointer(ram, pages, PTE_KER + i, tmp);
  }

  lemma KernelStep(w: seq<nat>, t: Tree, d: seq<U64>)
    requires Built(w, t, d) && t.kernelPages < 512 && t.(kernelPages := t.kernelPages + 1).Valid()
    ensures Built(w[PTE_KER + t.kernelPages := t.loadBuf + 0x1000 * t.kernelPages + 0x3],
                  t.(kernelPages := t.kernelPages + 1), d)
  {
  }

  /** PTE_STA: frames downwards from the one at the end of the layout. */
  method MapStack(ram: array<U8>, l: Layout, stackSize: U64, ghost t: Tree, ghost d: seq<U64>)
    requires t.Valid() && t.pages == l.pages && l.pages + 8 * TABLE_WORDS <= ram.Length
    requires l.end < ADDRESS_SPACE && t.stackTop == PageDown(l.end) && t.stackPages == StackPages(stackSize)
    requires Built(Words(ram[..], l.pages), t.(stackPages := 0), d)
    modifies ram
    ensures Built(Words(ram[..], l.pages), t, d)
    ensures SameOutside(old(ram[..]), ram[..], l.pages, l.pages + 8 * TABLE_WORDS)
  {
    ghost var done := t.(stackPages := 0);
    var i: U32 := 511;
    while i > Wrap64(511 - PageCnt(stackSize))
      invariant 511 - t.stackPages <= i <= 511 && done == t.(stackPages := 511 - i)
      invariant SameOutside(old(ram[..]), ram[..], l.pages, l.pages + 8 * TABLE_WORDS)
      invariant Built(Words(ram[..], l.pages), done, d)
    {
      StackStep(Words(ram[..], l.pages), done, d);
      StoreStackEntry(ram, l.pages, l.end, i);
      done := done.(stackPages := done.stackPages + 1);
      i := i - 1;
    }
    assert done == t;
  }

  /** The entry at index i of the stack table. The topmost one, 511, is for the page at `end`
      itself, the first address after the layout. */
  method StoreStackEntry(ram: array<U8>, pages: nat, end: U64, i: U32)
    requires i <= 511 && 4096 * (511 - i) <= end < ADDRESS_SPACE
    requires pages + 8 * TABLE_WORDS <= ram.Length
    modifies ram
    ensures Words(ram[..], pages) == old(Words(ram[..], pages))[PTE_STA + i := PageDown(end) - 0x1000 * (511 - i) + 0x3]
    ensures SameOutside(old(ram[..]), ram[..], pages, pages + 8 * TABLE_WORDS)
  {
    var tmp := Wrap32(Wrap32(end) - Wrap32((511 - i) * 4096));
    SameOffset(end, 511 - i);
    assert PageDown(tmp) == PageDown(end) - 0x1000 * (511 - i);
    StorePointer(ram, pages, PTE_STA + i, tmp);
  }

  lemma StackStep(w: seq<nat>, t: Tree, d: seq<U64>)
    requires Built(w, t, d) && t.(stackPages := t.stackPages + 1).Valid()
    ensures Built(w[PTE_STA + 511 - t.stackPages := t.stackTop - 0x1000 * t.stackPages + 0x3],
                  t.(stackPages := t.stackPages + 1), d)
  {
  }
}
