/** The loader's `main` as a whole: find the kernel on the disk, choose and carve a region,
    build the page tables and load the file behind them. */
module Boot {
  import opened Machine
  import opened Rounding
  import opened PageWalk
  import opened PageTree
  import opened Allocation
  import opened Disk
  import opened Iso9660
  import opened Loader

  /** "POTATO.BIN". */
  const KERNEL_NAME: seq<U8> := [0x50, 0x4F, 0x54, 0x41, 0x54, 0x4F, 0x2E, 0x42, 0x49, 0x4E]

  // ------------------------------------------------------------- sector loads

  /** Sectors read for a file; the rounding up wraps within 2 KiB of 4 GiB. */
  function Sectors(loadSize: U32): nat { Wrap32(loadSize + 2047) / 2048 }

  /** The first n sectors of the file are in memory from loadBuf on. */
  ghost predicate SectorsLoaded(m: seq<U8>, disk: seq<Sector>, lba: nat, loadBuf: nat, n: nat)
    requires lba + n <= |disk| && loadBuf + 2048 * n <= |m|
  {
    forall k :: 0 <= k < 2048 * n ==> m[loadBuf + k] == FileByte(disk, lba, k)
  }

  /** The load loop. Whole sectors are written, so the last may overshoot the file. */
  method LoadKernel(ram: array<U8>, disk: seq<Sector>, lba: U32, loadSize: U32, loadBuf: U64)
    requires |disk| <= 0x1_0000_0000 && lba + Sectors(loadSize) <= |disk|
    requires loadBuf + 2048 * Sectors(loadSize) <= ram.Length <= ADDRESS_SPACE
    modifies ram
    ensures SameOutside(old(ram[..]), ram[..], loadBuf, loadBuf + 2048 * Sectors(loadSize))
    ensures SectorsLoaded(ram[..], disk, lba, loadBuf, Sectors(loadSize))
  {
    var loadSizeSec := Wrap32(loadSize + 2047) / 2048;
    var i: U32 := 0;
    while i < loadSizeSec
      invariant 0 <= i <= loadSizeSec
      invariant SameOutside(old(ram[..]), ram[..], loadBuf, loadBuf + 2048 * i)
      invariant SectorsLoaded(ram[..], disk, lba, loadBuf, i)
    {
      ghost var m := ram[..];
      LoadSector(ram, disk, lba, loadBuf, i);
      SectorLoaded(disk, lba, m, ram[..], loadBuf, i);
      i := i + 1;
    }
  }

  /** One turn of the loop; address and sector number are 32 bits wide. */
  method LoadSector(ram: array<U8>, disk: seq<Sector>, lba: U32, loadBuf: U64, i: U32)
    requires lba + i < |disk| <= 0x1_0000_0000
    requires loadBuf + 2048 * (i + 1) <= ram.Length <= ADDRESS_SPACE
    modifies ram
    ensures ram[..] == Splice(old(ram[..]), loadBuf + 2048 * i, disk[lba + i])
  {
    var at := Wrap32(Wrap32(loadBuf) + Wrap32(i * 2048));
    var _ := ReadSector(disk, Wrap32(lba + i), ram, at);
  }

  /** One more sector behind those already loaded. */
  lemma SectorLoaded(disk: seq<Sector>, lba: nat, m: seq<U8>, m': seq<U8>, loadBuf: nat, i: nat)
    requires lba + i < |disk| && loadBuf + 2048 * (i + 1) <= |m|
    requires m' == Splice(m, loadBuf + 2048 * i, disk[lba + i])
    requires SectorsLoaded(m, disk, lba, loadBuf, i)
    ensures m'[..loadBuf] == m[..loadBuf] && m'[loadBuf + 2048 * (i + 1)..] == m[loadBuf + 2048 * (i + 1)..]
    ensures SectorsLoaded(m', disk, lba, loadBuf, i + 1)
  {
    forall k | 0 <= k < 2048 * (i + 1) ensures m'[loadBuf + k] == FileByte(disk, lba, k) {
      if k < 2048 * i {
        assert m'[loadBuf + k] == m[loadBuf + k];
      } else {
        ModUnique(k, 2048, i, k - 2048 * i);
      }
    }
  }

  /** The sector writes stay clear of the page tables exactly when the file is no longer than
      the image rounded up to pages, or so long that the sector count wraps to 0. */
  lemma LoadsClearOfTables(l: Layout, h: Header, loadSize: U32)
    requires Placed(l, h)
    ensures l.loadBuf + 2048 * Sectors(loadSize) <= l.pages
            <==> loadSize <= PageUp(h.ImageSize()) || loadSize > 0x1_0000_0000 - 2048
  {
    if loadSize > 0x1_0000_0000 - 2048 {
      assert Wrap32(loadSize + 2047) == loadSize + 2047 - 0x1_0000_0000;
    } else {
      WholeSectors(loadSize, PageUp(h.ImageSize()) / 4096);
    }
  }

  lemma WholeSectors(s: nat, p: nat)
    ensures 2048 * ((s + 2047) / 2048) <= 4096 * p <==> s <= 4096 * p
  {
    var n, r := (s + 2047) / 2048, (s + 2047) % 2048;
    assert s + 2047 == 2048 * n + r;
    assert n <= 2 * p <==> s <= 2048 * (2 * p);
  }

  // -------------------------------------------------------------- the medium

  /** What `main` needs of the disk and the memory map, and does not check. */
  ghost predicate Searchable(disk: seq<Sector>, buf: seq<U8>) {
    && |disk| <= 0x1_0000_0000 && |buf| >= 2048
    && (buf[..2048][0] == PVD_SIGNATURE || HasDescriptor(disk, PVD_START))
    && var pvd := Descriptor(disk, buf[..2048]);
       WalksSectors(disk, buf[2048..], RootLba(pvd), RootSectors(pvd), KERNEL_NAME)
  }

  ghost function KernelRecord(disk: seq<Sector>, buf: seq<U8>): Option<Record>
    requires Searchable(disk, buf)
  {
    var pvd := Descriptor(disk, buf[..2048]);
    Lookup(disk, buf[2048..], RootLba(pvd), RootSectors(pvd), KERNEL_NAME)
  }

  ghost predicate Loadable(disk: seq<Sector>, file: Record, memMap: seq<Region>) {
    && file.extent < |disk| && file.extent + Sectors(file.size) <= |disk|
    && var h := HeaderOf(disk[file.extent]);
    // the kernel's own linker script bounds the image to 2 MiB
    && h.ImageSize() <= 0x20_0000 && file.size <= PageUp(h.ImageSize())
    && Needed(h) < 0x1_0000_0000
    && forall k :: FirstFit(memMap, Needed(h), k) ==> EndsBelow4G(memMap[k], h)
  }

  /** The layout made in region r ends below 4 GiB; the region itself may reach past it. */
  predicate EndsBelow4G(r: Region, h: Header) {
    r.base + Needed(h) + Pad(r.base) + Pad(h.ImageSize()) < ADDRESS_SPACE + 2 * 4096
  }

  lemma PlacedBelow4G(r: Region, h: Header, l: Layout)
    requires Needed(h) < 0x1_0000_0000 && Fits(r, Needed(h)) && EndsBelow4G(r, h) && LaidOut(l, r, h)
    ensures Placed(l, h) && l.end < ADDRESS_SPACE
  {
    LayoutFits(r, h, l);
  }

  /** What is handed to the kernel, apart from the screen and disk parameters. */
  datatype LongModeData = LongModeData(start: U64, pml4: U64, loadBuf: U64, loadEnd: U64, peekEntry: U64)

  datatype Result = KernelNotFound | OutOfMemory | Run(data: LongModeData)

  /** Memory m is ready for the kernel: tables, file and zeroed stack are in place. */
  ghost predicate Ready(m: seq<U8>, disk: seq<Sector>, lba: U32, size: U32, h: Header, l: Layout)
    requires lba + Sectors(size) <= |disk|
  {
    && |m| == ADDRESS_SPACE && Placed(l, h) && l.end < ADDRESS_SPACE
    && OnTree(m, TreeOf(l, h), EmptyWindow())
    && l.loadBuf + 2048 * Sectors(size) <= l.pages
    && SectorsLoaded(m, disk, lba, l.loadBuf, Sectors(size))
    && (forall a :: l.stack <= a < l.end ==> m[a] == 0)
  }

  // ----------------------------------------------------------------- main

  method LoaderMain(ram: array<U8>, disk: seq<Sector>, memMap: array<Region>, cdromBuf: array<U8>)
    returns (r: Result, ghost l: Layout, ghost k: int)
    requires ram.Length == ADDRESS_SPACE && memMap.Length < 0x1_0000 && ram != cdromBuf
    requires Searchable(disk, cdromBuf[..])
    requires var file := KernelRecord(disk, cdromBuf[..]);
             file.Some? ==> Loadable(disk, file.value, memMap[..])
    modifies ram, cdromBuf
    ensures var file := old(KernelRecord(disk, cdromBuf[..]));
            match r {
              case KernelNotFound => file.None? && ram[..] == old(ram[..])
              case OutOfMemory =>
                && file.Some? && ram[..] == old(ram[..])
                && forall i :: !FirstFit(memMap[..], Needed(HeaderOf(disk[file.value.extent])), i)
              case Run(data) =>
                && file.Some?
                && var h := HeaderOf(disk[file.value.extent]);
                && FirstFit(memMap[..], Needed(h), k) && l.loadBuf == PageUp(memMap[k].base)
                && Ready(ram[..], disk, file.value.extent, file.value.size, h, l)
                && SameOutside(old(ram[..]), ram[..], l.loadBuf, l.end)
                && data == LongModeData(h.start, l.pages, l.loadBuf, l.end, l.pages + 6 * 0x1000)
            }
  {
    l, k := Layout(0, 0, 0, 0), -1;
    var kernelLba, loadSize, h := FindKernel(disk, cdromBuf);
    if kernelLba == 0 {
      return KernelNotFound, l, k;
    }
    var layout;
    layout, k := PlaceKernel(ram, disk, memMap, kernelLba, loadSize, h);
    if layout.None? {
      return OutOfMemory, l, k;
    }
    l := layout.value;
    r := Run(LongModeData(h.start, layout.value.pages, layout.value.loadBuf, layout.value.end,
                     Wrap32(layout.value.pages + 6 * 0x1000)));
  }

  /** Search and header: `lba` is 0 when there is no kernel. */
  method FindKernel(disk: seq<Sector>, cdromBuf: array<U8>) returns (lba: U32, size: U32, h: Header)
    requires Searchable(disk, cdromBuf[..])
    requires var file := KernelRecord(disk, cdromBuf[..]); file.Some? ==> file.value.extent < |disk|
    modifies cdromBuf
    ensures var file := old(KernelRecord(disk, cdromBuf[..]));
            if file.None? then lba == 0
            else lba == file.value.extent != 0 && size == file.value.size && h == HeaderOf(disk[lba])
  {
    assert cdromBuf[..][..2048] == cdromBuf[..2048] && cdromBuf[..][2048..] == cdromBuf[2048..];
    lba, size := CdromSearch(disk, KERNEL_NAME, 0, cdromBuf);
    if lba != 0 {
      ReadBuffer(disk, lba, cdromBuf);
    }
    h := HeaderOf(cdromBuf[..2048]);
  }

  /** A region for the kernel, and the kernel in it; None when no region is large enough. */
  method PlaceKernel(ram: array<U8>, disk: seq<Sector>, memMap: array<Region>, lba: U32, size: U32, h: Header)
    returns (layout: Option<Layout>, ghost k: int)
    requires ram.Length == ADDRESS_SPACE && |disk| <= 0x1_0000_0000 && memMap.Length < 0x1_0000
    requires lba + Sectors(size) <= |disk|
    requires h.ImageSize() <= 0x20_0000 && size <= PageUp(h.ImageSize()) && Needed(h) < 0x1_0000_0000
    requires forall i :: FirstFit(memMap[..], Needed(h), i) ==> EndsBelow4G(memMap[i], h)
    modifies ram
    ensures layout.None? ==> ram[..] == old(ram[..]) && forall i :: !FirstFit(memMap[..], Needed(h), i)
    ensures layout.Some? ==>
              && FirstFit(memMap[..], Needed(h), k) && layout.value.loadBuf == PageUp(memMap[k].base)
              && Ready(ram[..], disk, lba, size, h, layout.value)
              && SameOutside(old(ram[..]), ram[..], layout.value.loadBuf, layout.value.end)
  {
    layout, k := Allocate(memMap, h);
    if layout.Some? {
      PlacedBelow4G(memMap[k], h, layout.value);
      Prepare(ram, disk, lba, size, h, layout.value);
    }
  }

  /** From the carved region to memory the kernel can run in. */
  method Prepare(ram: array<U8>, disk: seq<Sector>, lba: U32, size: U32, h: Header, l: Layout)
    requires ram.Length == ADDRESS_SPACE && |disk| <= 0x1_0000_0000
    requires lba + Sectors(size) <= |disk|
    requires Placed(l, h) && l.end < ADDRESS_SPACE
    requires h.ImageSize() <= 0x20_0000 && size <= PageUp(h.ImageSize())
    modifies ram
    ensures Ready(ram[..], disk, lba, size, h, l)
    ensures SameOutside(old(ram[..]), ram[..], l.loadBuf, l.end)
  {
    ghost var m0 := ram[..];
    ZeroRange(ram, l.pages, l.end);
    ghost var m1 := ram[..];
    forall i | 0 <= i < TABLE_WORDS ensures TableWord(m1, l.pages, i) == 0 {
      ZeroWord(m1, l.pages + 8 * i);
    }
    BuildTables(ram, l, h);
    ghost var m2 := ram[..];
    LoadsClearOfTables(l, h, size);
    SameBytes(m1, m2, l.pages, l.stack);
    LoadKernel(ram, disk, lba, size, l.loadBuf);
    SameBytes(m2, ram[..], l.loadBuf, l.loadBuf + 2048 * Sectors(size));
    WordsBeside(m2, ram[..], l.pages, l.loadBuf, l.loadBuf + 2048 * Sectors(size));
  }

  // ------------------------------------------------------------- guarantees

  /** The kernel's view of a ready memory: every virtual address leads where View says. */
  lemma ReadyTranslates(m: seq<U8>, disk: seq<Sector>, lba: U32, size: U32, h: Header, l: Layout, strict: bool)
    requires lba + Sectors(size) <= |disk| && Ready(m, disk, lba, size, h, l)
    ensures forall v :: Walk(m, l.pages, v, strict) == TreeOf(l, h).View(EmptyWindow(), v, strict)
  {
    var t := TreeOf(l, h);
    EntryFields(l.pages, 0);
    forall v ensures Walk(m, l.pages, v, strict) == t.View(EmptyWindow(), v, strict) {
      TreeTranslates(m, l.pages, t, EmptyWindow(), v, strict);
    }
  }

  /** The stack is all zeros when the kernel starts. */
  lemma ReadyStackZero(m: seq<U8>, disk: seq<Sector>, lba: U32, size: U32, h: Header, l: Layout, a: nat)
    requires lba + Sectors(size) <= |disk| && Ready(m, disk, lba, size, h, l)
    requires l.pages + 10 * 4096 <= a < l.pages + 10 * 4096 + h.stackSize
    ensures a < |m| && m[a] == 0
  {
  }

  /** The same in plain numbers, for every virtual address: the first 2 MiB as they are, the image
      from stext to ebss at its link address, the stack down from the top, whole pages each, and
      nothing else. A stack of more than 511 pages is not mapped at all. */
  lemma WalkExactly(m: seq<U8>, h: Header, l: Layout, v: U64, strict: bool)
    requires OnTree(m, TreeOf(l, h), EmptyWindow())
    ensures Walk(m, l.pages, v, strict)
            == if v < 0x20_0000 then To(v)
               else if 0xFFFF_FFFF_8000_0000 <= v < 0xFFFF_FFFF_8000_0000 + PageUp((h.ebss - h.stext) % 0x1_0000_0000_0000_0000)
               then To(l.loadBuf + (v - 0xFFFF_FFFF_8000_0000))
               else if PageUp(h.stackSize) <= 511 * 4096 && v >= 0x1_0000_0000_0000_0000 - PageUp(h.stackSize)
               then To(l.end - l.end % 4096 + 4096 - (0x1_0000_0000_0000_0000 - v))
               else Fault
  {
    EntryFields(l.pages, 0);
    TreeTranslates(m, l.pages, TreeOf(l, h), EmptyWindow(), v, strict);
    WholePages(PageUp(h.ImageSize()));
    WholePages(PageUp(h.stackSize));
  }

  lemma WholePages(x: nat)
    requires x % 4096 == 0
    ensures 0x1000 * (x / 4096) == x
  {
  }

  /** The file is readable, byte for byte, from the link address on. */
  ghost predicate FileVisible(m: seq<U8>, cr3: U64, disk: seq<Sector>, lba: nat, size: nat)
    requires lba + (size + 2047) / 2048 <= |disk|
  {
    forall k :: 0 <= k < size ==> ReadByte(m, cr3, LINK_ADDRESS + k) == Some(FileByte(disk, lba, k))
  }

  /** With the tree in place, whatever its peek directory, and the file behind load_buf, the
      kernel sees its file at its link address. */
  lemma KernelSeesItsFile(m: seq<U8>, disk: seq<Sector>, lba: U32, size: U32, h: Header, l: Layout, d: seq<U64>)
    requires lba + (size + 2047) / 2048 <= |disk| && size <= PageUp(h.ImageSize())
    requires Placed(l, h) && OnTree(m, TreeOf(l, h), d) && l.loadBuf + size <= |m|
    requires forall k :: 0 <= k < size ==> m[l.loadBuf + k] == FileByte(disk, lba, k)
    ensures FileVisible(m, l.pages, disk, lba, size)
  {
    EntryFields(l.pages, 0);
    forall k | 0 <= k < size ensures ReadByte(m, l.pages, LINK_ADDRESS + k) == Some(FileByte(disk, lba, k)) {
      ReadKernelByte(m, l.pages, TreeOf(l, h), d, k);
    }
  }

  lemma ReadKernelByte(m: seq<U8>, cr3: U64, t: Tree, d: seq<U64>, k: nat)
    requires OnTree(m, t, d) && Frame(cr3) == t.pages && k < 0x1000 * t.kernelPages && t.loadBuf + k < |m|
    ensures ReadByte(m, cr3, LINK_ADDRESS + k) == Some(m[t.loadBuf + k])
  {
    KernelTranslation(m, cr3, t, d, k);
  }

  lemma KernelTranslation(m: seq<U8>, cr3: U64, t: Tree, d: seq<U64>, k: nat)
    requires OnTree(m, t, d) && Frame(cr3) == t.pages && k < 0x1000 * t.kernelPages
    ensures Walk(m, cr3, LINK_ADDRESS + k, true) == To(t.loadBuf + k)
  {
    TreeTranslates(m, cr3, t, d, LINK_ADDRESS + k, true);
    KernelWindow(t, d, k, true);
  }
}
