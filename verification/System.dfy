/** Loader and kernel one after the other: boot, mm_init, and the kernel's first peek at the
    framebuffer, on one memory and one memory map. */
module System {
  import opened Machine
  import opened Rounding
  import opened PageWalk
  import opened PageTree
  import opened PeekWindow
  import opened Allocation
  import opened Disk
  import opened Loader
  import opened Boot
  import opened MemoryManager
  import opened HandOff

  /** A peek at [fb, fb + fbSize) answered r. When it succeeded, the window shows the range,
      unless the address has bits the hardware reserves in a large-page entry. */
  ghost predicate WindowOpen(m: seq<U8>, cr3: U64, r: PeekResult, fb: U64, fbSize: U64) {
    r.Peeked? ==> forall v: U64 :: r.virt <= v < r.virt + fbSize ==>
      Walk(m, cr3, v, true)
      == if fb % 0x20_0000 >= 0x2000 then Fault else To((fb + (v - r.virt)) % 0x10_0000_0000_0000)
  }

  /** The bytes of the image are readable from the link address on. */
  ghost predicate ImageVisible(m: seq<U8>, cr3: U64, image: seq<U8>) {
    forall k :: 0 <= k < |image| ==> ReadByte(m, cr3, LINK_ADDRESS + k) == Some(image[k])
  }

  // ------------------------------------------------------------- entry

  /** The lowest frame of the stack window. */
  function StackBase(l: Layout, h: Header): int {
    PageDown(l.end) + 4096 - 4096 * StackPages(h.stackSize)
  }

  /** Image and stack of the right sizes for the windows of the kernel. */
  ghost predicate Sized(image: seq<U8>, stack: seq<U8>, h: Header) {
    |image| == PageUp(h.ImageSize()) && |stack| == 4096 * StackPages(h.stackSize)
  }

  /** Memory m with the image frames holding `image` and the frames of the stack window `stack`. */
  ghost function Entered(m: seq<U8>, image: seq<U8>, stack: seq<U8>, h: Header, l: Layout): (m': seq<U8>)
    requires Placed(l, h) && l.end < ADDRESS_SPACE == |m| && Sized(image, stack, h)
    ensures |m'| == |m|
  {
    StackFits(h, l);
    Splice(Splice(m, l.loadBuf, image), StackBase(l, h), stack)
  }

  method StoreBytes(ram: array<U8>, a: nat, b: seq<U8>)
    requires a + |b| <= ram.Length
    modifies ram
    ensures ram[..] == Splice(old(ram[..]), a, b)
  {
    forall i | 0 <= i < |b| {
      ram[a + i] := b[i];
    }
  }

  /** The kernel's code up to the two calls of `main`, as far as memory goes: whatever it stored
      through its own two windows. It clears .bss, completes its GDT in .data, fills its interrupt
      table and uses its stack; what that leaves there is arbitrary here. */
  method Enter(ram: array<U8>, image: seq<U8>, stack: seq<U8>, data: LongModeData,
               ghost h: Header, ghost l: Layout, ghost d: seq<U64>)
    requires Placed(l, h) && l.end < ADDRESS_SPACE == ram.Length && Sized(image, stack, h)
    requires data.loadBuf == l.loadBuf && data.loadEnd == l.end
    requires OnTree(ram[..], TreeOf(l, h), d)
    modifies ram
    ensures OnTree(ram[..], TreeOf(l, h), d)
    ensures ram[..] == Entered(old(ram[..]), image, stack, h, l)
    ensures ram[l.loadBuf..l.pages] == image
  {
    StackFits(h, l);
    EnteredKeepsTree(ram[..], image, stack, h, l, d);
    StoreBytes(ram, data.loadBuf, image);
    StoreBytes(ram, PageDown(data.loadEnd) + 4096 - |stack|, stack);
  }

  /** Both windows lie beside the tables, and the image below the stack. */
  lemma EnteredKeepsTree(m: seq<U8>, image: seq<U8>, stack: seq<U8>, h: Header, l: Layout, d: seq<U64>)
    requires Placed(l, h) && l.end < ADDRESS_SPACE == |m| && Sized(image, stack, h)
    requires OnTree(m, TreeOf(l, h), d)
    ensures OnTree(Entered(m, image, stack, h, l), TreeOf(l, h), d)
    ensures Entered(m, image, stack, h, l)[l.loadBuf..l.pages] == image
  {
    StackFits(h, l);
    var m' := Splice(m, l.loadBuf, image);
    SpliceOutside(m, l.loadBuf, image);
    WordsBeside(m, m', l.pages, l.loadBuf, l.pages);
    SpliceOutside(m', StackBase(l, h), stack);
    WordsBeside(m', Entered(m, image, stack, h, l), l.pages, StackBase(l, h), StackBase(l, h) + |stack|);
    SpliceBelow(m', StackBase(l, h), stack, l.loadBuf, l.pages);
  }

  lemma SpliceOutside(m: seq<U8>, a: nat, b: seq<U8>)
    requires a + |b| <= |m|
    ensures SameOutside(m, Splice(m, a, b), a, a + |b|)
    ensures Splice(m, a, b)[a..a + |b|] == b
  {
  }

  lemma SpliceBelow(m: seq<U8>, a: nat, b: seq<U8>, lo: nat, hi: nat)
    requires lo <= hi <= a && a + |b| <= |m|
    ensures Splice(m, a, b)[lo..hi] == m[lo..hi]
  {
  }

  // ------------------------------------------------------------- boot

  /** Stage 2 and the kernel's `main`. `handOff` is the memory when stage 2 jumps to the kernel;
      `image` and `stack` are what the kernel's own code makes of its windows before it calls the
      memory manager. */
  method Start(ram: array<U8>, disk: seq<Sector>, memMap: array<Region>, cdromBuf: array<U8>,
               image: seq<U8>, stack: seq<U8>, fb: U64, fbSize: U64)
    returns (loaded: Result, r: PeekResult, freeMem: U64, ghost handOff: seq<U8>, ghost l: Layout, ghost k: int)
    requires ram.Length == ADDRESS_SPACE && memMap.Length < 0x1_0000 && ram != cdromBuf
    requires Searchable(disk, cdromBuf[..])
    requires var file := KernelRecord(disk, cdromBuf[..]);
             file.Some? ==> Loadable(disk, file.value, memMap[..]) && Sized(image, stack, HeaderOf(disk[file.value.extent]))
    modifies ram, cdromBuf, memMap
    ensures var file := old(KernelRecord(disk, cdromBuf[..]));
            loaded.Run? ==>
              && file.Some?
              && var h := HeaderOf(disk[file.value.extent]);
              && Chosen(old(memMap[..]), k, h, l) && l.end < ADDRESS_SPACE == |handOff|
              && FileVisible(handOff, l.pages, disk, file.value.extent, file.value.size)
              && SameOutside(Entered(handOff, image, stack, h, l), ram[..], l.pages + 0x6000, l.pages + 0x7000)
              && ImageVisible(ram[..], l.pages, image)
              && Started(old(memMap[..]), memMap[..], ram[..], k, h, l, loaded.data.peekEntry, r, freeMem, fb, fbSize)
    ensures !loaded.Run? ==> ram[..] == old(ram[..]) && memMap[..] == old(memMap[..])
  {
    r, freeMem, handOff := PageFault, 0, [];
    ghost var file := KernelRecord(disk, cdromBuf[..]);
    loaded, l, k := LoaderMain(ram, disk, memMap, cdromBuf);
    if loaded.Run? {
      ghost var h := HeaderOf(disk[file.value.extent]);
      handOff := ram[..];
      ReadyIsVisible(handOff, disk, file.value.extent, file.value.size, h, l);
      Enter(ram, image, stack, loaded.data, h, l, EmptyWindow());
      r, freeMem := KernelMain(ram, memMap, loaded.data, fb, fbSize, image, h, l, k);
    }
  }

  lemma ReadyIsVisible(m: seq<U8>, disk: seq<Sector>, lba: U32, size: U32, h: Header, l: Layout)
    requires lba + Sectors(size) <= |disk| && size <= PageUp(h.ImageSize()) <= 0x20_0000
    requires Ready(m, disk, lba, size, h, l)
    ensures Sectors(size) == (size + 2047) / 2048
    ensures FileVisible(m, l.pages, disk, lba, size)
  {
    assert Sectors(size) == (size + 2047) / 2048;
    KernelSeesItsFile(m, disk, lba, size, h, l, EmptyWindow());
  }

  /** What the kernel's two calls leave. */
  ghost predicate Started(before: seq<Region>, after: seq<Region>, m: seq<U8>, k: int, h: Header, l: Layout,
                          pde: U64, r: PeekResult, freeMem: U64, fb: U64, fbSize: U64)
  {
    && after == NormalisedAll(before, l.loadBuf, LoadSize(l))
    && OnTree(m, TreeOf(l, h), DirAfter(TreeOf(l, h), EmptyWindow(), pde, false, fb, fbSize))
    && (FreeMap(before) ==>
          (freeMem + LoadSize(l) == 4096 * |FreePages(before, |before|)|
           <==> LoadSize(l) <= 4096 * |FreePages(before, |before|)| && AllTidy(before, k, l, |before|)))
    && r == PeekOutcome(TreeOf(l, h), pde, false, fb, fbSize)
    && WindowOpen(m, l.pages, r, fb, fbSize)
  }

  /** The kernel's `main`: mm_init, then mm_peek at the framebuffer. Only the map and the peek
      directory change, so what the kernel sees of itself does not. */
  method KernelMain(ram: array<U8>, memMap: array<Region>, data: LongModeData, fb: U64, fbSize: U64,
                    ghost image: seq<U8>, ghost h: Header, ghost l: Layout, ghost k: int)
    returns (r: PeekResult, freeMem: U64)
    requires Chosen(memMap[..], k, h, l) && memMap.Length < 0x1_0000
    requires OnTree(ram[..], TreeOf(l, h), EmptyWindow())
    requires |image| == PageUp(h.ImageSize()) && ram[l.loadBuf..l.pages] == image
    requires data.pml4 == l.pages && data.loadBuf == l.loadBuf && data.loadEnd == l.end
    requires data.peekEntry == l.pages + 0x6000
    modifies ram, memMap
    ensures Started(old(memMap[..]), memMap[..], ram[..], k, h, l, data.peekEntry, r, freeMem, fb, fbSize)
    ensures SameOutside(old(ram[..]), ram[..], l.pages + 0x6000, l.pages + 0x7000)
    ensures ImageVisible(ram[..], l.pages, image)
  {
    ghost var rs, t, d, m := memMap[..], TreeOf(l, h), EmptyWindow(), ram[..];
    EntryFields(l.pages, 0);
    var mm := new Manager(ram, data.pml4);
    var c, max;
    c, freeMem, max := mm.Init(data.peekEntry, memMap, data.loadBuf, data.loadEnd);
    r := mm.Peek(false, fb, fbSize, t, d);
    StartedNow(rs, memMap[..], ram[..], h, l, k, data.peekEntry, r, c, freeMem, max, fb, fbSize);
    ImageStaysVisible(m, ram[..], image, h, l, DirAfter(t, d, data.peekEntry, false, fb, fbSize));
  }

  lemma StartedNow(rs: seq<Region>, after: seq<Region>, m: seq<U8>, h: Header, l: Layout, k: int, pde: U64,
                   r: PeekResult, c: nat, freeMem: U64, max: U64, fb: U64, fbSize: U64)
    requires Chosen(rs, k, h, l) && |rs| < 0x1_0000 && after == NormalisedAll(rs, l.loadBuf, LoadSize(l))
    requires Tallied(after, |after|, c, freeMem, max)
    requires pde == TreeOf(l, h).Table(6) && r == PeekOutcome(TreeOf(l, h), pde, false, fb, fbSize)
    requires OnTree(m, TreeOf(l, h), DirAfter(TreeOf(l, h), EmptyWindow(), pde, false, fb, fbSize))
    ensures Started(rs, after, m, k, h, l, pde, r, freeMem, fb, fbSize)
  {
    EntryFields(l.pages, 0);
    if FreeMap(rs) {
      FreeMemoryConserved(rs, k, h, l, freeMem);
    }
    WindowOpened(m, l.pages, TreeOf(l, h), EmptyWindow(), r, fb, fbSize);
  }

  lemma WindowOpened(m: seq<U8>, cr3: U64, t: Tree, dir: seq<U64>, r: PeekResult, fb: U64, fbSize: U64)
    requires |dir| == 512 && Frame(cr3) == t.pages && r == PeekOutcome(t, t.Table(6), false, fb, fbSize)
    requires OnTree(m, t, DirAfter(t, dir, t.Table(6), false, fb, fbSize))
    ensures WindowOpen(m, cr3, r, fb, fbSize)
  {
    if r.Peeked? {
      forall v: U64 | r.virt <= v < r.virt + fbSize
        ensures Walk(m, cr3, v, true)
                == if fb % 0x20_0000 >= 0x2000 then Fault else To((fb + (v - r.virt)) % 0x10_0000_0000_0000)
      {
        WindowByte(m, cr3, t, dir, fb, fbSize, v - r.virt);
      }
    }
  }

  lemma WindowByte(m: seq<U8>, cr3: U64, t: Tree, dir: seq<U64>, fb: U64, fbSize: U64, j: nat)
    requires |dir| == 512 && Frame(cr3) == t.pages && Accepts(fb, fbSize) && j < fbSize
    requires OnTree(m, t, Step(dir, Request(fb, fbSize)))
    ensures Walk(m, cr3, PEEK_ADDRESS + fb % BLOCK_SIZE + j, true)
            == if fb % 0x20_0000 >= 0x2000 then Fault else To((fb + j) % 0x10_0000_0000_0000)
  {
    TreeTranslates(m, cr3, t, Step(dir, Request(fb, fbSize)), PEEK_ADDRESS + fb % BLOCK_SIZE + j, true);
    PeekShowsRange(t, dir, fb, fbSize, j, true);
  }

  lemma ImageStaysVisible(m: seq<U8>, m': seq<U8>, image: seq<U8>, h: Header, l: Layout, d: seq<U64>)
    requires Placed(l, h) && OnTree(m', TreeOf(l, h), d)
    requires SameOutside(m, m', l.pages + 0x6000, l.pages + 0x7000)
    requires |image| == PageUp(h.ImageSize()) && m[l.loadBuf..l.pages] == image
    ensures ImageVisible(m', l.pages, image)
  {
    SameBytes(m, m', l.pages + 0x6000, l.pages + 0x7000);
    EntryFields(l.pages, 0);
    forall k | 0 <= k < |image| ensures ReadByte(m', l.pages, LINK_ADDRESS + k) == Some(image[k]) {
      assert m[l.loadBuf..l.pages][k] == m[l.loadBuf + k];
      ReadKernelByte(m', l.pages, TreeOf(l, h), d, k);
    }
  }
}
