/** The loader's choice of a RAM region for the kernel and the carving of that region. */
module Allocation {
  import opened Machine
  import opened Rounding

  /** One E820 memory-map entry. The second field is a union: the length the BIOS gave,
      and later the end address the kernel's memory manager stores over it. */
  datatype Region = Region(base: U64, lenOrEnd: U64, kind: U32, attrs: U32)

  const FREE_RAM: U32 := 1
  const LOW_MEMORY: U64 := 0x10_0000

  /** The kernel image's own header, at the start of its file. */
  datatype Header = Header(start: U64, stext: U64, etext: U64, sdata: U64, edata: U64,
                           srodata: U64, erodata: U64, sbss: U64, ebss: U64, stackSize: U64)
  {
    function ImageSize(): U64 { Wrap64(ebss - stext) }
  }

  function HeaderOf(file: seq<U8>): Header
    requires |file| >= 80
  {
    Header(WordAt(file, 0), WordAt(file, 8), WordAt(file, 16), WordAt(file, 24), WordAt(file, 32),
           WordAt(file, 40), WordAt(file, 48), WordAt(file, 56), WordAt(file, 64), WordAt(file, 72))
  }

  /** Image, ten page tables and stack, one after the other. */
  datatype Layout = Layout(loadBuf: U64, pages: U64, stack: U64, end: U64)

  /** The bytes the loader asks for: everything it lays out plus two spare pages. */
  function Needed(h: Header): nat { h.ImageSize() + h.stackSize + 12 * 4096 }

  predicate Fits(r: Region, total: nat) {
    r.kind == FREE_RAM && r.base >= LOW_MEMORY && r.lenOrEnd >= total
  }

  predicate FirstFit(memMap: seq<Region>, total: nat, k: int) {
    && 0 <= k < |memMap| && Fits(memMap[k], total)
    && forall j :: 0 <= j < k ==> !Fits(memMap[j], total)
  }

  /** In plain numbers: a type field of 1, a base of 1 MiB or above, enough bytes, and no such entry
      before. */
  lemma FirstFitMeans(rs: seq<Region>, total: nat, k: int)
    ensures FirstFit(rs, total, k)
            <==> && 0 <= k < |rs| && rs[k].kind == 1 && rs[k].base >= 0x10_0000 && rs[k].lenOrEnd >= total
                 && forall j :: 0 <= j < k ==> rs[j].kind != 1 || rs[j].base < 0x10_0000 || rs[j].lenOrEnd < total
  {
  }

  /** A file that starts with these ten words, in the order of the kernel's own table, is read as
      them; its image goes from stext to ebss, and 48 KiB are asked for on top of image and stack. */
  lemma HeaderDecodes(file: seq<U8>, start: U64, stext: U64, etext: U64, sdata: U64, edata: U64,
                      srodata: U64, erodata: U64, sbss: U64, ebss: U64, stackSize: U64)
    requires |file| >= 80
    requires file[..80] == LittleWords([start, stext, etext, sdata, edata, srodata, erodata, sbss, ebss, stackSize])
    ensures HeaderOf(file) == Header(start, stext, etext, sdata, edata, srodata, erodata, sbss, ebss, stackSize)
    ensures HeaderOf(file).ImageSize() == (ebss - stext) % 0x1_0000_0000_0000_0000
    ensures Needed(HeaderOf(file)) == (ebss - stext) % 0x1_0000_0000_0000_0000 + stackSize + 0xC000
  {
    var ws := [start, stext, etext, sdata, edata, srodata, erodata, sbss, ebss, stackSize];
    assert file[0..0 + 8 * 10] == file[..80];
    forall k | 0 <= k < 10 ensures WordAt(file, 8 * k) == ws[k] {
      WordsOf(file, 0, ws, k);
    }
    assert WordAt(file, 8 * 0) == start && WordAt(file, 8 * 1) == stext && WordAt(file, 8 * 2) == etext;
    assert WordAt(file, 8 * 3) == sdata && WordAt(file, 8 * 4) == edata && WordAt(file, 8 * 5) == srodata;
    assert WordAt(file, 8 * 6) == erodata && WordAt(file, 8 * 7) == sbss && WordAt(file, 8 * 8) == ebss;
    assert WordAt(file, 8 * 9) == stackSize;
  }

  /** Layout l starts at the rounded base of region r; the sums are 64 bits wide. */
  predicate LaidOut(l: Layout, r: Region, h: Header) {
    && l.loadBuf == PageUp(r.base)
    && l.pages == Wrap64(l.loadBuf + PageUp(h.ImageSize()))
    && l.stack == Wrap64(l.pages + 10 * 4096)
    && l.end == Wrap64(l.stack + h.stackSize)
  }

  /** The part of `main` that sizes, first-fits and carves. `k` is the entry taken. */
  method Allocate(memMap: array<Region>, h: Header) returns (r: Option<Layout>, ghost k: int)
    requires memMap.Length < 0x1_0000
    ensures r.None? ==> forall i | FirstFit(memMap[..], Wrap32(Needed(h)), i) :: PageUp(memMap[i].base) == 0
    ensures r.Some? ==>
              && FirstFit(memMap[..], Wrap32(Needed(h)), k)
              && LaidOut(r.value, memMap[k], h) && r.value.loadBuf != 0
    ensures r.Some? ==> memMap[k].kind == 1 && memMap[k].base >= 0x10_0000
    ensures forall i | FirstFit(memMap[..], Wrap32(Needed(h)), i) && PageUp(memMap[i].base) != 0 :: r.Some? && k == i
  {
    var totalSize: U32 := Wrap32(Wrap64(h.ImageSize() + h.stackSize));
    totalSize := Wrap32(totalSize + 10 * 4096);
    var buf: U64 := 0;
    totalSize := Wrap32(totalSize + 4096 * 2);
    assert totalSize == Wrap32(Needed(h)) by { TotalWraps(h.ImageSize(), h.stackSize); }
    k := -1;
    var i := 0;
    while i < memMap.Length
      invariant 0 <= i <= memMap.Length
      invariant buf == 0
      invariant forall j :: 0 <= j < i ==> !Fits(memMap[j], totalSize)
    {
      if memMap[i].kind != FREE_RAM {
        i := i + 1;
        continue;
      }
      if memMap[i].base < LOW_MEMORY {
        i := i + 1;
        continue;
      }
      if memMap[i].lenOrEnd >= totalSize {
        buf := PageUp(memMap[i].base);
        k := i;
        break;
      }
      i := i + 1;
    }
    if buf == 0 {
      return None, k;
    }
    var loadBuf := buf;
    buf := Wrap64(buf + PageUp(h.ImageSize()));
    var pages := buf;
    buf := Wrap64(buf + 10 * 4096);
    var stack := buf;
    buf := Wrap64(buf + h.stackSize);
    r := Some(Layout(loadBuf, pages, stack, buf));
  }

  lemma TotalWraps(a: U64, b: U64)
    ensures Wrap32(Wrap32(Wrap32(Wrap64(a + b)) + 10 * 4096) + 4096 * 2) == Wrap32(a + b + 12 * 4096)
  {
    WrapTwice(a + b);
    WrapSteps(a + b, 10 * 4096);
    WrapSteps(a + b + 10 * 4096, 2 * 4096);
  }

  // ------------------------------------------------------------- guarantees

  /** What the rest of the loader relies on. */
  ghost predicate Placed(l: Layout, h: Header) {
    && l.loadBuf % 4096 == 0 && l.loadBuf >= LOW_MEMORY
    && l.pages == l.loadBuf + PageUp(h.ImageSize())
    && l.stack == l.pages + 10 * 4096
    && l.end == l.stack + h.stackSize
  }

  /** Without wrap-around the two spare pages pay for both roundings, so the layout ends
      inside the region; how much is left over is exact. */
  lemma LayoutFits(r: Region, h: Header, l: Layout)
    requires Needed(h) < 0x1_0000_0000 && Fits(r, Needed(h))
    requires r.base + Needed(h) <= 0x1_0000_0000_0000_0000 && LaidOut(l, r, h)
    ensures Placed(l, h) && r.base <= l.loadBuf
    ensures l.end + 2 * 4096 == r.base + Needed(h) + Pad(r.base) + Pad(h.ImageSize())
    ensures l.end <= r.base + r.lenOrEnd
    ensures h.ImageSize() % 4096 == 0 ==> l.end + 4096 <= r.base + r.lenOrEnd
  {
  }

  /** Whatever the 32-bit total says, the layout ends inside the accepted region exactly when
      the bytes really needed and the two roundings fit. */
  lemma LayoutFitsExactly(r: Region, h: Header, l: Layout)
    requires Fits(r, Wrap32(Needed(h)))
    requires r.base + Needed(h) < 0x1_0000_0000_0000_0000
    requires LaidOut(l, r, h)
    ensures l.end <= r.base + r.lenOrEnd
            <==> Needed(h) + Pad(r.base) + Pad(h.ImageSize()) <= r.lenOrEnd + 2 * 4096
    ensures Needed(h) < 0x1_0000_0000 ==> l.end <= r.base + r.lenOrEnd
  {
  }

  /** Past 4 GiB the total wraps, and the loader accepts a region that cannot hold the kernel. */
  lemma WrappedTotalOverruns()
    ensures var h := Header(0, 0, 0, 0, 0, 0, 0, 0, 0x1000, 0xFFFF_3000);
            var r := Region(0x10_0000, 0x1000, FREE_RAM, 1);
            Fits(r, Wrap32(Needed(h))) && Needed(h) + Pad(r.base) + Pad(h.ImageSize()) > r.lenOrEnd + 2 * 4096
  {
  }
}
