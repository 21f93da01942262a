/** From the loader to the kernel: what mm_init makes of the memory map in which stage 2
    placed the kernel. */
module HandOff {
  import opened Machine
  import opened Rounding
  import opened PageWalk
  import opened PageTree
  import opened Allocation
  import opened Loader
  import opened PeekWindow
  import opened MemoryManager

  // ------------------------------------------------------------ hypotheses

  predicate Apart(r: Region, s: Region) {
    r.base + r.lenOrEnd <= s.base || s.base + s.lenOrEnd <= r.base
  }

  /** Within the 52 bits of a physical address. */
  predicate InReach(r: Region) { r.base + r.lenOrEnd <= 0x10_0000_0000_0000 }

  predicate Free(rs: seq<Region>, i: int) { 0 <= i < |rs| && rs[i].kind == FREE_RAM }

  /** The free entries are within reach and disjoint. Nothing is asked of other entries, of the
      order, or of how much a free entry holds. */
  ghost predicate FreeMap(rs: seq<Region>) {
    && (forall i :: Free(rs, i) ==> InReach(rs[i]))
    && (forall i, j :: Free(rs, i) && Free(rs, j) && i != j ==> Apart(rs[i], rs[j]))
  }

  /** Stage 2 took entry k of the map for image h and laid it out as l. */
  ghost predicate Chosen(rs: seq<Region>, k: int, h: Header, l: Layout) {
    && Needed(h) < 0x1_0000_0000 && FirstFit(rs, Needed(h), k)
    && Placed(l, h) && l.loadBuf == PageUp(rs[k].base)
  }

  function LoadSize(l: Layout): U64 { Wrap64(PageUp(l.end) - l.loadBuf) }

  /** A region that lies inside one page and touches neither of its bounds. */
  predicate Sliver(r: Region) { PageUp(r.base) > r.base + r.lenOrEnd }

  /** A region that contains a whole page. */
  predicate Roomy(r: Region) { PageUp(r.base) + 4096 <= r.base + r.lenOrEnd }

  // ------------------------------------------------------------- roundings

  /** A page boundary is below x exactly when it is below x rounded down. */
  lemma BelowPageDown(b: nat, x: U64)
    requires b % 4096 == 0
    ensures b <= PageDown(x) <==> b <= x
  {
    var p, q := b / 4096, x / 4096;
    assert PageDown(x) == 4096 * q && b == 4096 * p;
  }

  lemma AbovePageUp(b: nat, x: U64)
    requires b % 4096 == 0 && x <= 0x1_0000_0000_0000_0000 - 4096
    ensures x <= b <==> PageUp(x) <= b
  {
    var p, q := b / 4096, PageUp(x) / 4096;
    assert b == 4096 * p && PageUp(x) == 4096 * q;
  }

  lemma SamePad(x: U64, y: U64, m: nat)
    requires m % 4096 == 0 && x == m + y
    ensures Pad(x) == Pad(y)
  {
    ModUnique(x, 4096, m / 4096 + y / 4096, y % 4096);
  }

  // ------------------------------------------------------------- the carve

  /** Where the carve ends, with all three roundings. */
  lemma CarveEnd(rs: seq<Region>, k: int, h: Header, l: Layout)
    requires Chosen(rs, k, h, l) && InReach(rs[k])
    ensures LOW_MEMORY <= rs[k].base <= l.loadBuf < l.end <= PageUp(l.end) && Roomy(rs[k])
    ensures l.end <= rs[k].base + rs[k].lenOrEnd && PageUp(l.end) == l.end + Pad(h.stackSize)
    ensures LoadSize(l) == PageUp(l.end) - l.loadBuf < 0x1_0000_4000
    ensures PageUp(l.end) + 2 * 4096 == rs[k].base + Needed(h) + Pad(rs[k].base) + Pad(h.ImageSize()) + Pad(h.stackSize)
  {
    LayoutFits(rs[k], h, l);
    SamePad(l.end, h.stackSize, l.stack);
  }

  /** The carve in mm_init compares page-rounded bases, and does not look at the kind. It hits
      every entry that starts in the page that ends at load_buf: the one stage 2 chose, and of
      those apart from it the ones that lie below it there. None of these has a whole page. */
  lemma CarvesChosenOnly(rs: seq<Region>, k: int, h: Header, l: Layout, i: nat)
    requires Chosen(rs, k, h, l) && InReach(rs[k]) && i < |rs|
    ensures PageUp(rs[i].base) == l.loadBuf <==> l.loadBuf < rs[i].base + 4096 && rs[i].base <= l.loadBuf
    ensures i != k && Apart(rs[i], rs[k]) ==>
              (PageUp(rs[i].base) == l.loadBuf
               <==> l.loadBuf < rs[i].base + 4096 && rs[i].base + rs[i].lenOrEnd <= rs[k].base)
    ensures i != k && Apart(rs[i], rs[k]) && Roomy(rs[i]) ==> PageUp(rs[i].base) != l.loadBuf
  {
    CarveEnd(rs, k, h, l);
    if rs[i].base <= 0x1_0000_0000_0000_0000 - 4096 {
      AbovePageUp(l.loadBuf, rs[i].base);
      AbovePageUp(l.loadBuf - 4096, rs[i].base);
      SamePage(PageUp(rs[i].base), l.loadBuf);
    }
  }

  /** Page boundaries are a page apart. */
  lemma SamePage(a: nat, b: nat)
    requires a % 4096 == 0 && b % 4096 == 0
    ensures a == b <==> b - 4096 < a <= b
  {
    var p, q := a / 4096, b / 4096;
    assert a == 4096 * p && b == 4096 * q;
  }

  /** The carved entry keeps base <= end exactly when what the two spare pages leave over
      covers all three roundings; a page-multiple image or stack is enough. */
  lemma CarvedIntervalValid(rs: seq<Region>, k: int, h: Header, l: Layout)
    requires Chosen(rs, k, h, l) && InReach(rs[k])
    ensures var r := Normalised(rs[k], l.loadBuf, LoadSize(l));
            && r.base == PageUp(l.end)
            && (r.base <= r.lenOrEnd <==> CutFits(rs[k], h))
    ensures h.ImageSize() % 4096 == 0 || h.stackSize % 4096 == 0 ==> CutFits(rs[k], h)
  {
    CarveEnd(rs, k, h, l);
    BelowPageDown(PageUp(l.end), rs[k].base + rs[k].lenOrEnd);
  }

  predicate CutFits(r: Region, h: Header) {
    Pad(r.base) + Pad(h.ImageSize()) + Pad(h.stackSize) + Needed(h) <= 2 * 4096 + r.lenOrEnd
  }

  /** The condition can fail: with base, image and stack all unaligned, mm_init leaves the
      chosen entry with its base behind its end. */
  lemma CutBehindRegion()
    ensures var r := Region(0x10_0001, 0xD002, FREE_RAM, 1);
            var h := Header(0, 0, 0, 0, 0, 0, 0, 0, 0x1001, 1);
            var l := Layout(0x10_1000, 0x10_3000, 0x10_D000, 0x10_D001);
            && FreeMap([r]) && Chosen([r], 0, h, l)
            && Normalised(r, l.loadBuf, LoadSize(l)) == Region(0x10_E000, 0x10_D000, FREE_RAM, 1)
  {
    var rs := [Region(0x10_0001, 0xD002, FREE_RAM, 1)];
    assert forall i :: Free(rs, i) ==> i == 0;
  }

  /** Hand-off safety, entry by entry and for any kind: exactly when an interval is in order after
      mm_init, and that it then lies in the region it came from and keeps clear of all the loader
      placed. */
  lemma IntervalSafe(rs: seq<Region>, k: int, h: Header, l: Layout, i: nat)
    requires Chosen(rs, k, h, l) && i < |rs| && InReach(rs[k]) && InReach(rs[i])
    requires i != k ==> Apart(rs[i], rs[k])
    ensures var r := Normalised(rs[i], l.loadBuf, LoadSize(l));
            && (r.base <= r.lenOrEnd
                <==> if i == k then CutFits(rs[k], h) else !Sliver(rs[i]) && PageUp(rs[i].base) != l.loadBuf)
            && (r.base <= r.lenOrEnd ==>
                  && rs[i].base <= r.base && r.lenOrEnd <= rs[i].base + rs[i].lenOrEnd
                  && (r.lenOrEnd <= l.loadBuf || PageUp(l.end) <= r.base))
  {
    CarveEnd(rs, k, h, l);
    CarvesChosenOnly(rs, k, h, l, i);
    if i == k {
      CarvedIntervalValid(rs, k, h, l);
    } else {
      BelowPageDown(PageUp(rs[i].base), rs[i].base + rs[i].lenOrEnd);
      AbovePageUp(PageUp(rs[i].base), l.end);
    }
  }

  /** A reserved entry in the page before load_buf is cut as well: its base moves behind its end. */
  lemma ReservedCut()
    ensures var rs := [Region(0x1F_F800, 0x800, 2, 1), Region(0x20_0000, 0xE000, FREE_RAM, 1)];
            var h := Header(0, 0, 0, 0, 0, 0, 0, 0, 0x1000, 0x1000);
            var l := Layout(0x20_0000, 0x20_1000, 0x20_B000, 0x20_C000);
            && FreeMap(rs) && Chosen(rs, 1, h, l)
            && Normalised(rs[0], l.loadBuf, LoadSize(l)) == Region(0x20_C000, 0x20_0000, 2, 1)
  {
    TwoEntries(Region(0x1F_F800, 0x800, 2, 1));
    assert PageUp(0x1F_F800) == 0x20_0000 == PageDown(0x20_0000);
  }

  /** A map of two entries of which stage 2 takes the second, at 2 MiB. */
  lemma TwoEntries(r: Region)
    requires r.base + r.lenOrEnd <= 0x20_0000 && r.lenOrEnd < 0xE000
    ensures var rs := [r, Region(0x20_0000, 0xE000, FREE_RAM, 1)];
            var h := Header(0, 0, 0, 0, 0, 0, 0, 0, 0x1000, 0x1000);
            var l := Layout(0x20_0000, 0x20_1000, 0x20_B000, 0x20_C000);
            FreeMap(rs) && Chosen(rs, 1, h, l) && LoadSize(l) == 0xC000
  {
    var rs := [r, Region(0x20_0000, 0xE000, FREE_RAM, 1)];
    assert forall i :: Free(rs, i) ==> i == 0 || i == 1;
    assert PageUp(0x1000) == 0x1000;
  }

  // ------------------------------------------------------------- safety

  /** Page p (its first address) is free in entry r of the normalised map. */
  predicate FreeIn(r: Region, p: nat) { Counted(r) && r.base <= p && p + 4096 <= r.lenOrEnd }

  /** Page p lies whole in a free region that starts, page-rounded, at 1 MiB or above. */
  predicate WholePageOf(r: Region, p: nat) {
    r.kind == FREE_RAM && PageUp(r.base) >= LOW_MEMORY && r.base <= p && p + 4096 <= r.base + r.lenOrEnd
  }

  /** The page boundaries of a region, before any cut. */
  lemma WholePageRounded(r: Region, p: nat)
    requires InReach(r) && p % 4096 == 0
    ensures r.base <= p <==> PageUp(r.base) <= p
    ensures p + 4096 <= r.base + r.lenOrEnd <==> p + 4096 <= PageDown(r.base + r.lenOrEnd)
  {
    BelowPageDown(p + 4096, r.base + r.lenOrEnd);
    AbovePageUp(p, r.base);
  }

  /** The chosen entry, normalised, frees exactly its whole pages outside the carve. */
  lemma ChosenPages(rs: seq<Region>, k: int, h: Header, l: Layout, p: nat)
    requires Chosen(rs, k, h, l) && InReach(rs[k]) && p % 4096 == 0
    ensures FreeIn(Normalised(rs[k], l.loadBuf, LoadSize(l)), p)
            <==> WholePageOf(rs[k], p) && !(l.loadBuf <= p < PageUp(l.end))
  {
    CarveEnd(rs, k, h, l);
    WholePageRounded(rs[k], p);
  }

  /** An entry of the map, normalised, frees exactly its whole pages outside the carve. */
  lemma EntryPages(rs: seq<Region>, k: int, h: Header, l: Layout, i: nat, p: nat)
    requires FreeMap(rs) && Chosen(rs, k, h, l) && i < |rs| && p % 4096 == 0
    ensures FreeIn(Normalised(rs[i], l.loadBuf, LoadSize(l)), p)
            <==> WholePageOf(rs[i], p) && !(l.loadBuf <= p < PageUp(l.end))
  {
    assert Free(rs, k);
    if i == k {
      ChosenPages(rs, k, h, l, p);
    } else if rs[i].kind == FREE_RAM {
      assert Free(rs, i);
      OtherPages(rs, k, h, l, i, p);
    }
  }

  lemma OtherPages(rs: seq<Region>, k: int, h: Header, l: Layout, i: nat, p: nat)
    requires FreeMap(rs) && Chosen(rs, k, h, l) && Free(rs, i) && i != k && p % 4096 == 0
    ensures FreeIn(Normalised(rs[i], l.loadBuf, LoadSize(l)), p) <==> WholePageOf(rs[i], p)
    ensures WholePageOf(rs[i], p) ==> !(l.loadBuf <= p < PageUp(l.end))
  {
    assert Free(rs, k) && Apart(rs[i], rs[k]) && InReach(rs[i]);
    IntervalSafe(rs, k, h, l, i);
    WholePageRounded(rs[i], p);
    CarvesChosenOnly(rs, k, h, l, i);
    CarveEnd(rs, k, h, l);
    AbovePageUp(p, l.end);
  }

  /** Nothing of the loaded image is handed out, and no other whole page of a region that is
      counted is lost: the pages free after mm_init are those of the free regions that start,
      page-rounded, at 1 MiB or above, less the carve. */
  lemma FreePagesExact(rs: seq<Region>, k: int, h: Header, l: Layout, p: nat)
    requires FreeMap(rs) && Chosen(rs, k, h, l) && p % 4096 == 0
    ensures var after := NormalisedAll(rs, l.loadBuf, LoadSize(l));
            (exists i :: 0 <= i < |after| && FreeIn(after[i], p))
            <==> (exists i :: 0 <= i < |rs| && WholePageOf(rs[i], p)) && !(l.loadBuf <= p < PageUp(l.end))
  {
    var after := NormalisedAll(rs, l.loadBuf, LoadSize(l));
    forall i | 0 <= i < |rs|
      ensures FreeIn(after[i], p) <==> WholePageOf(rs[i], p) && !(l.loadBuf <= p < PageUp(l.end))
    {
      EntryPages(rs, k, h, l, i, p);
    }
  }

  /** A free region that starts below 1 MiB is not counted at all: what of it lies above 1 MiB is
      lost. [0xF0000, 0x2F0000) contains the page at 1 MiB, and it is not free afterwards. */
  lemma StraddlingRegionLost(r: Region, l: Layout, p: nat)
    requires PageUp(r.base) < LOW_MEMORY <= l.loadBuf
    ensures !FreeIn(Normalised(r, l.loadBuf, LoadSize(l)), p)
    ensures var low := Region(0xF_0000, 0x20_0000, FREE_RAM, 1);
            && PageUp(low.base) < LOW_MEMORY && low.base <= LOW_MEMORY && LOW_MEMORY + 4096 <= low.base + low.lenOrEnd
  {
  }

  // ------------------------------------------------------------- conservation

  /** The numbers of the whole pages of a counted region, and of all of the first n. */
  ghost function PagesOf(r: Region): set<nat> {
    set p: nat | p < 0x100_0000_0000 && WholePageOf(r, 4096 * p)
  }

  ghost function FreePages(rs: seq<Region>, n: nat): set<nat>
    requires n <= |rs|
  {
    set p: nat | p < 0x100_0000_0000 && exists i :: 0 <= i < n && WholePageOf(rs[i], 4096 * p)
  }

  /** The integers from lo up to hi. */
  ghost function Interval(lo: nat, hi: nat): (s: set<nat>)
    requires lo <= hi
    ensures forall p :: p in s <==> lo <= p < hi
    ensures |s| == hi - lo
    decreases hi
  {
    if lo == hi then {} else Interval(lo, hi - 1) + {hi - 1}
  }

  predicate CountedRegion(r: Region) { r.kind == FREE_RAM && PageUp(r.base) >= LOW_MEMORY }

  /** The 64-bit difference mm_init adds for a region is the size of its whole pages exactly
      when the region reaches a page boundary; for a sliver it is a page less. */
  lemma RegionSize(r: Region)
    requires InReach(r) && CountedRegion(r)
    ensures PageDown(r.base + r.lenOrEnd) - PageUp(r.base) == 4096 * |PagesOf(r)| - (if Sliver(r) then 4096 else 0)
    ensures PageDown(r.base + r.lenOrEnd) - PageUp(r.base) == 4096 * |PagesOf(r)| <==> PageUp(r.base) <= r.base + r.lenOrEnd
  {
    var lo, hi := PageUp(r.base) / 4096, PageDown(r.base + r.lenOrEnd) / 4096;
    assert PageUp(r.base) == 4096 * lo && PageDown(r.base + r.lenOrEnd) == 4096 * hi;
    BelowPageDown(PageUp(r.base), r.base + r.lenOrEnd);
    forall p: nat ensures p in PagesOf(r) <==> lo <= p < hi {
      WholePageRounded(r, 4096 * p);
    }
    if Sliver(r) {
      assert PagesOf(r) == {};
      SliverEnd(r);
    } else {
      assert PagesOf(r) == Interval(lo, hi);
    }
  }

  /** A sliver's rounded end is one page below its rounded base. */
  lemma SliverEnd(r: Region)
    requires InReach(r) && Sliver(r)
    ensures PageDown(r.base + r.lenOrEnd) == PageUp(r.base) - 4096
  {
    BelowPageDown(PageUp(r.base) - 4096, r.base + r.lenOrEnd);
    BelowPageDown(PageUp(r.base), r.base + r.lenOrEnd);
    var p, q := PageUp(r.base) / 4096, PageDown(r.base + r.lenOrEnd) / 4096;
    assert PageUp(r.base) == 4096 * p && PageDown(r.base + r.lenOrEnd) == 4096 * q;
  }

  /** Disjoint regions share no page. */
  lemma PagesApart(rs: seq<Region>, n: nat)
    requires FreeMap(rs) && n < |rs|
    ensures |FreePages(rs, n + 1)| == |FreePages(rs, n)| + |PagesOf(rs[n])|
  {
    var a, b := FreePages(rs, n), PagesOf(rs[n]);
    forall p | p in a ensures p !in b {
      var i :| 0 <= i < n && WholePageOf(rs[i], 4096 * p);
      assert Free(rs, i) && (Free(rs, n) ==> Apart(rs[i], rs[n]));
    }
    assert FreePages(rs, n + 1) == a + b;
    assert a * b == {};
  }

  /** The whole pages of the first n entries, counted entry by entry. */
  ghost function PageCount(rs: seq<Region>, n: nat): nat
    requires n <= |rs|
  {
    if n == 0 then 0 else PageCount(rs, n - 1) + |PagesOf(rs[n - 1])|
  }

  lemma NoPages(rs: seq<Region>)
    ensures |FreePages(rs, 0)| == 0
  {
    assert FreePages(rs, 0) == {};
  }

  lemma {:induction false} CountIsSetSize(rs: seq<Region>, n: nat)
    requires FreeMap(rs) && n <= |rs|
    ensures PageCount(rs, n) == |FreePages(rs, n)|
  {
    if n == 0 {
      NoPages(rs);
    } else {
      CountIsSetSize(rs, n - 1);
      PagesApart(rs, n - 1);
    }
  }

  /** What the sum loses at entry i beside the image: the image once more if the entry is cut
      although it was not chosen, and a page if it is a sliver. */
  function Loss(rs: seq<Region>, k: int, l: Layout, i: nat): nat
    requires i < |rs|
  {
    if CountedRegion(rs[i]) then
      (if i != k && PageUp(rs[i].base) == l.loadBuf then LoadSize(l) else 0) + (if Sliver(rs[i]) then 4096 else 0)
    else 0
  }

  function LossUpTo(rs: seq<Region>, k: int, l: Layout, n: nat): nat
    requires n <= |rs|
  {
    if n == 0 then 0 else LossUpTo(rs, k, l, n - 1) + Loss(rs, k, l, n - 1)
  }

  /** Entry i adds its whole pages, less the image if it is the chosen one, less the loss. */
  lemma EntrySpan(rs: seq<Region>, k: int, h: Header, l: Layout, i: nat)
    requires FreeMap(rs) && Chosen(rs, k, h, l) && i < |rs|
    ensures Span(Normalised(rs[i], l.loadBuf, LoadSize(l)))
            == 4096 * |PagesOf(rs[i])| - (if i == k then LoadSize(l) else 0) - Loss(rs, k, l, i)
  {
    assert Free(rs, k);
    CarveEnd(rs, k, h, l);
    if CountedRegion(rs[i]) {
      assert Free(rs, i);
      RegionSize(rs[i]);
    } else {
      assert PagesOf(rs[i]) == {};
    }
  }

  /** The sum over the first n normalised entries: all whole pages, less the image, less what
      is lost. */
  lemma {:induction false} SpanCountsPages(rs: seq<Region>, k: int, h: Header, l: Layout, n: nat)
    requires FreeMap(rs) && Chosen(rs, k, h, l) && n <= |rs|
    ensures FreeSpan(NormalisedAll(rs, l.loadBuf, LoadSize(l)), n)
            == 4096 * PageCount(rs, n) - (if k < n then LoadSize(l) else 0) - LossUpTo(rs, k, l, n)
  {
    if n == 0 {
    } else {
      SpanCountsPages(rs, k, h, l, n - 1);
      EntrySpan(rs, k, h, l, n - 1);
    }
  }

  lemma FreeSpanExact(rs: seq<Region>, k: int, h: Header, l: Layout)
    requires FreeMap(rs) && Chosen(rs, k, h, l)
    ensures FreeSpan(NormalisedAll(rs, l.loadBuf, LoadSize(l)), |rs|)
            == 4096 * |FreePages(rs, |rs|)| - LoadSize(l) - LossUpTo(rs, k, l, |rs|)
  {
    SpanCountsPages(rs, k, h, l, |rs|);
    CountIsSetSize(rs, |rs|);
  }

  /** Entry i loses nothing: if counted, it reaches a page boundary and is not cut by mistake. */
  predicate Tidy(rs: seq<Region>, k: int, l: Layout, i: nat)
    requires i < |rs|
  {
    CountedRegion(rs[i]) ==> !Sliver(rs[i]) && (PageUp(rs[i].base) == l.loadBuf ==> i == k)
  }

  ghost predicate AllTidy(rs: seq<Region>, k: int, l: Layout, n: nat)
    requires n <= |rs|
  {
    forall i :: 0 <= i < n ==> Tidy(rs, k, l, i)
  }

  /** Nothing is lost exactly when every entry is tidy, and the loss is far from wrapping. */
  lemma {:induction false} LossBounds(rs: seq<Region>, k: int, h: Header, l: Layout, n: nat)
    requires Chosen(rs, k, h, l) && InReach(rs[k]) && n <= |rs|
    ensures LossUpTo(rs, k, l, n) == 0 <==> AllTidy(rs, k, l, n)
    ensures LossUpTo(rs, k, l, n) <= n * 0x2_0000_0000
  {
    if n == 0 {
    } else {
      LossBounds(rs, k, h, l, n - 1);
      CarveEnd(rs, k, h, l);
      assert Loss(rs, k, l, n - 1) == 0 <==> Tidy(rs, k, l, n - 1);
    }
  }

  /** Entries with a whole page in them are tidy. */
  lemma RoomyIsTidy(rs: seq<Region>, k: int, h: Header, l: Layout, i: nat)
    requires FreeMap(rs) && Chosen(rs, k, h, l) && i < |rs| && (CountedRegion(rs[i]) ==> Roomy(rs[i]))
    ensures Tidy(rs, k, l, i)
  {
    if CountedRegion(rs[i]) {
      assert Free(rs, k) && Free(rs, i);
      CarvesChosenOnly(rs, k, h, l, i);
    }
  }

  /** Conservation: mm_init's free memory and the loaded image add up to all the whole pages of
      the counted free regions exactly when no entry loses anything and the image is no larger
      than they are. */
  lemma FreeMemoryConserved(rs: seq<Region>, k: int, h: Header, l: Layout, freeMem: U64)
    requires FreeMap(rs) && Chosen(rs, k, h, l) && |rs| < 0x1_0000
    requires freeMem == Wrap64(FreeSpan(NormalisedAll(rs, l.loadBuf, LoadSize(l)), |rs|))
    ensures freeMem + LoadSize(l) == 4096 * |FreePages(rs, |rs|)|
            <==> LoadSize(l) <= 4096 * |FreePages(rs, |rs|)| && AllTidy(rs, k, l, |rs|)
  {
    var s, x := 4096 * |FreePages(rs, |rs|)|, LossUpTo(rs, k, l, |rs|);
    assert Free(rs, k);
    FreeSpanExact(rs, k, h, l);
    LossBounds(rs, k, h, l, |rs|);
    FreePagesBounded(rs, k);
    DifferenceWraps(s, LoadSize(l), x);
  }

  lemma DifferenceWraps(s: nat, d: U64, x: nat)
    requires s <= 0x10_0000_0000_0000 && x <= 0x2_0000_0000_0000
    ensures Wrap64(s - d - x) + d == s <==> d <= s && x == 0
  {
    if s - d - x < 0 {
      assert s - d - x >= -0x2_0000_0000_0000_0000 + 1;
      var w := s - d - x + 0x1_0000_0000_0000_0000;
      ModUnique(s - d - x, 0x1_0000_0000_0000_0000, if w >= 0 then -1 else -2, if w >= 0 then w else w + 0x1_0000_0000_0000_0000);
    }
  }

  /** The image is no larger than its own region's whole pages when the cut fits; so it is for
      a page-multiple image or stack. */
  lemma ImageFitsRegion(rs: seq<Region>, k: int, h: Header, l: Layout)
    requires Chosen(rs, k, h, l) && InReach(rs[k])
    ensures LoadSize(l) <= 4096 * |PagesOf(rs[k])| <==> CutFits(rs[k], h)
    ensures |PagesOf(rs[k])| <= |FreePages(rs, |rs|)|
  {
    CarvedIntervalValid(rs, k, h, l);
    CarveEnd(rs, k, h, l);
    RegionSize(rs[k]);
    FreePagesBounded(rs, k);
  }

  lemma FreePagesBounded(rs: seq<Region>, k: int)
    requires 0 <= k < |rs|
    ensures |PagesOf(rs[k])| <= |FreePages(rs, |rs|)| <= 0x100_0000_0000
  {
    SubsetSize(FreePages(rs, |rs|), Interval(0, 0x100_0000_0000));
    SubsetSize(PagesOf(rs[k]), FreePages(rs, |rs|));
  }

  lemma {:induction false} SubsetSize(a: set<nat>, b: set<nat>)
    requires a <= b
    ensures |a| <= |b|
  {
    if a == {} {
    } else {
      var x :| x in a;
      SubsetSize(a - {x}, b - {x});
    }
  }

  /** The smallest failure: a sliver whose 64-bit difference is close to 2^64. */
  lemma TinyEntryWraps()
    ensures var r := Normalised(Region(0x20_0800, 0x100, FREE_RAM, 1), 0, 0);
            Counted(r) && r.lenOrEnd < r.base && Wrap64(r.lenOrEnd - r.base) == 0xFFFF_FFFF_FFFF_F000
    ensures Sliver(Region(0x20_0800, 0x100, FREE_RAM, 1))
  {
  }

  /** Both kinds of loss at once: a sliver right before the chosen region is cut as if it were
      chosen, so the sum falls short by the image and a page, and wraps. */
  lemma CutTwice()
    ensures var rs := [Region(0x1F_F800, 0x100, FREE_RAM, 1), Region(0x20_0000, 0xE000, FREE_RAM, 1)];
            var h := Header(0, 0, 0, 0, 0, 0, 0, 0, 0x1000, 0x1000);
            var l := Layout(0x20_0000, 0x20_1000, 0x20_B000, 0x20_C000);
            && FreeMap(rs) && Chosen(rs, 1, h, l)
            && Normalised(rs[0], l.loadBuf, LoadSize(l)) == Region(0x20_C000, 0x1F_F000, FREE_RAM, 1)
            && Normalised(rs[1], l.loadBuf, LoadSize(l)) == Region(0x20_C000, 0x20_E000, FREE_RAM, 1)
            && Wrap64(0x1F_F000 - 0x20_C000 + (0x20_E000 - 0x20_C000)) == 0xFFFF_FFFF_FFFF_5000
  {
    TwoEntries(Region(0x1F_F800, 0x100, FREE_RAM, 1));
    assert PageUp(0x1F_F800) == 0x20_0000 && PageDown(0x1F_F900) == 0x1F_F000;
  }

  // ------------------------------------------------------------- stack window

  /** The frames mapped by the stack window all lie in the part mm_init cuts off exactly when
      there are none or the stack does not end on a page boundary. */
  lemma StackInsideCarve(h: Header, l: Layout)
    requires Placed(l, h) && l.end < ADDRESS_SPACE
    ensures var t := TreeOf(l, h);
            (forall j :: 0 <= j < t.stackPages ==>
               l.loadBuf <= t.stackTop - 4096 * j && t.stackTop - 4096 * j + 4096 <= PageUp(l.end))
            <==> t.stackPages == 0 || h.stackSize % 4096 != 0
  {
    var t := TreeOf(l, h);
    StackFits(h, l);
    if t.stackPages > 0 && h.stackSize % 4096 == 0 {
      assert t.stackTop - 4096 * 0 + 4096 > PageUp(l.end);
    } else {
      forall j | 0 <= j < t.stackPages
        ensures l.loadBuf <= t.stackTop - 4096 * j && t.stackTop - 4096 * j + 4096 <= PageUp(l.end)
      {
      }
    }
  }

  lemma StackFits(h: Header, l: Layout)
    requires Placed(l, h) && l.end < ADDRESS_SPACE
    ensures TreeOf(l, h).Valid() || h.ImageSize() > 0x20_0000
    ensures l.stack <= TreeOf(l, h).stackTop - 4096 * TreeOf(l, h).stackPages + 4096
    ensures h.stackSize % 4096 == 0 <==> TreeOf(l, h).stackTop == l.end
    ensures PageUp(l.end) == if h.stackSize % 4096 == 0 then l.end else TreeOf(l, h).stackTop + 4096
  {
    var q, z := h.stackSize / 4096, h.stackSize % 4096;
    ModUnique(l.end, 4096, l.stack / 4096 + q, z);
  }

  /** With a page-multiple stack the window is [stack + 4096, end + 4096): the lowest page of
      the stack is not in it, and the page its top addresses reach is the first free page of
      the kernel's own map. */
  lemma StackTopDeclaredFree(rs: seq<Region>, k: int, h: Header, l: Layout, m: seq<U8>, strict: bool)
    requires Chosen(rs, k, h, l) && InReach(rs[k]) && l.end < ADDRESS_SPACE
    requires OnTree(m, TreeOf(l, h), EmptyWindow())
    requires h.ImageSize() % 4096 == 0 && h.stackSize % 4096 == 0 && 1 <= StackPages(h.stackSize)
    ensures forall v: U64 :: v >= 0x1_0000_0000_0000_0000 - h.stackSize ==>
              Walk(m, l.pages, v, strict) == To(l.stack + 4096 + (v - (0x1_0000_0000_0000_0000 - h.stackSize)))
    ensures FreeIn(Normalised(rs[k], l.loadBuf, LoadSize(l)), l.end)
    ensures Walk(m, l.pages, 0xFFFF_FFFF_FFFF_FFF0, strict) == To(l.end + 0xFF0)
  {
    var t := TreeOf(l, h);
    EntryFields(l.pages, 0);
    StackFits(h, l);
    forall v: U64 | v >= 0x1_0000_0000_0000_0000 - h.stackSize
      ensures Walk(m, l.pages, v, strict) == To(l.stack + 4096 + (v - (0x1_0000_0000_0000_0000 - h.stackSize)))
    {
      TreeTranslates(m, l.pages, t, EmptyWindow(), v, strict);
    }
    LayoutFits(rs[k], h, l);
    CarveEnd(rs, k, h, l);
    ChosenPages(rs, k, h, l, l.end);
  }

  // -------------------------------------------------------------- peek window

  /** A sound map can put the peek directory out of the kernel's reach: then every accepted
      request for something faults. */
  lemma DirectoryOutOfReach(addr: U64, size: U64)
    ensures var rs := [Region(0x20_0000, 0xE000, FREE_RAM, 1)];
            var h := Header(0, 0, 0, 0, 0, 0, 0, 0, 0x1000, 0x1000);
            var l := Layout(0x20_0000, 0x20_1000, 0x20_B000, 0x20_C000);
            var t := Tree(0x20_1000, 0x20_0000, 1, 0x20_C000, 1);
            && FreeMap(rs) && Chosen(rs, 0, h, l) && TreeOf(l, h) == t
            && (0 < size && Accepts(addr, size) ==> PeekOutcome(t, 0x20_7000, false, addr, size) == PageFault)
  {
    var rs := [Region(0x20_0000, 0xE000, FREE_RAM, 1)];
    assert forall i :: Free(rs, i) ==> i == 0;
  }
}
