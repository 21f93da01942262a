/** The arithmetic behind mm_peek: which 2 MiB blocks a request needs, what the directory
    entries it writes mean, and what a run of requests leaves in the directory. */
module PeekWindow {
  import opened Machine
  import opened Rounding
  import opened PageEntry
  import opened PageWalk
  import opened PageTree

  const M1GB: U64 := 0x4000_0000
  const ENTRY_CNT: nat := 512
  const BLOCK_SIZE: U64 := 0x20_0000

  /** The mask formula for the number of blocks, in 64-bit arithmetic. */
  function BlockCount(addr: U64, size: U64): nat {
    Wrap64(BlockUp(Wrap64(addr + size)) - BlockDown(addr)) / BLOCK_SIZE
  }

  /** The directory entry for block i. The address is rounded to a page, not to a block. */
  function PeekWord(addr: U64, i: nat): U64 {
    GenPdpePde(PageDown(Wrap64(addr + i * BLOCK_SIZE)), false, 0x83).Word()
  }

  /** The directory after the first n entries were written. */
  function PeekDir(dir: seq<U64>, addr: U64, n: nat): (d: seq<U64>)
    requires |dir| == 512
    ensures |d| == 512
  {
    seq(512, i requires 0 <= i < 512 => if i < n then PeekWord(addr, i) else dir[i])
  }

  /** The requests that fit the window. */
  predicate Accepts(addr: U64, size: U64) { addr % BLOCK_SIZE + size <= M1GB }

  // ------------------------------------------------------------ block count

  /** The formula is exact even where the sums in it wrap. */
  lemma BlockCountExact(addr: U64, size: U64)
    requires size <= M1GB
    ensures BlockCount(addr, size) == (addr % 0x20_0000 + size + 0x1F_FFFF) / 0x20_0000
  {
    var x := addr + size;
    var p := BlockPad(Wrap64(x));
    if x < 0x1_0000_0000_0000_0000 {
      assert Wrap64(x) == x;
    } else {
      assert Wrap64(x) == x - 0x1_0000_0000_0000_0000;
    }
    assert Wrap64(x) % 0x20_0000 == x % 0x20_0000;
    var d := x + p - BlockDown(addr);
    assert Wrap64(BlockUp(Wrap64(x)) - BlockDown(addr)) == d;
    var o := addr % 0x20_0000;
    assert d == o + size + p && d % 0x20_0000 == 0;
    BlocksOf(o + size, p);
  }

  /** Rounding up to blocks, by padding and by dividing. */
  lemma BlocksOf(n: nat, p: nat)
    requires p < 0x20_0000 && (n + p) % 0x20_0000 == 0
    ensures (n + p) / 0x20_0000 == (n + 0x1F_FFFF) / 0x20_0000
  {
  }

  /** It counts the blocks that meet [addr, addr + size). */
  lemma BlocksMeetRange(addr: U64, size: U64, b: nat)
    requires 0 < size <= M1GB
    ensures b * 0x20_0000 < addr + size && addr < (b + 1) * 0x20_0000
            <==> addr / 0x20_0000 <= b < addr / 0x20_0000 + BlockCount(addr, size)
  {
    BlockCountExact(addr, size);
    var q, o := addr / 0x20_0000, addr % 0x20_0000;
    assert addr == 0x20_0000 * q + o;
    var n := BlockCount(addr, size);
    assert 0x20_0000 * (n - 1) < o + size <= 0x20_0000 * n;
  }

  /** The two size checks together reject exactly what does not fit the window. */
  lemma AcceptedExactly(addr: U64, size: U64)
    ensures size <= M1GB && BlockCount(addr, size) <= ENTRY_CNT <==> Accepts(addr, size)
  {
    if size <= M1GB {
      BlockCountExact(addr, size);
    }
  }

  // ---------------------------------------------------------------- meaning

  lemma PeekWordIs(addr: U64, i: nat)
    ensures PeekWord(addr, i) == PageDown(Wrap64(addr + i * BLOCK_SIZE)) % 0x10_0000_0000_0000 + 0x83
  {
    DirectoryFlagsKept();
    PdeWord(PageDown(Wrap64(addr + i * BLOCK_SIZE)), 0x83);
  }

  /** A written entry is a present large page; its frame and the reserved bits. */
  lemma PeekWordFields(addr: U64, i: nat)
    ensures Present(PeekWord(addr, i)) && Large(PeekWord(addr, i)) && Writable(PeekWord(addr, i))
    ensures LargeReserved(PeekWord(addr, i)) <==> addr % 0x20_0000 >= 0x2000
    ensures LargeFrame(PeekWord(addr, i))
            == Wrap64(addr + i * BLOCK_SIZE) % 0x10_0000_0000_0000 / 0x20_0000 * 0x20_0000
  {
    PeekWordIs(addr, i);
    LargePageWord(Wrap64(addr + i * BLOCK_SIZE));
    BlockOffset(addr, i);
  }

  lemma LargePageWord(a: U64)
    ensures var w := PageDown(a) % 0x10_0000_0000_0000 + 0x83;
            && Present(w) && Large(w) && Writable(w)
            && (LargeReserved(w) <==> a % 0x20_0000 >= 0x2000)
            && LargeFrame(w) == a % 0x10_0000_0000_0000 / 0x20_0000 * 0x20_0000
  {
    var f := PageDown(a) % 0x10_0000_0000_0000;
    FrameOfBlock(a);
    EntryFields(f, 0x83);
    LargeFields(f, 0x83);
  }

  /** Whole blocks, and wrapping at 2^64, leave the offset in the block alone. */
  lemma BlockOffset(addr: U64, i: nat)
    ensures Wrap64(addr + i * 0x20_0000) % 0x20_0000 == addr % 0x20_0000
  {
    var s := addr + i * 0x20_0000;
    var w := s / 0x1_0000_0000_0000_0000;
    ModUnique(Wrap64(s), 0x20_0000, addr / 0x20_0000 + i - 0x800_0000_0000 * w, addr % 0x20_0000);
  }

  /** Rounding to a page first makes no difference to the block. */
  lemma FrameOfBlock(a: U64)
    ensures var f := PageDown(a) % 0x10_0000_0000_0000;
            && f % 0x1000 == 0
            && f / 0x20_0000 == a % 0x10_0000_0000_0000 / 0x20_0000
            && (f % 0x20_0000 >= 0x2000 <==> a % 0x20_0000 >= 0x2000)
  {
    var h, l := a / 0x10_0000_0000_0000, a % 0x10_0000_0000_0000;
    var m, o := l / 0x20_0000, l % 0x20_0000;
    var q, z := o / 0x1000, o % 0x1000;
    assert l == 0x20_0000 * m + 0x1000 * q + z;
    ModUnique(a, 0x1000, 0x100_0000_0000 * h + 0x200 * m + q, z);
    ModUnique(a, 0x20_0000, 0x8000_0000 * h + m, 0x1000 * q + z);
    ModUnique(a - z, 0x10_0000_0000_0000, h, 0x20_0000 * m + 0x1000 * q);
    ModUnique(0x20_0000 * m + 0x1000 * q, 0x20_0000, m, 0x1000 * q);
  }

  /** Block (o + k) / 2 MiB of the request, with offset v % 2 MiB in it, is address addr + k. */
  lemma BlockAddress(addr: U64, k: nat)
    ensures var o := addr % 0x20_0000;
            var a := Wrap64(addr + (o + k) / 0x20_0000 * 0x20_0000);
            a % 0x10_0000_0000_0000 / 0x20_0000 * 0x20_0000 + (o + k) % 0x20_0000
            == (addr + k) % 0x10_0000_0000_0000
  {
    var o, q := addr % 0x20_0000, addr / 0x20_0000;
    var i, r := (o + k) / 0x20_0000, (o + k) % 0x20_0000;
    var h, l := (q + i) / 0x8000_0000, (q + i) % 0x8000_0000;
    var s := addr + i * 0x20_0000;
    assert s == 0x10_0000_0000_0000 * h + (0x20_0000 * l + o);
    assert addr + k == 0x10_0000_0000_0000 * h + (0x20_0000 * l + r);
    ModUnique(Wrap64(s), 0x10_0000_0000_0000, h - 0x1000 * (s / 0x1_0000_0000_0000_0000), 0x20_0000 * l + o);
    ModUnique(0x20_0000 * l + o, 0x20_0000, l, o);
    ModUnique(addr + k, 0x10_0000_0000_0000, h, 0x20_0000 * l + r);
  }

  /** After an accepted request, byte k of the returned window is physical byte addr + k,
      modulo the 52 bits an entry holds. Hardware, which checks the reserved bits, agrees
      exactly when addr lies in the first two pages of a block. */
  lemma PeekShowsRange(t: Tree, dir: seq<U64>, addr: U64, size: U64, k: nat, strict: bool)
    requires t.Valid() && |dir| == 512 && Accepts(addr, size) && k < size
    ensures t.View(PeekDir(dir, addr, BlockCount(addr, size)), PEEK_ADDRESS + addr % BLOCK_SIZE + k, strict)
            == if strict && addr % 0x20_0000 >= 0x2000 then Fault
               else To((addr + k) % 0x10_0000_0000_0000)
  {
    BlockCountExact(addr, size);
    var o := addr % 0x20_0000;
    var i := (o + k) / 0x20_0000;
    WindowAt(t, PeekDir(dir, addr, BlockCount(addr, size)), o + k, strict);
    assert PeekDir(dir, addr, BlockCount(addr, size))[i] == PeekWord(addr, i);
    PeekWordFields(addr, i);
    BlockAddress(addr, k);
  }

  lemma WindowAt(t: Tree, dir: seq<U64>, n: nat, strict: bool)
    requires t.Valid() && |dir| == 512 && n < 0x4000_0000
    ensures var w := dir[n / 0x20_0000];
            t.View(dir, PEEK_ADDRESS + n, strict)
            == if !Present(w) || (strict && LargeReserved(w)) then Fault else To(LargeFrame(w) + n % 0x20_0000)
  {
    ModUnique(PEEK_ADDRESS + n, 0x20_0000, PEEK_ADDRESS / 0x20_0000 + n / 0x20_0000, n % 0x20_0000);
  }

  /** Virtual addresses beyond the blocks written keep their meaning. */
  lemma PeekKeepsRest(t: Tree, dir: seq<U64>, addr: U64, n: nat, v: U64, strict: bool)
    requires t.Valid() && |dir| == 512 && n <= 512
    requires v < PEEK_ADDRESS || PEEK_ADDRESS + n * 0x20_0000 <= v
    ensures t.View(PeekDir(dir, addr, n), v, strict) == t.View(dir, v, strict)
  {
    if PEEK_ADDRESS <= v < PEEK_ADDRESS + 0x4000_0000 {
      assert (v - PEEK_ADDRESS) / 0x20_0000 >= n;
    }
  }

  // ------------------------------------------------------------------- runs

  datatype Request = Request(addr: U64, size: U64)

  function Step(dir: seq<U64>, r: Request): (d: seq<U64>)
    requires |dir| == 512
    ensures |d| == 512
  {
    if Accepts(r.addr, r.size) then PeekDir(dir, r.addr, BlockCount(r.addr, r.size)) else dir
  }

  function Run(dir: seq<U64>, rs: seq<Request>): (d: seq<U64>)
    requires |dir| == 512
    ensures |d| == 512
  {
    if rs == [] then dir else Step(Run(dir, rs[..|rs| - 1]), rs[|rs| - 1])
  }

  predicate Covers(r: Request, i: nat) { Accepts(r.addr, r.size) && i < BlockCount(r.addr, r.size) }

  /** The last request that covers entry i. */
  function LastCovering(rs: seq<Request>, i: nat): (r: Option<nat>)
    ensures r.None? ==> forall j :: 0 <= j < |rs| ==> !Covers(rs[j], i)
    ensures r.Some? ==> r.value < |rs| && Covers(rs[r.value], i) && forall j :: r.value < j < |rs| ==> !Covers(rs[j], i)
  {
    if rs == [] then None
    else if Covers(rs[|rs| - 1], i) then Some(|rs| - 1)
    else LastCovering(rs[..|rs| - 1], i)
  }

  /** After any run, entry i is what the last request covering it wrote, or untouched. */
  lemma {:induction false} RunEntry(dir: seq<U64>, rs: seq<Request>, i: nat)
    requires |dir| == 512 && i < 512
    ensures Run(dir, rs)[i] == match LastCovering(rs, i) {
              case None => dir[i]
              case Some(j) => PeekWord(rs[j].addr, i)
            }
  {
    if rs == [] {
    } else {
      RunEntry(dir, rs[..|rs| - 1], i);
    }
  }
}
