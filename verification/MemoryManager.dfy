/** The kernel's memory manager (mm.c) running on the page tables the loader left. */
module MemoryManager {
  import opened Machine
  import opened Rounding
  import opened PageWalk
  import opened PageTree
  import opened PeekWindow
  import opened Allocation

  const EINVAL: nat := 2
  const EPERM: nat := 3
  const ENOTSUP: nat := 4

  const CR3_ADDR_MASK: U64 := 0x000F_FFFF_FFFF_F000
  const CR3_FLAG_MASK: U64 := 0x18

  /** How a call to mm_peek ends: an errno, a page fault of its own store, or 0 with *virt set. */
  datatype PeekResult = Errno(code: nat) | PageFault | Peeked(virt: U64)

  /** The result on tree t with the directory pointer peekPde. The kernel reaches the
      directory through the identity map of the first 2 MiB only. */
  function PeekOutcome(t: Tree, peekPde: U64, virtNull: bool, addr: U64, size: U64): PeekResult {
    if peekPde == 0 then Errno(EPERM)
    else if virtNull then Errno(EINVAL)
    else if !Accepts(addr, size) then Errno(ENOTSUP)
    else if t.Table(6) >= 0x20_0000 && (size > 0 || addr % BLOCK_SIZE > 0) then PageFault
    else Peeked(PEEK_ADDRESS + addr % BLOCK_SIZE)
  }

  /** In plain numbers, and in the order of the tests: no directory, no place for the result, not in
      a window of 1 GiB, directory out of reach, or the address in the window. */
  lemma PeekOutcomes(t: Tree, peekPde: U64, virtNull: bool, addr: U64, size: U64)
    ensures PeekOutcome(t, peekPde, virtNull, addr, size)
            == if peekPde == 0 then Errno(3)
               else if virtNull then Errno(2)
               else if addr % 0x20_0000 + size > 0x4000_0000 then Errno(4)
               else if t.pages + 0x6000 >= 0x20_0000 && addr % 0x20_0000 + size > 0 then PageFault
               else Peeked(0xFFFF_8000_0000_0000 + addr % 0x20_0000)
  {
  }

  /** The directory afterwards: a step of the run for a call that got through, else as before. */
  function DirAfter(t: Tree, dir: seq<U64>, peekPde: U64, virtNull: bool, addr: U64, size: U64): (d: seq<U64>)
    requires |dir| == 512
    ensures |d| == 512
  {
    if PeekOutcome(t, peekPde, virtNull, addr, size).Peeked? then Step(dir, Request(addr, size)) else dir
  }

  /** One call to mm_peek, and the directory after any sequence of calls. */
  datatype Call = Call(virtNull: bool, addr: U64, size: U64)

  function AfterCalls(t: Tree, dir: seq<U64>, peekPde: U64, calls: seq<Call>): (d: seq<U64>)
    requires |dir| == 512
    ensures |d| == 512
  {
    if calls == [] then dir
    else
      var c := calls[|calls| - 1];
      DirAfter(t, AfterCalls(t, dir, peekPde, calls[..|calls| - 1]), peekPde, c.virtNull, c.addr, c.size)
  }

  /** The requests among the calls that name a place for the result. */
  function Requests(calls: seq<Call>): seq<Request> {
    if calls == [] then []
    else
      var c := calls[|calls| - 1];
      Requests(calls[..|calls| - 1]) + (if c.virtNull then [] else [Request(c.addr, c.size)])
  }

  /** Any sequence of calls is a run of its requests when the directory is known and within
      reach, and changes nothing otherwise. */
  lemma {:induction false} CallsAreRun(t: Tree, dir: seq<U64>, peekPde: U64, calls: seq<Call>)
    requires |dir| == 512
    ensures AfterCalls(t, dir, peekPde, calls)
            == if peekPde != 0 && t.Table(6) < 0x20_0000 then Run(dir, Requests(calls)) else dir
  {
    if calls == [] {
    } else {
      var n := |calls| - 1;
      CallsAreRun(t, dir, peekPde, calls[..n]);
      var rs, c := Requests(calls[..n]), calls[n];
      var d := AfterCalls(t, dir, peekPde, calls[..n]);
      RunSnoc(dir, rs, Request(c.addr, c.size));
      assert rs + [] == rs;
      StepOrKeep(t, d, peekPde, c);
    }
  }

  lemma CallsSnoc(t: Tree, dir: seq<U64>, peekPde: U64, calls: seq<Call>, i: nat)
    requires |dir| == 512 && i < |calls|
    ensures var c := calls[i];
            AfterCalls(t, dir, peekPde, calls[..i + 1])
            == DirAfter(t, AfterCalls(t, dir, peekPde, calls[..i]), peekPde, c.virtNull, c.addr, c.size)
  {
    assert calls[..i + 1][..i] == calls[..i];
  }

  lemma StepOrKeep(t: Tree, dir: seq<U64>, peekPde: U64, c: Call)
    requires |dir| == 512
    ensures DirAfter(t, dir, peekPde, c.virtNull, c.addr, c.size)
            == if peekPde != 0 && t.Table(6) < 0x20_0000 && !c.virtNull then Step(dir, Request(c.addr, c.size)) else dir
  {
    EmptyStep(dir, c.addr, c.size);
  }

  lemma RunSnoc(dir: seq<U64>, rs: seq<Request>, r: Request)
    requires |dir| == 512
    ensures Run(dir, rs + [r]) == Step(Run(dir, rs), r)
  {
    assert (rs + [r])[..|rs|] == rs;
  }

  /** A request for nothing at a block boundary writes nothing. */
  lemma EmptyStep(dir: seq<U64>, addr: U64, size: U64)
    requires |dir| == 512
    ensures size == 0 && addr % BLOCK_SIZE == 0 ==> Step(dir, Request(addr, size)) == dir
  {
    if size == 0 && addr % BLOCK_SIZE == 0 {
      BlockCountExact(addr, 0);
      assert PeekDir(dir, addr, 0) == dir;
    }
  }

  // ----------------------------------------------------------------- mm_init

  /** One map entry after mm_init: page-rounded [base, end), the loaded image cut off the
      front of the region that starts with it. */
  function Normalised(r: Region, loadBuf: U64, loadSize: U64): Region {
    Region(if PageUp(r.base) == loadBuf then Wrap64(loadBuf + loadSize) else PageUp(r.base),
           PageDown(Wrap64(r.base + r.lenOrEnd)), r.kind, r.attrs)
  }

  function NormalisedAll(rs: seq<Region>, loadBuf: U64, loadSize: U64): (n: seq<Region>)
    ensures |n| == |rs|
  {
    seq(|rs|, i requires 0 <= i < |rs| => Normalised(rs[i], loadBuf, loadSize))
  }

  /** The map when mm_init has done its first n entries. */
  ghost function PartlyNormalised(rs: seq<Region>, loadBuf: U64, loadSize: U64, n: nat): (p: seq<Region>)
    ensures |p| == |rs|
  {
    seq(|rs|, i requires 0 <= i < |rs| => if i < n then Normalised(rs[i], loadBuf, loadSize) else rs[i])
  }

  lemma NormalisedStep(rs: seq<Region>, loadBuf: U64, loadSize: U64, n: nat)
    requires n < |rs|
    ensures var p := PartlyNormalised(rs, loadBuf, loadSize, n);
            && p[n] == rs[n] && NormalisedAll(rs, loadBuf, loadSize)[n] == Normalised(rs[n], loadBuf, loadSize)
            && p[n := Normalised(rs[n], loadBuf, loadSize)] == PartlyNormalised(rs, loadBuf, loadSize, n + 1)
  {
  }

  /** Entries, in (base, end) form, that are added up. */
  predicate Counted(r: Region) { r.kind == FREE_RAM && r.base >= LOW_MEMORY }

  /** The sum of end - base over the counted ones of the first n entries, as integers. */
  function FreeSpan(rs: seq<Region>, n: nat): int
    requires n <= |rs|
  {
    if n == 0 then 0 else FreeSpan(rs, n - 1) + Span(rs[n - 1])
  }

  function Span(r: Region): int { if Counted(r) then r.lenOrEnd - r.base else 0 }

  function CountedNumber(rs: seq<Region>, n: nat): nat
    requires n <= |rs|
  {
    if n == 0 then 0 else CountedNumber(rs, n - 1) + (if Counted(rs[n - 1]) then 1 else 0)
  }

  /** In plain numbers: the entries of type 1 from 1 MiB on. */
  ghost function CountedEntries(rs: seq<Region>, n: nat): set<nat>
    requires n <= |rs|
  {
    set i: nat | i < n && rs[i].kind == 1 && rs[i].base >= 0x10_0000
  }

  lemma {:induction false} CountedNumberIs(rs: seq<Region>, n: nat)
    requires n <= |rs|
    ensures CountedNumber(rs, n) == |CountedEntries(rs, n)|
  {
    if n == 0 {
      assert CountedEntries(rs, 0) == {};
    } else {
      CountedNumberIs(rs, n - 1);
      var s := CountedEntries(rs, n - 1);
      assert CountedEntries(rs, n) == if n - 1 in CountedEntries(rs, n) then s + {n - 1} else s;
    }
  }

  lemma SpanIs(r: Region)
    ensures Span(r) == if r.kind == 1 && r.base >= 0x10_0000 then r.lenOrEnd - r.base else 0
  {
  }

  function MaxEnd(rs: seq<Region>, n: nat): U64
    requires n <= |rs|
  {
    if n == 0 then 0
    else if rs[n - 1].lenOrEnd > MaxEnd(rs, n - 1) then rs[n - 1].lenOrEnd
    else MaxEnd(rs, n - 1)
  }

  lemma {:induction false} LargestEnd(rs: seq<Region>, n: nat)
    requires n <= |rs|
    ensures forall i :: 0 <= i < n ==> rs[i].lenOrEnd <= MaxEnd(rs, n)
    ensures MaxEnd(rs, n) == 0 || exists i :: 0 <= i < n && rs[i].lenOrEnd == MaxEnd(rs, n)
  {
    if n == 0 {
    } else {
      LargestEnd(rs, n - 1);
    }
  }

  /** The three results of mm_init over the first n normalised entries: how many count, their
      size as a 64-bit sum, and the largest end of all, or 0. */
  ghost predicate Tallied(rs: seq<Region>, n: nat, validCnt: nat, freeMem: U64, max: U64)
    requires n <= |rs|
  {
    && validCnt == CountedNumber(rs, n)
    && freeMem == Wrap64(FreeSpan(rs, n))
    && (forall i :: 0 <= i < n ==> rs[i].lenOrEnd <= max)
    && (max == 0 || exists i :: 0 <= i < n && rs[i].lenOrEnd == max)
  }

  // ------------------------------------------------------------- the manager

  class Manager {
    const ram: array<U8>
    var cr3: U64
    var peekPde: U64

    constructor (ram: array<U8>, cr3: U64)
      ensures this.ram == ram && this.cr3 == cr3 && this.peekPde == 0
    {
      this.ram, this.cr3, this.peekPde := ram, cr3, 0;
    }

    /** The memory holds tree t, cr3 points at it, and the peek pointer is unset or right. */
    ghost predicate On(t: Tree, dir: seq<U64>)
      reads this, ram
    {
      && OnTree(ram[..], t, dir) && Frame(cr3) == t.pages
      && (peekPde == 0 || peekPde == t.Table(6))
    }

    /** mm_init. The map is rewritten in place: entries before i hold (base, end), those from
        i on still (base, length). */
    method Init(peekEntry: U64, memMap: array<Region>, loadBuf: U64, loadEnd: U64)
      returns (validCnt: nat, freeMem: U64, max: U64)
      modifies this`peekPde, memMap
      ensures peekPde == peekEntry
      ensures var after := NormalisedAll(old(memMap[..]), loadBuf, Wrap64(PageUp(loadEnd) - loadBuf));
              memMap[..] == after && Tallied(after, |after|, validCnt, freeMem, max)
              && validCnt == |CountedEntries(after, |after|)|
    {
      peekPde := peekEntry;
      max := 0;
      var loadSize := Wrap64(PageUp(loadEnd) - loadBuf);
      validCnt := 0;
      freeMem := 0;
      ghost var before := memMap[..];
      ghost var after := NormalisedAll(before, loadBuf, loadSize);
      var i := 0;
      while i < memMap.Length
        invariant 0 <= i <= memMap.Length
        invariant peekPde == peekEntry
        invariant memMap[..] == PartlyNormalised(before, loadBuf, loadSize, i)
        invariant validCnt == CountedNumber(after, i)
        invariant freeMem == Wrap64(FreeSpan(after, i))
        invariant max == MaxEnd(after, i)
      {
        NormalisedStep(before, loadBuf, loadSize, i);
        NormaliseEntry(memMap, i, loadBuf, loadSize);
        TallyStep(after, i);
        validCnt, freeMem, max := Tally(memMap[i], validCnt, freeMem, max);
        i := i + 1;
      }
      assert memMap[..] == after;
      LargestEnd(after, |after|);
      CountedNumberIs(after, |after|);
    }

    /** One entry: length to end, then the base, then the cut behind the loaded image. */
    static method NormaliseEntry(memMap: array<Region>, i: nat, loadBuf: U64, loadSize: U64)
      requires i < memMap.Length
      modifies memMap
      ensures memMap[..] == old(memMap[..])[i := Normalised(old(memMap[i]), loadBuf, loadSize)]
    {
      memMap[i] := memMap[i].(lenOrEnd := PageDown(Wrap64(memMap[i].base + memMap[i].lenOrEnd)));
      memMap[i] := memMap[i].(base := PageUp(memMap[i].base));
      if memMap[i].base == loadBuf {
        memMap[i] := memMap[i].(base := Wrap64(memMap[i].base + loadSize));
      }
    }

    /** The accounting for one entry in (base, end) form. */
    static method Tally(r: Region, validCnt: nat, freeMem: U64, max: U64) returns (c: nat, f: U64, m: U64)
      ensures c == if Counted(r) then validCnt + 1 else validCnt
      ensures f == if Counted(r) then Wrap64(freeMem + Wrap64(r.lenOrEnd - r.base)) else freeMem
      ensures m == if r.lenOrEnd > max then r.lenOrEnd else max
    {
      c, f, m := validCnt, freeMem, max;
      if r.kind == FREE_RAM && r.base >= LOW_MEMORY {
        c := validCnt + 1;
        f := Wrap64(freeMem + Wrap64(r.lenOrEnd - r.base));
      }
      if r.lenOrEnd > max {
        m := r.lenOrEnd;
      }
    }

    /** An aligned 8-byte store of the running kernel, through the page tables; `where` is
        what they make of the address. */
    method StoreVirtual(va: U64, w: U64, ghost where: Translation) returns (ok: bool)
      requires va % 8 == 0 && where == Walk(ram[..], cr3, va, true)
      modifies ram
      ensures ok == where.To?
      ensures ok && where.phys + 8 <= ram.Length ==> ram[..] == Splice(old(ram[..]), where.phys, ToLE(w, 8))
      ensures !ok ==> ram[..] == old(ram[..])
    {
      var target := Walk(ram[..], cr3, va, true);
      ok := target.To?;
      if ok && target.phys + 8 <= ram.Length {
        StoreWord(ram, target.phys, w);
      }
    }

    /** mm_peek. */
    method Peek(virtNull: bool, phys: U64, size: U64, ghost t: Tree, ghost dir: seq<U64>) returns (r: PeekResult)
      requires On(t, dir)
      modifies ram
      ensures r == PeekOutcome(t, peekPde, virtNull, phys, size)
      ensures On(t, DirAfter(t, dir, peekPde, virtNull, phys, size))
      ensures SameOutside(old(ram[..]), ram[..], t.Table(6), t.Table(7))
    {
      if peekPde == 0 {
        return Errno(EPERM);
      }
      if virtNull {
        return Errno(EINVAL);
      }
      AcceptedExactly(phys, size);
      if size > M1GB {
        return Errno(ENOTSUP);
      }
      var addr := phys;
      var cnt := Wrap64(BlockUp(Wrap64(addr + size)) - BlockDown(addr));
      cnt := cnt / BLOCK_SIZE;
      if cnt > ENTRY_CNT {
        return Errno(ENOTSUP);
      }
      BlockCountExact(addr, size);
      var ok := WriteEntries(addr, cnt, t, dir);
      if !ok {
        return PageFault;
      }
      return Peeked(Wrap64(PEEK_ADDRESS + addr % BLOCK_SIZE));
    }

    /** One call after another: memory then holds the directory those calls leave, and each was
        answered by itself. */
    method PeekAll(calls: seq<Call>, ghost t: Tree, ghost dir: seq<U64>) returns (answers: seq<PeekResult>)
      requires On(t, dir)
      modifies ram
      ensures On(t, AfterCalls(t, dir, peekPde, calls))
      ensures SameOutside(old(ram[..]), ram[..], t.Table(6), t.Table(7))
      ensures |answers| == |calls|
      ensures forall i :: 0 <= i < |calls| ==>
                answers[i] == PeekOutcome(t, peekPde, calls[i].virtNull, calls[i].addr, calls[i].size)
    {
      answers := [];
      var i := 0;
      while i < |calls|
        invariant 0 <= i == |answers| <= |calls|
        invariant On(t, AfterCalls(t, dir, peekPde, calls[..i]))
        invariant SameOutside(old(ram[..]), ram[..], t.Table(6), t.Table(7))
        invariant forall j :: 0 <= j < i ==>
                    answers[j] == PeekOutcome(t, peekPde, calls[j].virtNull, calls[j].addr, calls[j].size)
      {
        ghost var m := ram[..];
        var c := calls[i];
        var r := Peek(c.virtNull, c.addr, c.size, t, AfterCalls(t, dir, peekPde, calls[..i]));
        CallsSnoc(t, dir, peekPde, calls, i);
        SameOutsideTwice(old(ram[..]), m, ram[..], t.Table(6), t.Table(7));
        answers := answers + [r];
        i := i + 1;
      }
      assert calls[..i] == calls;
    }

    /** The loop of mm_peek. Its first store already faults if the directory is out of reach. */
    method WriteEntries(addr: U64, cnt: nat, ghost t: Tree, ghost dir: seq<U64>) returns (ok: bool)
      requires On(t, dir) && peekPde == t.Table(6) && cnt <= ENTRY_CNT
      modifies ram
      ensures ok == (cnt == 0 || t.Table(6) < 0x20_0000)
      ensures OnTree(ram[..], t, if ok then PeekDir(dir, addr, cnt) else dir)
      ensures SameOutside(old(ram[..]), ram[..], t.Table(6), t.Table(7))
    {
      assert PeekDir(dir, addr, 0) == dir;
      var i := 0;
      while i < cnt
        invariant 0 <= i <= cnt
        invariant i > 0 ==> t.Table(6) < 0x20_0000
        invariant OnTree(ram[..], t, PeekDir(dir, addr, i))
        invariant SameOutside(old(ram[..]), ram[..], t.Table(6), t.Table(7))
      {
        ok := WriteEntry(addr, i, t, dir);
        if !ok {
          return;
        }
        i := i + 1;
      }
      return true;
    }

    /** peek_pde[i] = ... for one i. */
    method WriteEntry(addr: U64, i: nat, ghost t: Tree, ghost dir: seq<U64>) returns (ok: bool)
      requires i < ENTRY_CNT && |dir| == 512 && peekPde == t.Table(6)
      requires On(t, PeekDir(dir, addr, i))
      modifies ram
      ensures ok == (t.Table(6) < 0x20_0000)
      ensures OnTree(ram[..], t, PeekDir(dir, addr, if ok then i + 1 else i))
      ensures SameOutside(old(ram[..]), ram[..], t.Table(6), t.Table(7))
    {
      var va: U64 := peekPde + i * 8;
      DirectoryAccess(ram[..], cr3, t, PeekDir(dir, addr, i), i, va);
      EntryStored(ram[..], t, dir, addr, i);
      ghost var m := ram[..];
      ok := StoreVirtual(va, PeekWord(addr, i), if va < 0x20_0000 then To(va) else Fault);
      assert ram[..] == if ok then Splice(m, va, ToLE(PeekWord(addr, i), 8)) else m;
    }

    /** mm_set_cr3. */
    method SetCr3(pml4: U64, flags: U64)
      modifies this`cr3
      ensures Frame(cr3) == PageDown(pml4) % 0x10_0000_0000_0000
      ensures cr3 == Frame(cr3) + flags / 8 % 4 * 8
    {
      Cr3Value(pml4, flags);
      var temp := BitAnd(pml4, CR3_ADDR_MASK);
      cr3 := BitXor(temp, BitAnd(flags, CR3_FLAG_MASK));
    }
  }

  /** How the three results go on at entry i. */
  lemma TallyStep(rs: seq<Region>, i: nat)
    requires i < |rs|
    ensures CountedNumber(rs, i + 1) == if Counted(rs[i]) then CountedNumber(rs, i) + 1 else CountedNumber(rs, i)
    ensures Wrap64(FreeSpan(rs, i + 1))
            == if Counted(rs[i]) then Wrap64(Wrap64(FreeSpan(rs, i)) + Wrap64(rs[i].lenOrEnd - rs[i].base))
               else Wrap64(FreeSpan(rs, i))
    ensures MaxEnd(rs, i + 1) == if rs[i].lenOrEnd > MaxEnd(rs, i) then rs[i].lenOrEnd else MaxEnd(rs, i)
  {
    WrapSum(FreeSpan(rs, i), rs[i].lenOrEnd - rs[i].base);
  }

  lemma WrapSum(a: int, b: int)
    ensures Wrap64(Wrap64(a) + Wrap64(b)) == Wrap64(a + b)
  {
    var p, q := a / 0x1_0000_0000_0000_0000, b / 0x1_0000_0000_0000_0000;
    var s := Wrap64(a) + Wrap64(b);
    assert a + b == 0x1_0000_0000_0000_0000 * (p + q) + s;
    ModUnique(a + b, 0x1_0000_0000_0000_0000, p + q + s / 0x1_0000_0000_0000_0000, Wrap64(s));
  }

  /** Where the kernel may touch the peek directory: its physical address, used as a virtual
      one, reaches the directory exactly when that lies below 2 MiB, and faults otherwise. */
  lemma DirectoryAccess(m: seq<U8>, cr3: U64, t: Tree, dir: seq<U64>, i: nat, va: U64)
    requires OnTree(m, t, dir) && Frame(cr3) == t.pages && i < 512 && va == t.Table(6) + i * 8
    ensures va % 8 == 0
    ensures Walk(m, cr3, va, true) == if va < 0x20_0000 then To(va) else Fault
    ensures va < 0x20_0000 <==> t.Table(6) < 0x20_0000
  {
    PageAligned(t.Table(6), i);
    TreeTranslates(m, cr3, t, dir, va, true);
    LowHalf(t, dir, va, true);
  }

  /** The words of a page are aligned and on one side of the 2 MiB boundary. */
  lemma PageAligned(p: nat, i: nat)
    requires p % 0x1000 == 0 && i < 512
    ensures (p + i * 8) % 8 == 0
    ensures p + i * 8 < 0x20_0000 <==> p < 0x20_0000
  {
    var q := p / 0x1000;
    ModUnique(p + i * 8, 8, 512 * q + i, 0);
  }

  /** In the low half only the first 2 MiB are mapped. */
  lemma LowHalf(t: Tree, dir: seq<U64>, v: U64, strict: bool)
    requires t.Valid() && |dir| == 512 && v < 0x8000_0000_0000
    ensures t.View(dir, v, strict) == if v < 0x20_0000 then To(v) else Fault
  {
  }

  /** A store to entry i of the directory. */
  lemma EntryStored(m: seq<U8>, t: Tree, dir: seq<U64>, addr: U64, i: nat)
    requires i < 512 && |dir| == 512 && OnTree(m, t, PeekDir(dir, addr, i))
    ensures var m' := Splice(m, t.Table(6) + i * 8, ToLE(PeekWord(addr, i), 8));
            && OnTree(m', t, PeekDir(dir, addr, i + 1))
            && SameOutside(m, m', t.Table(6), t.Table(7))
  {
    var w, d := PeekWord(addr, i), PeekDir(dir, addr, i);
    PeekWordFields(addr, i);
    assert PeekDir(dir, addr, i + 1) == d[i := w];
    DirectoryStored(m, t, d, i, w);
  }

  lemma DirectoryStored(m: seq<U8>, t: Tree, d: seq<U64>, i: nat, w: U64)
    requires i < 512 && OnTree(m, t, d) && (Present(w) ==> Large(w))
    ensures OnTree(Splice(m, t.Table(6) + i * 8, ToLE(w, 8)), t, d[i := w])
  {
    WordsSplice(m, t.pages, PDE_MID + i, w);
    TreeWordsStored(t, d, i, w);
  }

  lemma TreeWordsStored(t: Tree, d: seq<U64>, i: nat, w: U64)
    requires i < 512 == |d| && 0x1000 * t.stackPages <= t.stackTop
    ensures t.TreeWords(d[i := w]) == t.TreeWords(d)[PDE_MID + i := w]
  {
    forall j | 0 <= j < TABLE_WORDS
      ensures t.TreeWord(d[i := w], j) == if j == PDE_MID + i then w else t.TreeWord(d, j)
    {
    }
  }

  /** The address and the flag bits a cr3 value is made of. */
  lemma Cr3Value(pml4: U64, flags: U64)
    ensures var f, g := PageDown(pml4) % 0x10_0000_0000_0000, flags / 8 % 4 * 8;
            && BitAnd(pml4, CR3_ADDR_MASK) == f && BitAnd(flags, CR3_FLAG_MASK) == g
            && BitXor(f, g) == f + g && Frame(f + g) == f
  {
    var f, g := PageDown(pml4) % 0x10_0000_0000_0000, flags / 8 % 4 * 8;
    Cr3Masks(pml4, flags);
    Pow2Values();
    PageBelow52(pml4);
    BitXorDisjoint(f, g, 12);
    EntryFields(f, g);
  }

  lemma Cr3Masks(pml4: U64, flags: U64)
    ensures BitAnd(pml4, CR3_ADDR_MASK) == PageDown(pml4) % 0x10_0000_0000_0000
    ensures BitAnd(flags, CR3_FLAG_MASK) == flags / 8 % 4 * 8
  {
    Pow2Values();
    BitAndField(pml4, 12, 52);
    PageBelow52(pml4);
    assert Pow2(3) == 8 && Pow2(5) == 32;
    BitAndField(flags, 3, 5);
    MiddleBits(flags);
  }

  lemma MiddleBits(x: nat)
    ensures x % 32 - x % 8 == x / 8 % 4 * 8
  {
  }

  lemma PageBelow52(x: U64)
    ensures PageDown(x) % 0x10_0000_0000_0000 == x % 0x10_0000_0000_0000 - x % 0x1000
    ensures PageDown(x) % 0x10_0000_0000_0000 % 0x1000 == 0
  {
    var h, l, z := x / 0x10_0000_0000_0000, x % 0x10_0000_0000_0000, x % 0x1000;
    ModUnique(l, 0x1000, x / 0x1000 - 0x100_0000_0000 * h, z);
    ModUnique(x - z, 0x10_0000_0000_0000, h, l - z);
  }
}
