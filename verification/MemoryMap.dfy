/** From the answers of the BIOS to the memory map that the loader first-fits: the 24-byte slots
    read as the entries of `struct mem_map`. */
module MemoryMap {
  import opened Machine
  import opened Allocation
  import opened Bios

  /** The entry whose bytes start at o. */
  function RegionAt(b: seq<U8>, o: nat): Region
    requires o + SLOT <= |b|
  {
    Region(WordAt(b, o), WordAt(b, o + 8), LongAt(b, o + 16), LongAt(b, o + 20))
  }

  /** The first n entries of the map. */
  function RegionsIn(b: seq<U8>, n: nat): (rs: seq<Region>)
    requires SLOT * n <= |b|
    ensures |rs| == n
  {
    seq(n, i requires 0 <= i < n => RegionAt(b, SLOT * i))
  }

  /** What the first n answers report: an entry for each that is kept. */
  function Reported(answers: seq<Answer>, n: nat): seq<Region>
    requires n <= |answers| && forall a :: a in answers ==> a.Valid()
  {
    if n == 0 then []
    else
      Reported(answers, n - 1) + (if Kept(answers[n - 1]) then [RegionAt(Slot(answers[n - 1]), 0)] else [])
  }

  lemma {:induction false} SlotsAreReported(answers: seq<Answer>, n: nat)
    requires n <= |answers| && forall a :: a in answers ==> a.Valid()
    ensures |KeptSlots(answers, n)| == SLOT * |Reported(answers, n)|
    ensures RegionsIn(KeptSlots(answers, n), |Reported(answers, n)|) == Reported(answers, n)
  {
    if n == 0 {
    } else {
      SlotsAreReported(answers, n - 1);
      if Kept(answers[n - 1]) {
        AppendSlot(KeptSlots(answers, n - 1), |Reported(answers, n - 1)|, Slot(answers[n - 1]));
      } else {
        assert KeptSlots(answers, n) == KeptSlots(answers, n - 1);
      }
    }
  }

  lemma AppendSlot(b: seq<U8>, n: nat, slot: seq<U8>)
    requires |b| == SLOT * n && |slot| == SLOT
    ensures RegionsIn(b + slot, n + 1) == RegionsIn(b, n) + [RegionAt(slot, 0)]
  {
    forall i | 0 <= i < n ensures RegionAt(b + slot, SLOT * i) == RegionAt(b, SLOT * i) {
      RegionInside(b, slot, SLOT * i);
    }
    RegionBehind(b, slot);
  }

  lemma RegionInside(b: seq<U8>, c: seq<U8>, o: nat)
    requires o + SLOT <= |b|
    ensures RegionAt(b + c, o) == RegionAt(b, o)
  {
    assert (b + c)[o..o + 8] == b[o..o + 8] && (b + c)[o + 8..o + 16] == b[o + 8..o + 16];
  }

  lemma RegionBehind(b: seq<U8>, c: seq<U8>)
    requires |c| == SLOT
    ensures RegionAt(b + c, |b|) == RegionAt(c, 0)
  {
    var o := |b|;
    assert (b + c)[o..o + 8] == c[0..8] && (b + c)[o + 8..o + 16] == c[8..16];
  }

  /** The buffer that e820 leaves, read as a map of bp entries, is what the BIOS reported. */
  lemma MapIsReported(answers: seq<Answer>, n: nat, buf: seq<U8>, bp: nat)
    requires n <= |answers| && forall a :: a in answers ==> a.Valid()
    requires SLOT * bp <= |buf| && buf[..SLOT * bp] == KeptSlots(answers, n)
    ensures RegionsIn(buf, bp) == Reported(answers, n)
  {
    SlotsAreReported(answers, n);
    forall i | 0 <= i < bp ensures RegionAt(buf, SLOT * i) == RegionAt(KeptSlots(answers, n), SLOT * i) {
      var head, tail := buf[..SLOT * bp], buf[SLOT * bp..];
      assert head + tail == buf;
      RegionInside(head, tail, SLOT * i);
    }
  }

  /** An answer of 20 bytes or more is read with the numbers the BIOS gave; one of exactly 20 gets
      attribute word 1. A kept one is not empty. */
  lemma ReportedEntry(a: Answer, base: U64, len: U64, kind: U32)
    requires a.Valid() && Kept(a) && a.data[..20] == ToLE(base, 8) + ToLE(len, 8) + ToLE(kind, 4)
    ensures var r := RegionAt(Slot(a), 0);
            && r.base == base && r.lenOrEnd == len && r.kind == kind
            && (|a.data| == 20 ==> r.attrs == 1)
            && len != 0
  {
    assert Slot(a)[..20] == a.data[..20];
    RegionOfBytes(Slot(a), base, len, kind);
    KeptNotEmpty(a);
  }

  lemma RegionOfBytes(s: seq<U8>, base: U64, len: U64, kind: U32)
    requires |s| == SLOT && s[..20] == ToLE(base, 8) + ToLE(len, 8) + ToLE(kind, 4)
    ensures RegionAt(s, 0) == Region(base, len, kind, LongAt(s, 20))
  {
    var b := ToLE(base, 8) + ToLE(len, 8) + ToLE(kind, 4);
    assert s[0..8] == b[0..8] == ToLE(base, 8);
    assert s[8..16] == b[8..16] == ToLE(len, 8);
    assert s[16..20] == b[16..20] == ToLE(kind, 4);
    WordOf(s, 0, base);
    WordOf(s, 8, len);
    LongOf(s, 16, kind);
  }

  lemma KeptNotEmpty(a: Answer)
    requires a.Valid() && Kept(a)
    ensures RegionAt(Slot(a), 0).lenOrEnd != 0
  {
    WordOfLongs(Slot(a), 8);
  }

  /** A little-endian 64-bit number is made of two of 32 bits. */
  lemma WordOfLongs(s: seq<U8>, a: nat)
    requires a + 8 <= |s|
    ensures WordAt(s, a) == LongAt(s, a) + 0x1_0000_0000 * LongAt(s, a + 4)
  {
    var b := s[a..a + 8];
    assert b[1..][1..] == b[2..] && b[2..][1..] == b[3..] && b[3..][1..] == b[4..] && b[4..][1..] == b[5..];
    assert b[5..][1..] == b[6..] && b[6..][1..] == b[7..] && b[7..][1..] == [];
    assert FromLE(b[7..]) == b[7] && FromLE(b[6..]) == b[6] + 256 * FromLE(b[7..]);
    assert FromLE(b[5..]) == b[5] + 256 * FromLE(b[6..]) && FromLE(b[4..]) == b[4] + 256 * FromLE(b[5..]);
    assert FromLE(b[3..]) == b[3] + 256 * FromLE(b[4..]) && FromLE(b[2..]) == b[2] + 256 * FromLE(b[3..]);
    assert FromLE(b[1..]) == b[1] + 256 * FromLE(b[2..]);
  }

  /** No entry of the map is empty. */
  lemma {:induction false} NoEmptyEntry(answers: seq<Answer>, n: nat)
    requires n <= |answers| && forall a :: a in answers ==> a.Valid()
    ensures forall i :: 0 <= i < |Reported(answers, n)| ==> Reported(answers, n)[i].lenOrEnd != 0
  {
    if n == 0 {
    } else {
      NoEmptyEntry(answers, n - 1);
      if Kept(answers[n - 1]) {
        KeptNotEmpty(answers[n - 1]);
      }
    }
  }

  // ----------------------------------------------------- whole answers

  /** An answer of the BIOS: no carry, the right signature, and base, length and type in its first
      20 bytes. */
  ghost predicate Gives(a: Answer, base: U64, len: U64, kind: U32) {
    && a.Valid() && !a.carry && a.signature && a.ecx != 0
    && a.data[..20] == ToLE(base, 8) + ToLE(len, 8) + ToLE(kind, 4)
  }

  /** It is kept exactly when it does not ask to be ignored and the halves of the length add up to
      something else than 0 and 2^32. */
  lemma KeptExactly(a: Answer, base: U64, len: U64, kind: U32)
    requires Gives(a, base, len, kind)
    ensures Kept(a)
            <==> (|a.data| == 20 || a.data[20] % 2 == 1)
                 && len / 0x1_0000_0000 + len % 0x1_0000_0000 != 0
                 && len / 0x1_0000_0000 + len % 0x1_0000_0000 != 0x1_0000_0000
  {
    var s := Slot(a);
    assert s[..20] == a.data[..20];
    RegionOfBytes(s, base, len, kind);
    WordOfLongs(s, 8);
    ModUnique(len, 0x1_0000_0000, LongAt(s, 12), LongAt(s, 8));
    HalvesWrap(LongAt(s, 8), LongAt(s, 12));
  }

  lemma HalvesWrap(lo: U32, hi: U32)
    ensures Wrap32(lo + hi) != 0 <==> lo + hi != 0 && lo + hi != 0x1_0000_0000
  {
  }

  /** One entry of a map as the BIOS knows it. */
  datatype Range = Range(base: U64, len: U64, kind: U32)

  /** Its answer is not ignored and not taken for empty. */
  ghost predicate Ordinary(a: Answer, g: Range) {
    && Gives(a, g.base, g.len, g.kind) && (|a.data| == 20 || a.data[20] % 2 == 1)
    && g.len != 0 && g.len / 0x1_0000_0000 + g.len % 0x1_0000_0000 != 0x1_0000_0000
  }

  /** The BIOS gives ranges one by one, and ends the list behind the last. */
  ghost predicate Lists(answers: seq<Answer>, ranges: seq<Range>) {
    && |answers| == |ranges| > 0
    && forall i :: 0 <= i < |ranges| ==> ListedAt(answers, ranges, i)
  }

  ghost predicate ListedAt(answers: seq<Answer>, ranges: seq<Range>, i: nat)
    requires i < |answers| == |ranges|
  {
    Ordinary(answers[i], ranges[i]) && (answers[i].ebx == 0 <==> i == |ranges| - 1)
  }

  lemma ListEnds(answers: seq<Answer>, ranges: seq<Range>)
    requires Lists(answers, ranges)
    ensures forall a :: a in answers ==> a.Valid()
    ensures EndsAt(answers, |ranges| - 1) && Succeeds(answers, |ranges| - 1) && !answers[|ranges| - 1].carry
  {
    forall i | 0 <= i < |answers| ensures answers[i].Valid() && (Ends(answers[i]) <==> i == |ranges| - 1) {
      assert ListedAt(answers, ranges, i);
    }
    assert ListedAt(answers, ranges, |ranges| - 1);
  }

  /** How the call ends, by its first answer that is not a plain one. */
  lemma Outcomes(answers: seq<Answer>, e: nat)
    requires e < |answers|
    requires forall j :: 0 <= j < e ==> !answers[j].carry && answers[j].signature && answers[j].ebx != 0
    ensures EndsAt(answers, e) <==> answers[e].carry || !answers[e].signature || answers[e].ebx == 0
    ensures answers[e].carry ==> (Succeeds(answers, e) <==> e != 0)
    ensures !answers[e].carry ==> (Succeeds(answers, e) <==> answers[e].signature)
  {
  }

  /** The first n answers are all kept. */
  predicate AllKept(answers: seq<Answer>, n: nat)
    requires n <= |answers|
  {
    n == 0 || (answers[n - 1].Valid() && Kept(answers[n - 1]) && AllKept(answers, n - 1))
  }

  lemma {:induction false} ListKept(answers: seq<Answer>, ranges: seq<Range>, n: nat)
    requires Lists(answers, ranges) && n <= |ranges|
    ensures AllKept(answers, n)
  {
    if n == 0 {
    } else {
      ListKept(answers, ranges, n - 1);
      RangeKept(answers, ranges, n - 1);
      OneMoreKept(answers, n);
    }
  }

  lemma RangeKept(answers: seq<Answer>, ranges: seq<Range>, i: nat)
    requires Lists(answers, ranges) && i < |ranges|
    ensures answers[i].Valid() && Kept(answers[i])
  {
    RangeReported(answers, ranges, i);
  }

  lemma OneMoreKept(answers: seq<Answer>, n: nat)
    requires 0 < n <= |answers| && AllKept(answers, n - 1) && answers[n - 1].Valid() && Kept(answers[n - 1])
    ensures AllKept(answers, n)
  {
  }

  lemma {:induction false} KeptReported(answers: seq<Answer>, n: nat, i: nat)
    requires n <= |answers| && AllKept(answers, n) && forall a :: a in answers ==> a.Valid()
    ensures |Reported(answers, n)| == n
    ensures i < n ==> Reported(answers, n)[i] == Entry(answers, i)
  {
    if n == 0 {
    } else {
      KeptReported(answers, n - 1, i);
    }
  }

  /** The entry that answer i makes when it is kept. */
  function Entry(answers: seq<Answer>, i: nat): Region
    requires i < |answers|
  {
    var a := answers[i];
    if a.Valid() && !a.carry && a.ecx != 0 then RegionAt(Slot(a), 0) else Region(0, 0, 0, 0)
  }

  predicate Matches(r: Region, g: Range) { r.base == g.base && r.lenOrEnd == g.len && r.kind == g.kind }

  lemma RangeReported(answers: seq<Answer>, ranges: seq<Range>, i: nat)
    requires Lists(answers, ranges) && i < |ranges|
    ensures answers[i].Valid() && Kept(answers[i]) && Matches(Entry(answers, i), ranges[i])
  {
    var a, g := answers[i], ranges[i];
    assert ListedAt(answers, ranges, i);
    KeptExactly(a, g.base, g.len, g.kind);
    ReportedEntry(a, g.base, g.len, g.kind);
  }

  /** map_memory: the map is collected and its size saved, or the boot fails. What stage 2 then
      reads in the buffer is what the answers report. */
  method MapMemory(answers: seq<Answer>, buf: array<U8>, ghost e: nat) returns (ok: bool, size: U16)
    requires EndsAt(answers, e) && forall a :: a in answers ==> a.Valid()
    requires |KeptSlots(answers, e)| + 24 <= buf.Length <= 0x1_0000
    modifies buf
    ensures ok == Succeeds(answers, e)
    ensures ok ==> 24 * size <= buf.Length
                   && RegionsIn(buf[..], size) == Reported(answers, if answers[e].carry then e else e + 1)
  {
    ok, size := E820(answers, buf, e);
    if ok {
      assert buf[..][..SLOT * size] == buf[..SLOT * size];
      MapIsReported(answers, if answers[e].carry then e else e + 1, buf[..], size);
    }
  }

  /** For a BIOS that lists ranges these are the ranges, in order and without a gap; the call
      succeeds, and needs room for them. */
  lemma RangesReported(answers: seq<Answer>, ranges: seq<Range>)
    requires Lists(answers, ranges)
    ensures forall a :: a in answers ==> a.Valid()
    ensures EndsAt(answers, |ranges| - 1) && Succeeds(answers, |ranges| - 1) && !answers[|ranges| - 1].carry
    ensures |KeptSlots(answers, |ranges| - 1)| + 24 == 24 * |ranges|
    ensures |Reported(answers, |ranges|)| == |ranges|
    ensures forall i :: 0 <= i < |ranges| ==> Matches(Reported(answers, |ranges|)[i], ranges[i])
  {
    ListEnds(answers, ranges);
    ListSlots(answers, ranges);
    ListKept(answers, ranges, |ranges|);
    KeptSize(answers, |ranges|);
    forall i | 0 <= i < |ranges| ensures Matches(Reported(answers, |ranges|)[i], ranges[i]) {
      KeptReported(answers, |ranges|, i);
      RangeReported(answers, ranges, i);
    }
  }

  lemma ListSlots(answers: seq<Answer>, ranges: seq<Range>)
    requires Lists(answers, ranges) && forall a :: a in answers ==> a.Valid()
    ensures |KeptSlots(answers, |ranges| - 1)| == 24 * (|ranges| - 1)
  {
    ListKept(answers, ranges, |ranges| - 1);
    KeptSize(answers, |ranges| - 1);
  }

  lemma KeptSize(answers: seq<Answer>, n: nat)
    requires n <= |answers| && AllKept(answers, n) && forall a :: a in answers ==> a.Valid()
    ensures |KeptSlots(answers, n)| == 24 * n && |Reported(answers, n)| == n
  {
    KeptReported(answers, n, 0);
    SlotsAreReported(answers, n);
  }

  /** The loader takes range k of such a map exactly when its type is 1, it starts at 1 MiB or above
      and is large enough, and none before it is so. */
  lemma RangeTaken(rs: seq<Region>, ranges: seq<Range>, total: nat, k: int)
    requires |rs| == |ranges| && forall i :: 0 <= i < |ranges| ==> Matches(rs[i], ranges[i])
    ensures FirstFit(rs, total, k)
            <==> && 0 <= k < |ranges| && ranges[k].kind == 1 && ranges[k].base >= 0x10_0000 && ranges[k].len >= total
                 && forall j :: 0 <= j < k ==> ranges[j].kind != 1 || ranges[j].base < 0x10_0000 || ranges[j].len < total
  {
    FirstFitMeans(rs, total, k);
  }

  /** Type 1 is the byte 1 and three zeros. */
  lemma FreeTypeBytes(a: Answer, base: U64, len: U64, kind: U32)
    requires Gives(a, base, len, kind)
    ensures a.data[16..20] == [1, 0, 0, 0] <==> kind == 1
  {
    assert a.data[16..20] == a.data[..20][16..20] == ToLE(kind, 4);
    assert ToLE(1, 4) == [1] + ToLE(0, 3) && ToLE(0, 3) == [0, 0, 0];
    if ToLE(kind, 4) == [1, 0, 0, 0] {
      LongOf(ToLE(kind, 4), 0, kind);
    }
  }
}
