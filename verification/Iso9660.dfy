/** Finding a file in the root directory of an ISO 9660 volume (ECMA-119 sections 8.4 and
    9.1): the loader's walk over variable-length records, and its list specification. */
module Iso9660 {
  import opened Machine
  import opened Disk

  const PVD_START: nat := 0x10
  const PVD_SIGNATURE: U8 := 0x01

  // Byte positions in the volume descriptor and in a directory record.
  const DIR_OFFSET: nat := 0x9C
  const DIR_EXT_LOC: nat := 0x02
  const DIR_EXT_SIZE: nat := 0x0A
  const DIR_FILENAME: nat := 0x21

  // ---------------------------------------------------------- specification

  /** What the search looks at in a record: `tail` is all the bytes of the sector from the
      identifier on, as the loader never asks where the identifier ends. */
  datatype Record = Record(extent: U32, size: U32, tail: seq<U8>)

  predicate Matches(r: Record, name: seq<U8>) { |name| <= 256 && name <= r.tail }

  /** A zero byte at or behind a. */
  predicate ZeroFrom(s: seq<U8>, a: nat) { exists z :: a <= z < |s| && s[z] == 0 }

  /** The walk from offset o on, whatever the name, stays in memory s: it comes to a zero length
      byte, and from each identifier on there is a zero byte to stop a comparison. Length bytes
      are taken as they are, even ones too small for a record. */
  predicate Chained(s: seq<U8>, o: nat)
    decreases |s| - o
  {
    o < |s| && (s[o] == 0 || (ZeroFrom(s, o + DIR_FILENAME) && Chained(s, o + s[o])))
  }

  lemma {:induction false} ChainEnds(s: seq<U8>, o: nat)
    requires Chained(s, o)
    ensures ZeroFrom(s, o)
    decreases |s| - o
  {
    if s[o] == 0 {
    } else {
      ChainEnds(s, o + s[o]);
      var z :| o + s[o] <= z < |s| && s[z] == 0;
    }
  }

  lemma ZeroBehind(c: seq<U8>, n: nat, o: nat)
    requires n <= |c| && ZeroFrom(c[n..], o)
    ensures ZeroFrom(c, n + o)
  {
    var z :| o <= z < |c[n..]| && c[n..][z] == 0;
    assert c[n + z] == 0;
  }

  function RecordAt(s: seq<U8>, o: nat): Record
    requires o + DIR_FILENAME <= |s|
  {
    Record(LongAt(s, o + DIR_EXT_LOC), LongAt(s, o + DIR_EXT_SIZE), s[o + DIR_FILENAME..])
  }

  function Records(s: seq<U8>, o: nat): seq<Record>
    requires Chained(s, o)
    decreases |s| - o
  {
    if s[o] == 0 then []
    else
      [RecordAt(s, o)] + Records(s, o + s[o])
  }

  lemma ChainBack(s: seq<U8>, o: nat)
    requires o < |s| && s[o] != 0 && ZeroFrom(s, o + DIR_FILENAME) && Chained(s, o + s[o])
    ensures Chained(s, o) && Records(s, o) == [RecordAt(s, o)] + Records(s, o + s[o])
  {
  }

  /** A chain is the same behind other bytes. */
  lemma {:induction false} RecordsBehind(c: seq<U8>, n: nat, o: nat)
    requires n <= |c| && Chained(c[n..], o)
    ensures Chained(c, n + o) && Records(c, n + o) == Records(c[n..], o)
    decreases |c| - o
  {
    var b := c[n..];
    assert c[n + o] == b[o];
    if b[o] == 0 {
    } else {
      RecordsBehind(c, n, o + b[o]);
      ZeroBehind(c, n, o + DIR_FILENAME);
      RecordBehind(c, n, o);
      ChainBack(c, n + o);
    }
  }

  lemma RecordBehind(c: seq<U8>, n: nat, o: nat)
    requires n + o + DIR_FILENAME <= |c|
    ensures RecordAt(c, n + o) == RecordAt(c[n..], o)
  {
    var b := c[n..];
    assert c[n + o + DIR_EXT_LOC..n + o + DIR_EXT_LOC + 4] == b[o + DIR_EXT_LOC..o + DIR_EXT_LOC + 4];
    assert c[n + o + DIR_EXT_SIZE..n + o + DIR_EXT_SIZE + 4] == b[o + DIR_EXT_SIZE..o + DIR_EXT_SIZE + 4];
    assert c[n + o + DIR_FILENAME..] == b[o + DIR_FILENAME..];
  }

  /** The first record in the list that matches. */
  function First(rs: seq<Record>, name: seq<U8>): Option<Record> {
    if rs == [] then None
    else if Matches(rs[0], name) then Some(rs[0])
    else First(rs[1..], name)
  }

  /** It is the matching record of least index i, and none exactly when no record matches. */
  lemma {:induction false} FirstIsLeast(rs: seq<Record>, name: seq<U8>) returns (i: nat)
    ensures i <= |rs| && forall j :: 0 <= j < i ==> !Matches(rs[j], name)
    ensures First(rs, name) == if i < |rs| then Some(rs[i]) else None
    ensures i < |rs| ==> Matches(rs[i], name)
  {
    if rs == [] {
      i := 0;
    } else if Matches(rs[0], name) {
      i := 0;
    } else {
      i := FirstIsLeast(rs[1..], name);
      assert forall j :: 1 <= j < |rs| ==> rs[j] == rs[1..][j - 1];
      i := i + 1;
    }
  }

  lemma FirstStep(s: seq<U8>, o: nat, name: seq<U8>)
    requires Chained(s, o) && s[o] != 0
    ensures ZeroFrom(s, o + DIR_FILENAME) && Chained(s, o + s[o]) && o + DIR_FILENAME <= |s|
    ensures if |name| <= 256 && name <= s[o + DIR_FILENAME..] then First(Records(s, o), name) == Some(RecordAt(s, o))
            else First(Records(s, o), name) == First(Records(s, o + s[o]), name)
  {
    assert Records(s, o)[1..] == Records(s, o + s[o]);
  }

  // ------------------------------------------------------ what is walked

  /** Comparing the name with what stands at a reads no byte outside s: it ends at a mismatch, at
      the end of the name, or behind 257 characters, before s does. */
  predicate Comparable(s: seq<U8>, a: nat, name: seq<U8>) {
    && a <= |s|
    && (|s| - a > 256 || |s| - a >= |name| || exists j :: 0 <= j < |s| - a && j < |name| && s[a + j] != name[j])
  }

  /** The search for a name from offset o on stays in s up to the first match, or to the zero
      length byte if there is none. What stands behind the match does not matter. */
  predicate Walks(s: seq<U8>, o: nat, name: seq<U8>)
    decreases |s| - o
  {
    && o < |s|
    && (s[o] == 0
        || (Comparable(s, o + DIR_FILENAME, name)
            && (Matches(RecordAt(s, o), name) || Walks(s, o + s[o], name))))
  }

  /** The first match on the way. */
  function Find(s: seq<U8>, o: nat, name: seq<U8>): Option<Record>
    requires Walks(s, o, name)
    decreases |s| - o
  {
    if s[o] == 0 then None
    else if Matches(RecordAt(s, o), name) then Some(RecordAt(s, o))
    else Find(s, o + s[o], name)
  }

  /** On a whole chain it is the first match in the list of its records. */
  lemma {:induction false} ChainedWalks(s: seq<U8>, o: nat, name: seq<U8>)
    requires Chained(s, o) && 0 !in name
    ensures Walks(s, o, name) && Find(s, o, name) == First(Records(s, o), name)
    decreases |s| - o
  {
    if s[o] == 0 {
    } else {
      FirstStep(s, o, name);
      ZeroStops(s, o + DIR_FILENAME, name);
      ChainedWalks(s, o + s[o], name);
    }
  }

  lemma ZeroStops(s: seq<U8>, a: nat, name: seq<U8>)
    requires ZeroFrom(s, a) && 0 !in name
    ensures Comparable(s, a, name)
  {
    var z :| a <= z < |s| && s[z] == 0;
    if z - a < |name| {
      assert name[z - a] in name && s[a + (z - a)] != name[z - a];
    }
  }

  /** The loader's sector buffer is part of memory: what stands behind it is `rest`, and the walk
      through a sector that is full to its last byte goes on there. */
  ghost predicate WalksSectors(disk: seq<Sector>, rest: seq<U8>, lba: nat, n: nat, name: seq<U8>)
    decreases n
  {
    n == 0
    || (lba < |disk| && Walks(disk[lba] + rest, 0, name)
        && (Hit(disk[lba] + rest, name) || WalksSectors(disk, rest, lba + 1, n - 1, name)))
  }

  /** A match with extent 0 counts as none in its sector. */
  ghost predicate Hit(s: seq<U8>, name: seq<U8>)
    requires Walks(s, 0, name)
  {
    Find(s, 0, name).Some? && Find(s, 0, name).value.extent != 0
  }

  /** What the sector loop computes. */
  ghost function Lookup(disk: seq<Sector>, rest: seq<U8>, lba: nat, n: nat, name: seq<U8>): Option<Record>
    requires WalksSectors(disk, rest, lba, n, name)
    decreases n
  {
    if n == 0 then None
    else if Hit(disk[lba] + rest, name) then Find(disk[lba] + rest, 0, name)
    else Lookup(disk, rest, lba + 1, n - 1, name)
  }

  // --------------------------------------------------- whole directories

  ghost predicate ChainedSectors(disk: seq<Sector>, rest: seq<U8>, lba: nat, n: nat) {
    lba + n <= |disk| && forall i :: lba <= i < lba + n ==> Chained(disk[i] + rest, 0)
  }

  /** All records of n sectors, in directory order. */
  ghost function Directory(disk: seq<Sector>, rest: seq<U8>, lba: nat, n: nat): seq<Record>
    requires ChainedSectors(disk, rest, lba, n)
    decreases n
  {
    if n == 0 then [] else Records(disk[lba] + rest, 0) + Directory(disk, rest, lba + 1, n - 1)
  }

  lemma {:induction false} FirstOfConcat(a: seq<Record>, b: seq<Record>, name: seq<U8>)
    ensures First(a + b, name) == if First(a, name).Some? then First(a, name) else First(b, name)
  {
    if a == [] {
      assert a + b == b;
    } else {
      assert (a + b)[0] == a[0] && (a + b)[1..] == a[1..] + b;
      FirstOfConcat(a[1..], b, name);
    }
  }

  lemma {:induction false} LookupNonzero(disk: seq<Sector>, rest: seq<U8>, lba: nat, n: nat, name: seq<U8>)
    requires WalksSectors(disk, rest, lba, n, name)
    ensures var r := Lookup(disk, rest, lba, n, name); r.Some? ==> r.value.extent != 0
    decreases n
  {
    if n == 0 || Hit(disk[lba] + rest, name) {
    } else {
      LookupNonzero(disk, rest, lba + 1, n - 1, name);
    }
  }

  /** The search is "first match in directory order" exactly when that match, if there is
      one, has a nonzero extent. */
  lemma {:induction false} LookupIsFirst(disk: seq<Sector>, rest: seq<U8>, lba: nat, n: nat, name: seq<U8>)
    requires ChainedSectors(disk, rest, lba, n) && 0 !in name
    ensures WalksSectors(disk, rest, lba, n, name)
    ensures var first := First(Directory(disk, rest, lba, n), name);
            Lookup(disk, rest, lba, n, name) == first <==> (first.Some? ==> first.value.extent != 0)
    decreases n
  {
    if n == 0 {
    } else {
      ChainedWalks(disk[lba] + rest, 0, name);
      FirstOfConcat(Records(disk[lba] + rest, 0), Directory(disk, rest, lba + 1, n - 1), name);
      LookupIsFirst(disk, rest, lba + 1, n - 1, name);
      LookupNonzero(disk, rest, lba, n, name);
    }
  }

  /** Records with full headers, as ECMA-119 has them, one behind the other up to a zero byte. */
  predicate Closed(s: seq<U8>, o: nat)
    decreases |s| - o
  {
    o < |s| && (s[o] == 0 || (s[o] >= DIR_FILENAME && Closed(s, o + s[o])))
  }

  lemma {:induction false} ClosedChained(s: seq<U8>, o: nat)
    requires Closed(s, o)
    ensures Chained(s, o) && ZeroFrom(s, o)
    decreases |s| - o
  {
    if s[o] == 0 {
    } else {
      ClosedChained(s, o + s[o]);
      var z :| o + s[o] <= z < |s| && s[z] == 0;
    }
  }

  /** Such sectors can be searched for any name, whatever memory holds behind the buffer; so can
      one filled to its last byte, if the memory behind the buffer closes it. */
  lemma FullRecordsSearchable(disk: seq<Sector>, rest: seq<U8>, lba: nat, n: nat, name: seq<U8>)
    requires lba + n <= |disk| && 0 !in name
    requires forall i :: lba <= i < lba + n ==> Closed(disk[i], 0) || Closed(disk[i] + rest, 0)
    ensures ChainedSectors(disk, rest, lba, n) && WalksSectors(disk, rest, lba, n, name)
  {
    forall i | lba <= i < lba + n ensures Chained(disk[i] + rest, 0) {
      if Closed(disk[i], 0) {
        ClosedBefore(disk[i], rest, 0);
      }
      ClosedChained(disk[i] + rest, 0);
    }
    LookupIsFirst(disk, rest, lba, n, name);
  }

  lemma {:induction false} ClosedBefore(s: seq<U8>, rest: seq<U8>, o: nat)
    requires Closed(s, o)
    ensures Closed(s + rest, o)
    decreases |s| - o
  {
    assert (s + rest)[o] == s[o];
    if s[o] == 0 {
    } else {
      ClosedBefore(s, rest, o + s[o]);
    }
  }

  // ------------------------------------------------------------- descriptor

  ghost predicate HasDescriptor(disk: seq<Sector>, l: nat) {
    exists k :: l <= k < |disk| && disk[k][0] == PVD_SIGNATURE
  }

  /** The first sector from l on that starts with the primary descriptor's type. */
  ghost function DescriptorFrom(disk: seq<Sector>, l: nat): (r: nat)
    requires HasDescriptor(disk, l)
    ensures l <= r < |disk| && disk[r][0] == PVD_SIGNATURE
    ensures forall k :: l <= k < r ==> disk[k][0] != PVD_SIGNATURE
    decreases |disk| - l
  {
    if disk[l][0] == PVD_SIGNATURE then l else DescriptorFrom(disk, l + 1)
  }

  /** The descriptor the search ends up with: what is in the buffer already if that looks
      like one, else the first on the disk. */
  ghost function Descriptor(disk: seq<Sector>, buf: Sector): Sector
    requires buf[0] == PVD_SIGNATURE || HasDescriptor(disk, PVD_START)
  {
    if buf[0] == PVD_SIGNATURE then buf else disk[DescriptorFrom(disk, PVD_START)]
  }

  function RootLba(pvd: Sector): U32 { LongAt(pvd, DIR_OFFSET + DIR_EXT_LOC) }

  /** Whole sectors of the root directory; the counter keeps 16 bits. */
  function RootSectors(pvd: Sector): U16 { Wrap16(LongAt(pvd, DIR_OFFSET + DIR_EXT_SIZE) / 2048) }

  // ------------------------------------------------------------- the search

  /** compare_str; `str` is the contents of a C string. */
  method CompareStr(str: seq<U8>, mem: array<U8>, at: nat) returns (r: nat)
    requires 0 !in str && Comparable(mem[..], at, str)
    ensures r == 0 <==> |str| <= 256 && str <= mem[at..]
  {
    ghost var room := mem.Length - at;
    ghost var stop := |str|;
    if room <= 256 && room < |str| {
      stop :| 0 <= stop < room && mem[..][at + stop] != str[stop];
    }
    var i := 0;
    while i < |str|
      invariant 0 <= i <= |str| && i <= 256
      invariant room > 256 || (i <= stop && (stop < room || stop == |str| <= room))
      invariant forall j :: 0 <= j < i ==> str[j] == mem[at + j]
    {
      if str[i] != mem[at + i] {
        assert mem[at..][i] == mem[at + i];
        return i + 1;
      }
      if i == 256 {
        return i;
      }
      i := i + 1;
    }
    return 0;
  }

  /** How a search result is returned: as extent, with *fsize set, or as 0 with *fsize as it was. */
  predicate Returns(rec: Option<Record>, size: U32, r: U32, fsize: U32) {
    match rec {
      case None => r == 0 && fsize == size
      case Some(x) => r == x.extent && fsize == x.size
    }
  }

  /** search_directory: the walk over the record chain that starts at the buffer; `size` stands
      for *fsize. */
  method SearchDirectory(size: U32, buf: array<U8>, name: seq<U8>) returns (r: U32, fsize: U32)
    requires Walks(buf[..], 0, name) && 0 !in name
    ensures Returns(Find(buf[..], 0, name), size, r, fsize)
  {
    ghost var s := buf[..];
    var offset: nat := 0;
    while buf[offset] != 0
      invariant Ahead(s, offset, name, Find(s, 0, name))
      decreases buf.Length - offset
    {
      var hit;
      hit, r, fsize := TestRecord(size, buf, offset, name, Find(s, 0, name));
      if hit {
        return;
      }
      offset := offset + buf[offset];
    }
    return 0, size;
  }

  /** The walk from offset o on finds `found`. */
  ghost predicate Ahead(s: seq<U8>, o: nat, name: seq<U8>, found: Option<Record>) {
    Walks(s, o, name) && Find(s, o, name) == found
  }

  /** The body of that loop: a record that matches is the answer, else the walk goes on. */
  method TestRecord(size: U32, buf: array<U8>, offset: nat, name: seq<U8>, ghost found: Option<Record>)
    returns (hit: bool, r: U32, fsize: U32)
    requires Ahead(buf[..], offset, name, found) && buf[offset] != 0 && 0 !in name
    ensures if hit then Returns(found, size, r, fsize) else Ahead(buf[..], offset + buf[offset], name, found)
  {
    var c := CompareStr(name, buf, offset + DIR_FILENAME);
    assert buf[..][offset + DIR_FILENAME..] == buf[offset + DIR_FILENAME..];
    hit, r, fsize := c == 0, LongAt(buf[..], offset + DIR_EXT_LOC), LongAt(buf[..], offset + DIR_EXT_SIZE);
  }

  /** The descriptor scan of cdrom_search. Without a descriptor to find it would not end. */
  method FindDescriptor(disk: seq<Sector>, buf: array<U8>)
    requires buf.Length >= 2048 && |disk| <= 0x1_0000_0000
    requires buf[0] == PVD_SIGNATURE || HasDescriptor(disk, PVD_START)
    modifies buf
    ensures buf[..2048] == old(Descriptor(disk, buf[..2048])) && buf[2048..] == old(buf[2048..])
  {
    ghost var pvd := Descriptor(disk, buf[..2048]);
    var lbaOff: U32 := 0;
    while buf[0] != PVD_SIGNATURE
      invariant buf[2048..] == old(buf[2048..])
      invariant buf[0] == PVD_SIGNATURE ==> buf[..2048] == pvd
      invariant buf[0] != PVD_SIGNATURE ==>
                  HasDescriptor(disk, PVD_START + lbaOff) && disk[DescriptorFrom(disk, PVD_START + lbaOff)] == pvd
      decreases |disk| - lbaOff
    {
      ReadBuffer(disk, Wrap32(PVD_START + lbaOff), buf);
      lbaOff := Wrap32(lbaOff + 1);
    }
  }

  /** One turn of the sector loop. */
  method SearchSector(disk: seq<Sector>, lba: nat, size: U32, buf: array<U8>, name: seq<U8>) returns (r: U32, fsize: U32)
    requires buf.Length >= 2048 && 0 !in name && lba < |disk| <= 0x1_0000_0000
    requires Walks(disk[lba] + buf[2048..], 0, name)
    modifies buf
    ensures buf[2048..] == old(buf[2048..])
    ensures Returns(Find(disk[lba] + old(buf[2048..]), 0, name), size, r, fsize)
  {
    ReadBuffer(disk, Wrap32(lba), buf);
    assert buf[..] == buf[..2048] + buf[2048..];
    r, fsize := SearchDirectory(size, buf, name);
  }

  /** cdrom_search. */
  method CdromSearch(disk: seq<Sector>, name: seq<U8>, size: U32, buf: array<U8>) returns (r: U32, fsize: U32)
    requires buf.Length >= 2048 && 0 !in name && |disk| <= 0x1_0000_0000
    requires buf[0] == PVD_SIGNATURE || HasDescriptor(disk, PVD_START)
    requires var pvd := Descriptor(disk, buf[..2048]);
             WalksSectors(disk, buf[2048..], RootLba(pvd), RootSectors(pvd), name)
    modifies buf
    ensures buf[2048..] == old(buf[2048..])
    ensures var pvd := old(Descriptor(disk, buf[..2048]));
            match Lookup(disk, old(buf[2048..]), RootLba(pvd), RootSectors(pvd), name) {
              case None => r == 0 && fsize == 0
              case Some(rec) => r == rec.extent != 0 && fsize == rec.size
            }
  {
    FindDescriptor(disk, buf);
    r, fsize := SearchSectors(disk, RootLba(buf[..2048]), RootSectors(buf[..2048]), name, size, buf);
  }

  /** What the answer for one sector says about the whole search. */
  lemma LookupStep(disk: seq<Sector>, rest: seq<U8>, lba: nat, n: nat, name: seq<U8>, size: U32, r: U32, fsize: U32)
    requires WalksSectors(disk, rest, lba, n, name) && n > 0
    requires Returns(Find(disk[lba] + rest, 0, name), size, r, fsize)
    ensures r == 0 ==> WalksSectors(disk, rest, lba + 1, n - 1, name)
    ensures r == 0 ==> Lookup(disk, rest, lba, n, name) == Lookup(disk, rest, lba + 1, n - 1, name)
    ensures r != 0 ==> Lookup(disk, rest, lba, n, name).Some? && Returns(Lookup(disk, rest, lba, n, name), 0, r, fsize)
  {
  }

  /** The sector loop of cdrom_search. */
  method SearchSectors(disk: seq<Sector>, dirLba: U32, dirSectors: U16, name: seq<U8>, size: U32, buf: array<U8>)
    returns (r: U32, fsize: U32)
    requires buf.Length >= 2048 && 0 !in name && |disk| <= 0x1_0000_0000
    requires WalksSectors(disk, buf[2048..], dirLba, dirSectors, name)
    modifies buf
    ensures buf[2048..] == old(buf[2048..])
    ensures Returns(Lookup(disk, old(buf[2048..]), dirLba, dirSectors, name), 0, r, fsize)
    ensures Lookup(disk, old(buf[2048..]), dirLba, dirSectors, name).Some? ==> r != 0
  {
    ghost var rest := buf[2048..];
    ghost var found := Lookup(disk, rest, dirLba, dirSectors, name);
    fsize := size;
    var cur: U32 := 0;
    while cur < dirSectors
      invariant 0 <= cur <= dirSectors
      invariant buf[2048..] == rest
      invariant WalksSectors(disk, rest, dirLba + cur, dirSectors - cur, name)
      invariant Lookup(disk, rest, dirLba + cur, dirSectors - cur, name) == found
    {
      ghost var before := fsize;
      r, fsize := SearchSector(disk, dirLba + cur, fsize, buf, name);
      LookupStep(disk, rest, dirLba + cur, dirSectors - cur, name, before, r, fsize);
      if r != 0 {
        return;
      }
      cur := cur + 1;
    }
    return 0, 0;
  }
}
