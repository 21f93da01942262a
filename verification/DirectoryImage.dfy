/** Writing a root directory and finding it again: files encoded as ECMA-119 section 9.1
    records and packed into sectors, against the loader's search. */
module DirectoryImage {
  import opened Machine
  import opened Disk
  import opened Iso9660

  import Boot

  /** One file. `meta` holds the fields the loader never reads: date, flags, unit size, gap and
      volume number. `su` is the system use field, where Rock Ridge keeps its entries. */
  datatype File = File(id: seq<U8>, extent: U32, size: U32, xattr: U8, meta: seq<U8>, su: seq<U8>)
  {
    /** The length of the record fits its byte. */
    ghost predicate Valid() {
      1 <= |id| && |meta| == 14 && DIR_FILENAME + |id| + |Padding()| + |su| < 0x100
    }

    /** A padding byte behind an identifier of even length. */
    function Padding(): seq<U8> { if |id| % 2 == 0 then [0] else [] }
  }

  function Reversed(b: seq<U8>): seq<U8> { seq(|b|, i requires 0 <= i < |b| => b[|b| - 1 - i]) }

  function Length(f: File): (n: U8)
    requires f.Valid()
    ensures n > DIR_FILENAME
  {
    DIR_FILENAME + |f.id| + |f.Padding()| + |f.su|
  }

  /** Both-endian numbers, then the identifier and the system use field. */
  function Encode(f: File): (b: seq<U8>)
    requires f.Valid()
    ensures |b| == Length(f)
  {
    [Length(f), f.xattr]
    + ToLE(f.extent, 4) + Reversed(ToLE(f.extent, 4))
    + ToLE(f.size, 4) + Reversed(ToLE(f.size, 4))
    + f.meta + [|f.id|] + f.id + (f.Padding() + f.su)
  }

  ghost predicate AllValid(fs: seq<File>) { forall i :: 0 <= i < |fs| ==> fs[i].Valid() }

  function EncodeAll(fs: seq<File>): seq<U8>
    requires AllValid(fs)
  {
    if fs == [] then [] else Encode(fs[0]) + EncodeAll(fs[1..])
  }

  /** How many files from the front fit a space. */
  function Fitting(fs: seq<File>, room: nat): (k: nat)
    requires AllValid(fs)
    ensures k <= |fs| && |EncodeAll(fs[..k])| <= room
    ensures fs != [] && room >= 255 ==> k > 0
    ensures k < |fs| ==> |EncodeAll(fs[..k])| + Length(fs[k]) > room
  {
    if fs == [] || Length(fs[0]) > room then 0
    else
      var k := Fitting(fs[1..], room - Length(fs[0]));
      assert fs[..k + 1][0] == fs[0] && fs[..k + 1][1..] == fs[1..][..k];
      k + 1
  }

  function PackSector(fs: seq<File>): Sector
    requires AllValid(fs) && |EncodeAll(fs)| <= 2048
  {
    EncodeAll(fs) + seq(2048 - |EncodeAll(fs)|, _ => 0)
  }

  /** Records in order, none crossing a sector boundary. A sector may be filled to its last byte. */
  function Pack(fs: seq<File>): seq<Sector>
    requires AllValid(fs)
  {
    if fs == [] then []
    else
      var k := Fitting(fs, 2048);
      [PackSector(fs[..k])] + Pack(fs[k..])
  }

  /** The first sector holds as many files as fit its 2048 bytes, and zeros behind them. */
  lemma FirstSectorTight(fs: seq<File>)
    requires AllValid(fs) && fs != []
    ensures exists k :: 0 < k <= |fs| && Tight(fs, k) && Pack(fs)[0][..|EncodeAll(fs[..k])|] == EncodeAll(fs[..k])
                        && Pack(fs)[1..] == Pack(fs[k..])
  {
    var k := Fitting(fs, 2048);
    assert Tight(fs, k);
    assert Pack(fs) == [PackSector(fs[..k])] + Pack(fs[k..]);
  }

  predicate Tight(fs: seq<File>, k: nat)
    requires AllValid(fs) && k <= |fs|
  {
    |EncodeAll(fs[..k])| <= 2048 && (k < |fs| ==> |EncodeAll(fs[..k])| + Length(fs[k]) > 2048)
  }

  /** Some sector is: then only what memory holds behind the loader's buffer can close it. */
  predicate FillsSector(fs: seq<File>)
    requires AllValid(fs)
  {
    fs != []
    && var k := Fitting(fs, 2048);
       |EncodeAll(fs[..k])| == 2048 || FillsSector(fs[k..])
  }

  /** Every sector comes to a zero byte where its records end. */
  predicate Closes(fs: seq<File>, rest: seq<U8>)
    requires AllValid(fs)
  {
    FillsSector(fs) ==> rest != [] && rest[0] == 0
  }

  lemma ClosesSplit(fs: seq<File>, rest: seq<U8>)
    requires AllValid(fs) && fs != []
    ensures var k := Fitting(fs, 2048);
            Closes(fs, rest)
            <==> (|EncodeAll(fs[..k])| == 2048 ==> rest != [] && rest[0] == 0) && Closes(fs[k..], rest)
  {
  }

  // ------------------------------------------------- what the search sees

  function UpToZero(b: seq<U8>): seq<U8> {
    if b == [] || b[0] == 0 then [] else [b[0]] + UpToZero(b[1..])
  }

  lemma {:induction false} UpToZeroStarts(b: seq<U8>)
    ensures UpToZero(b) + [0] <= b + [0]
  {
    if b == [] || b[0] == 0 {
    } else {
      UpToZeroStarts(b[1..]);
      assert b + [0] == [b[0]] + (b[1..] + [0]);
      assert UpToZero(b) + [0] == [b[0]] + (UpToZero(b[1..]) + [0]);
    }
  }

  /** What a name can match behind the identifier of file i in a sector. An identifier of even
      length is closed by its padding byte; behind one of odd length come the system use field and
      the next records, up to the first zero byte. */
  function RunOn(fs: seq<File>, i: nat): seq<U8>
    requires AllValid(fs) && i < |fs|
  {
    if |fs[i].id| % 2 == 0 then [] else UpToZero(fs[i].su + EncodeAll(fs[i + 1..]))
  }

  function SectorId(fs: seq<File>, i: nat): seq<U8>
    requires AllValid(fs) && i < |fs|
  {
    fs[i].id + RunOn(fs, i)
  }

  function SectorIds(fs: seq<File>): (ids: seq<seq<U8>>)
    requires AllValid(fs)
    ensures |ids| == |fs|
  {
    seq(|fs|, i requires 0 <= i < |fs| => SectorId(fs, i))
  }

  /** The same for a packed directory, sector by sector. */
  function SeenIds(fs: seq<File>): (ids: seq<seq<U8>>)
    requires AllValid(fs)
    ensures |ids| == |fs|
  {
    if fs == [] then []
    else
      var k := Fitting(fs, 2048);
      SectorIds(fs[..k]) + SeenIds(fs[k..])
  }

  function PackedRunOn(fs: seq<File>, i: nat): seq<U8>
    requires AllValid(fs) && i < |fs|
  {
    var k := Fitting(fs, 2048);
    if i < k then RunOn(fs[..k], i) else PackedRunOn(fs[k..], i - k)
  }

  lemma {:induction false} SeenIdIs(fs: seq<File>, i: nat)
    requires AllValid(fs) && i < |fs|
    ensures SeenIds(fs)[i] == fs[i].id + PackedRunOn(fs, i)
    decreases |fs|
  {
    var k := Fitting(fs, 2048);
    SeenIdsConcat(fs);
    if i < k {
      SeenFront(fs, i);
    } else {
      RunOnBack(fs, i);
      SeenIdIs(fs[k..], i - k);
    }
  }

  lemma SeenIdsConcat(fs: seq<File>)
    requires AllValid(fs) && fs != []
    ensures var k := Fitting(fs, 2048); SeenIds(fs) == SectorIds(fs[..k]) + SeenIds(fs[k..])
  {
  }

  lemma SeenFront(fs: seq<File>, i: nat)
    requires AllValid(fs) && i < Fitting(fs, 2048)
    ensures SectorIds(fs[..Fitting(fs, 2048)])[i] == fs[i].id + PackedRunOn(fs, i)
  {
    assert fs[..Fitting(fs, 2048)][i] == fs[i];
  }

  lemma RunOnBack(fs: seq<File>, i: nat)
    requires AllValid(fs) && Fitting(fs, 2048) <= i < |fs|
    ensures var k := Fitting(fs, 2048); PackedRunOn(fs, i) == PackedRunOn(fs[k..], i - k)
  {
  }

  /** Condition on the files alone: the name is longer than identifier i and goes on, for its odd
      length, with the bytes that are packed behind it, up to the first zero. */
  predicate RunsInto(fs: seq<File>, i: nat, name: seq<U8>)
    requires AllValid(fs) && i < |fs|
  {
    |name| <= 256 && fs[i].id < name <= fs[i].id + PackedRunOn(fs, i)
  }

  /** A name matches what is seen of file i exactly when it starts its identifier or runs into
      the bytes behind. The comparison ends after 256 characters. */
  lemma SeenIdAt(fs: seq<File>, i: nat, name: seq<U8>)
    requires AllValid(fs) && i < |fs|
    ensures |name| <= 256 && name <= SeenIds(fs)[i] <==> name <= fs[i].id || RunsInto(fs, i, name)
  {
    SeenIdIs(fs, i);
    assert fs[i].Valid();
    PrefixOfConcat(name, fs[i].id, PackedRunOn(fs, i));
  }

  lemma PrefixOfConcat(name: seq<U8>, a: seq<U8>, b: seq<U8>)
    ensures name <= a + b <==> name <= a || a < name <= a + b
  {
    if name <= a + b {
      PrefixesCompare(name, a, a + b);
    } else if name <= a {
      PrefixTransitive(name, a, a + b);
    }
  }

  lemma PrefixTransitive(a: seq<U8>, b: seq<U8>, c: seq<U8>)
    requires a <= b <= c
    ensures a <= c
  {
    assert forall i :: 0 <= i < |a| ==> a[i] == b[i] == c[i];
  }

  lemma PrefixesCompare(a: seq<U8>, b: seq<U8>, c: seq<U8>)
    requires a <= c && b <= c
    ensures a <= b || b < a
  {
    assert forall i :: 0 <= i < |a| && i < |b| ==> a[i] == c[i] == b[i];
  }

  /** Without system use fields and extended attributes only the length byte of the next record
      can follow, if there is one in the sector. */
  lemma PlainRunOn(fs: seq<File>, i: nat)
    requires AllValid(fs) && i < |fs| && fs[i].su == [] && (i + 1 < |fs| ==> fs[i + 1].xattr == 0)
    ensures RunOn(fs, i) == if |fs[i].id| % 2 == 1 && i + 1 < |fs| then [Length(fs[i + 1])] else []
  {
    var rest := fs[i + 1..];
    assert fs[i].su + EncodeAll(rest) == EncodeAll(rest);
    if i + 1 < |fs| {
      EncodedFields(fs[i + 1]);
      var b := EncodeAll(rest);
      assert b[0] == Length(fs[i + 1]) && b[1] == 0;
      assert UpToZero(b[1..]) == [];
    }
  }

  // ------------------------------------------------------------- decoding

  /** Record r was read from file f: the numbers agree, and the bytes from the identifier on are
      `seen` and then a zero. */
  ghost predicate ReadFrom(r: Record, f: File, seen: seq<U8>) {
    r.extent == f.extent && r.size == f.size && seen + [0] <= r.tail
  }

  ghost predicate AllReadFrom(rs: seq<Record>, fs: seq<File>, ids: seq<seq<U8>>) {
    |rs| == |fs| == |ids| && forall i :: 0 <= i < |fs| ==> ReadFrom(rs[i], fs[i], ids[i])
  }

  lemma ReadConcat(rs: seq<Record>, fs: seq<File>, ids: seq<seq<U8>>, rs': seq<Record>, fs': seq<File>, ids': seq<seq<U8>>)
    requires AllReadFrom(rs, fs, ids) && AllReadFrom(rs', fs', ids')
    ensures AllReadFrom(rs + rs', fs + fs', ids + ids')
  {
  }

  /** The fields of one encoded record inside a sector. */
  lemma RecordFields(s: seq<U8>, o: nat, f: File)
    requires f.Valid() && o + Length(f) <= |s| && s[o..o + Length(f)] == Encode(f)
    ensures s[o] == Length(f)
    ensures RecordAt(s, o).extent == f.extent && RecordAt(s, o).size == f.size
  {
    var n := Length(f);
    EncodedFields(f);
    SliceOfSlice(s, o, n, 2, 6);
    SliceOfSlice(s, o, n, 10, 14);
    LongOf(s, o + 2, f.extent);
    LongOf(s, o + 10, f.size);
    assert s[o] == s[o..o + n][0];
  }

  lemma EncodedFields(f: File)
    requires f.Valid()
    ensures Encode(f)[0] == Length(f) && Encode(f)[1] == f.xattr
    ensures Encode(f)[2..6] == ToLE(f.extent, 4)
    ensures Encode(f)[10..14] == ToLE(f.size, 4)
    ensures Encode(f)[DIR_FILENAME..Length(f)] == f.id + (f.Padding() + f.su)
  {
    var a, b := [Length(f), f.xattr] + ToLE(f.extent, 4), Reversed(ToLE(f.extent, 4));
    var c, d := ToLE(f.size, 4), Reversed(ToLE(f.size, 4)) + f.meta + [|f.id|];
    assert Encode(f) == a + b + c + d + (f.id + (f.Padding() + f.su));
    assert |a| == 6 && |a + b| == 10 && |a + b + c| == 14 && |a + b + c + d| == DIR_FILENAME;
  }

  /** The record byte by byte, as ECMA-119 section 9.1 lays it out. */
  lemma RecordLayout(f: File)
    requires f.Valid()
    ensures var b := Encode(f);
            && b[0] == |b| && b[1] == f.xattr
            && b[2..6] == ToLE(f.extent, 4) && b[6..10] == Reversed(ToLE(f.extent, 4))
            && b[10..14] == ToLE(f.size, 4) && b[14..18] == Reversed(ToLE(f.size, 4))
            && b[18..32] == f.meta && b[32] == |f.id| && b[33..33 + |f.id|] == f.id
            && (|f.id| % 2 == 0 ==> b[33 + |f.id|] == 0)
            && b[|b| - |f.su|..] == f.su
  {
    var h := [Length(f), f.xattr];
    var e, e' := ToLE(f.extent, 4), Reversed(ToLE(f.extent, 4));
    var n, n' := ToLE(f.size, 4), Reversed(ToLE(f.size, 4));
    var i := [|f.id|];
    assert |h| == 2 && |h + e| == 6 && |h + e + e'| == 10 && |h + e + e' + n| == 14 && |h + e + e' + n + n'| == 18;
    assert |h + e + e' + n + n' + f.meta| == 32 && |h + e + e' + n + n' + f.meta + i| == 33;
    assert Encode(f) == h + e + e' + n + n' + f.meta + i + f.id + (f.Padding() + f.su);
  }

  lemma SliceOfConcat(s: seq<U8>, o: nat, a: seq<U8>, b: seq<U8>)
    requires o + |a + b| <= |s| && s[o..o + |a + b|] == a + b
    ensures s[o..o + |a|] == a && s[o + |a|..o + |a| + |b|] == b
  {
    var c := s[o..o + |a + b|];
    assert s[o..o + |a|] == c[..|a|];
    assert s[o + |a|..o + |a| + |b|] == c[|a|..];
  }

  /** Memory holds encoded files from o up to n. */
  ghost predicate Laid(s: seq<U8>, o: nat, n: nat, fs: seq<File>)
    requires AllValid(fs)
  {
    o + |EncodeAll(fs)| == n <= |s| && s[o..n] == EncodeAll(fs)
  }

  lemma LaidStep(s: seq<U8>, o: nat, n: nat, fs: seq<File>)
    requires AllValid(fs) && fs != [] && Laid(s, o, n, fs)
    ensures fs[0].Valid() && o + Length(fs[0]) <= n && s[o..o + Length(fs[0])] == Encode(fs[0])
    ensures AllValid(fs[1..]) && Laid(s, o + Length(fs[0]), n, fs[1..])
  {
    var e, rest := Encode(fs[0]), EncodeAll(fs[1..]);
    assert EncodeAll(fs) == e + rest;
    SliceOfConcat(s, o, e, rest);
  }

  /** The rest of them follows where the length byte says. */
  lemma RestLaid(s: seq<U8>, o: nat, n: nat, fs: seq<File>)
    requires AllValid(fs) && fs != [] && Laid(s, o, n, fs)
    ensures s[o] > DIR_FILENAME && AllValid(fs[1..]) && Laid(s, o + s[o], n, fs[1..])
  {
    LaidStep(s, o, n, fs);
    RecordFields(s, o, fs[0]);
  }

  /** From the identifier on: the rest of the record, then the other records. */
  lemma HeadTail(s: seq<U8>, o: nat, n: nat, fs: seq<File>)
    requires AllValid(fs) && fs != [] && Laid(s, o, n, fs)
    ensures o + DIR_FILENAME <= n <= |s| && AllValid(fs[1..])
    ensures s[o + DIR_FILENAME..n] == fs[0].id + (fs[0].Padding() + fs[0].su) + EncodeAll(fs[1..])
  {
    LaidStep(s, o, n, fs);
    NameFields(s, o, fs[0]);
    SliceJoin(s, o + DIR_FILENAME, o + Length(fs[0]), n);
  }

  lemma NameFields(s: seq<U8>, o: nat, f: File)
    requires f.Valid() && o + Length(f) <= |s| && s[o..o + Length(f)] == Encode(f)
    ensures s[o + DIR_FILENAME..o + Length(f)] == f.id + (f.Padding() + f.su)
  {
    EncodedFields(f);
    SliceOfSlice(s, o, Length(f), DIR_FILENAME, Length(f));
  }

  lemma SliceJoin(s: seq<U8>, i: nat, j: nat, k: nat)
    requires i <= j <= k <= |s|
    ensures s[i..k] == s[i..j] + s[j..k]
  {
  }

  /** The first record, if a zero byte stands behind the last. */
  lemma HeadRecord(s: seq<U8>, o: nat, n: nat, fs: seq<File>)
    requires AllValid(fs) && fs != [] && Laid(s, o, n, fs) && n < |s| && s[n] == 0
    ensures o + DIR_FILENAME <= |s| && ReadFrom(RecordAt(s, o), fs[0], SectorId(fs, 0))
  {
    HeadName(s, o, n, fs);
    LaidStep(s, o, n, fs);
    RecordFields(s, o, fs[0]);
  }

  lemma HeadName(s: seq<U8>, o: nat, n: nat, fs: seq<File>)
    requires AllValid(fs) && fs != [] && Laid(s, o, n, fs) && n < |s| && s[n] == 0
    ensures o + DIR_FILENAME <= |s| && SectorId(fs, 0) + [0] <= s[o + DIR_FILENAME..]
  {
    var f, a := fs[0], o + DIR_FILENAME;
    HeadTail(s, o, n, fs);
    SliceEnd(s, a, n);
    SeenIsPrefix(f.id, f.Padding(), f.su, EncodeAll(fs[1..]), RunOn(fs, 0), s[a..]);
  }

  lemma SliceEnd(s: seq<U8>, a: nat, n: nat)
    requires a <= n < |s| && s[n] == 0
    ensures s[a..n] + [0] <= s[a..]
  {
  }

  lemma SeenIsPrefix(id: seq<U8>, pad: seq<U8>, su: seq<U8>, more: seq<U8>, run: seq<U8>, tail: seq<U8>)
    requires id + (pad + su) + more + [0] <= tail
    requires (pad == [0] && run == []) || (pad == [] && run == UpToZero(su + more))
    ensures id + run + [0] <= tail
  {
    if pad == [0] {
      assert id + (pad + su) + more + [0] == (id + run + [0]) + (su + more + [0]);
      PrefixOfSum(id + run + [0], su + more + [0], tail);
    } else {
      var b := su + more;
      UpToZeroStarts(b);
      assert id + (pad + su) + more + [0] == id + (b + [0]);
      assert id + run + [0] == id + (run + [0]);
      PrefixTransitive(id + (run + [0]), id + (b + [0]), tail);
    }
  }

  lemma PrefixOfSum(a: seq<U8>, b: seq<U8>, c: seq<U8>)
    requires a + b <= c
    ensures a <= c
  {
    PrefixTransitive(a, a + b, c);
  }

  /** Where k steps of the walk lead. */
  function Offset(s: seq<U8>, o: nat, k: nat): nat
    decreases k
  {
    if k == 0 || o >= |s| then o else Offset(s, o + s[o], k - 1)
  }

  lemma {:induction false} LaidAt(s: seq<U8>, o: nat, n: nat, fs: seq<File>, j: nat, k: nat)
    requires AllValid(fs) && j + k <= |fs| && Laid(s, o, n, fs[j..])
    ensures Laid(s, Offset(s, o, k), n, fs[j + k..])
    decreases k
  {
    if k == 0 {
    } else {
      RestLaid(s, o, n, fs[j..]);
      TailOfTail(fs, j);
      LaidAt(s, o + s[o], n, fs, j + 1, k - 1);
    }
  }

  lemma TailOfTail(fs: seq<File>, j: nat)
    requires j < |fs|
    ensures fs[j..][1..] == fs[j + 1..]
  {
  }

  lemma ReadAt(s: seq<U8>, o: nat, n: nat, fs: seq<File>, k: nat)
    requires AllValid(fs) && k < |fs| && Laid(s, o, n, fs) && n < |s| && s[n] == 0
    ensures Offset(s, o, k) + DIR_FILENAME <= |s|
    ensures ReadFrom(RecordAt(s, Offset(s, o, k)), fs[k], SectorId(fs, k))
  {
    assert fs[0..] == fs;
    LaidAt(s, o, n, fs, 0, k);
    HeadRecord(s, Offset(s, o, k), n, fs[k..]);
    TailOfTail(fs, k);
  }

  /** Whatever stands behind the last record, the numbers and the identifier are read right. */
  ghost predicate Names(r: Record, f: File) { r.extent == f.extent && r.size == f.size && f.id <= r.tail }

  lemma NamesAt(s: seq<U8>, o: nat, n: nat, fs: seq<File>, k: nat)
    requires AllValid(fs) && k < |fs| && Laid(s, o, n, fs)
    ensures Offset(s, o, k) + DIR_FILENAME <= |s| && Names(RecordAt(s, Offset(s, o, k)), fs[k])
  {
    var p, gs := Offset(s, o, k), fs[k..];
    assert fs[0..] == fs;
    LaidAt(s, o, n, fs, 0, k);
    LaidStep(s, p, n, gs);
    RecordFields(s, p, gs[0]);
    HeadTail(s, p, n, gs);
    IdStarts(s, p + DIR_FILENAME, n, gs[0].id, gs[0].Padding() + gs[0].su, EncodeAll(gs[1..]));
  }

  lemma IdStarts(s: seq<U8>, a: nat, n: nat, id: seq<U8>, b: seq<U8>, c: seq<U8>)
    requires a <= n <= |s| && s[a..n] == id + b + c
    ensures id <= s[a..]
  {
    assert s[a..n] <= s[a..];
    assert id + b + c == id + (b + c);
    PrefixOfSum(id, b + c, s[a..]);
  }

  /** k steps of the walk lead from o to n. */
  ghost predicate Passes(m: seq<U8>, n: nat, o: nat, k: nat)
    decreases k
  {
    if k == 0 then o == n
    else o < |m| && m[o] > 0 && ZeroFrom(m, o + DIR_FILENAME) && Passes(m, n, o + m[o], k - 1)
  }

  lemma {:induction false} PassedRecords(m: seq<U8>, n: nat, o: nat, k: nat) returns (rs: seq<Record>)
    requires Passes(m, n, o, k) && Chained(m, n)
    ensures |rs| == k && Chained(m, o) && Records(m, o) == rs + Records(m, n)
    decreases k
  {
    if k == 0 {
      rs := [];
    } else {
      rs := PassedRecords(m, n, o + m[o], k - 1);
      ChainBack(m, o);
      ConcatAssociates([RecordAt(m, o)], rs, Records(m, n));
      rs := [RecordAt(m, o)] + rs;
    }
  }

  lemma ConcatAssociates(a: seq<Record>, b: seq<Record>, c: seq<Record>)
    ensures a + (b + c) == (a + b) + c
  {
  }

  lemma {:induction false} RecordAtOffset(s: seq<U8>, o: nat, k: nat)
    requires Chained(s, o) && k < |Records(s, o)|
    ensures Offset(s, o, k) + DIR_FILENAME <= |s| && Records(s, o)[k] == RecordAt(s, Offset(s, o, k))
    decreases k
  {
    RecordsNext(s, o, k);
    if k == 0 {
    } else {
      RecordAtOffset(s, o + s[o], k - 1);
    }
  }

  lemma RecordsNext(s: seq<U8>, o: nat, k: nat)
    requires Chained(s, o) && k < |Records(s, o)|
    ensures o + DIR_FILENAME <= |s| && Chained(s, o + s[o])
    ensures if k == 0 then Records(s, o)[k] == RecordAt(s, o)
            else k - 1 < |Records(s, o + s[o])| && Records(s, o)[k] == Records(s, o + s[o])[k - 1]
  {
  }

  /** Encoded files, with a zero byte somewhere behind them, are passed one by one. */
  lemma {:induction false} FilesPassed(s: seq<U8>, o: nat, n: nat, fs: seq<File>)
    requires AllValid(fs) && Laid(s, o, n, fs) && ZeroFrom(s, n)
    ensures Passes(s, n, o, |fs|)
    decreases |fs|
  {
    if fs == [] {
    } else {
      RestLaid(s, o, n, fs);
      ZeroSooner(s, o + DIR_FILENAME, n);
      FilesPassed(s, o + s[o], n, fs[1..]);
    }
  }

  lemma ZeroSooner(s: seq<U8>, a: nat, b: nat)
    requires a <= b && ZeroFrom(s, b)
    ensures ZeroFrom(s, a)
  {
    var z :| b <= z < |s| && s[z] == 0;
  }

  /** Memory that holds encoded files and then a zero byte reads back as them. */
  lemma PackedRecords(s: seq<U8>, o: nat, n: nat, fs: seq<File>)
    requires AllValid(fs) && Laid(s, o, n, fs) && n < |s| && s[n] == 0
    ensures Chained(s, o) && AllReadFrom(Records(s, o), fs, SectorIds(fs))
  {
    FilesPassed(s, o, n, fs);
    var rs := PassedRecords(s, n, o, |fs|);
    assert rs + Records(s, n) == rs;
    forall i | 0 <= i < |fs| ensures ReadFrom(Records(s, o)[i], fs[i], SectorIds(fs)[i]) {
      RecordAtOffset(s, o, i);
      ReadAt(s, o, n, fs, i);
    }
  }

  /** The standard does not ask for a closing zero: behind a sector filled to its last byte the
      walk goes on in what memory holds behind the buffer, and its records come on top of those of
      the files. Such a sector is read right exactly when that memory starts with 0. */
  lemma FullSectorReadsOn(s: seq<U8>, rest: seq<U8>, fs: seq<File>)
    requires AllValid(fs) && s == EncodeAll(fs) && Chained(rest, 0)
    ensures Chained(s + rest, 0) && |Records(s + rest, 0)| == |fs| + |Records(rest, 0)|
    ensures forall i :: 0 <= i < |fs| ==> Names(Records(s + rest, 0)[i], fs[i])
    ensures Records(s + rest, 0)[|fs|..] == Records(rest, 0)
    ensures AllReadFrom(Records(s + rest, 0), fs, SectorIds(fs)) <==> rest[0] == 0
  {
    var m := s + rest;
    LaidFront(s, rest, fs);
    ChainBehind(m, |s|);
    FilesPassed(m, 0, |s|, fs);
    var rs := PassedRecords(m, |s|, 0, |fs|);
    forall i | 0 <= i < |fs| ensures Names(Records(m, 0)[i], fs[i]) {
      RecordAtOffset(m, 0, i);
      NamesAt(m, 0, |s|, fs, i);
    }
    if rest[0] == 0 {
      PackedRecords(m, 0, |s|, fs);
    }
  }

  lemma LaidFront(s: seq<U8>, rest: seq<U8>, fs: seq<File>)
    requires AllValid(fs) && |EncodeAll(fs)| <= |s| && s[..|EncodeAll(fs)|] == EncodeAll(fs)
    ensures Laid(s + rest, 0, |EncodeAll(fs)|, fs) && (s + rest)[|s|..] == rest
  {
    assert (s + rest)[0..|EncodeAll(fs)|] == s[..|EncodeAll(fs)|];
  }

  lemma ChainBehind(m: seq<U8>, n: nat)
    requires n <= |m| && Chained(m[n..], 0)
    ensures ZeroFrom(m, n) && Chained(m, n) && Records(m, n) == Records(m[n..], 0)
  {
    ChainEnds(m[n..], 0);
    ZeroBehind(m, n, 0);
    RecordsBehind(m, n, 0);
  }

  /** Sectors lba.. of the disk hold a packed directory. */
  ghost predicate Holds(disk: seq<Sector>, lba: nat, fs: seq<File>) {
    && AllValid(fs) && lba + |Pack(fs)| <= |disk|
    && forall i :: 0 <= i < |Pack(fs)| ==> Pack(fs)[i] == disk[lba + i]
  }

  lemma HoldsSplit(disk: seq<Sector>, lba: nat, fs: seq<File>)
    requires Holds(disk, lba, fs) && fs != []
    ensures var k := Fitting(fs, 2048);
            && |Pack(fs)| == 1 + |Pack(fs[k..])|
            && disk[lba] == PackSector(fs[..k])
            && Holds(disk, lba + 1, fs[k..])
  {
    var k, p := Fitting(fs, 2048), Pack(fs);
    var b := Pack(fs[k..]);
    assert p == [PackSector(fs[..k])] + b;
    assert disk[lba + 0] == p[0];
    forall i | 0 <= i < |b| ensures b[i] == disk[lba + 1 + i] {
      assert p[i + 1] == b[i];
    }
  }

  lemma ChainedStep(disk: seq<Sector>, rest: seq<U8>, lba: nat, n: nat)
    requires lba < |disk| && Chained(disk[lba] + rest, 0) && ChainedSectors(disk, rest, lba + 1, n)
    ensures ChainedSectors(disk, rest, lba, n + 1)
  {
  }

  /** One sector's records before those of the sectors behind it. */
  lemma SectorsJoin(rs: seq<Record>, rs': seq<Record>, fs: seq<File>)
    requires AllValid(fs) && fs != []
    requires var k := Fitting(fs, 2048);
             AllReadFrom(rs, fs[..k], SectorIds(fs[..k])) && AllReadFrom(rs', fs[k..], SeenIds(fs[k..]))
    ensures AllReadFrom(rs + rs', fs, SeenIds(fs))
  {
    var k := Fitting(fs, 2048);
    SeenIdsConcat(fs);
    ReadJoin(rs, rs', fs, k, SectorIds(fs[..k]), SeenIds(fs[k..]));
  }

  lemma ReadJoin(rs: seq<Record>, rs': seq<Record>, fs: seq<File>, k: nat, a: seq<seq<U8>>, b: seq<seq<U8>>)
    requires k <= |fs| && AllReadFrom(rs, fs[..k], a) && AllReadFrom(rs', fs[k..], b)
    ensures AllReadFrom(rs + rs', fs, a + b)
  {
    ReadConcat(rs, fs[..k], a, rs', fs[k..], b);
    assert fs[..k] + fs[k..] == fs;
  }

  lemma DirectoryConcat(disk: seq<Sector>, rest: seq<U8>, lba: nat, n: nat)
    requires ChainedSectors(disk, rest, lba, n + 1)
    ensures Directory(disk, rest, lba, n + 1) == Records(disk[lba] + rest, 0) + Directory(disk, rest, lba + 1, n)
  {
  }

  lemma {:induction false} PackedDirectory(disk: seq<Sector>, rest: seq<U8>, lba: nat, fs: seq<File>)
    requires Holds(disk, lba, fs) && Closes(fs, rest)
    ensures ChainedSectors(disk, rest, lba, |Pack(fs)|)
    ensures AllReadFrom(Directory(disk, rest, lba, |Pack(fs)|), fs, SeenIds(fs))
    decreases |fs|
  {
    if fs == [] {
    } else {
      var k := Fitting(fs, 2048);
      var n := |Pack(fs[k..])|;
      FirstSector(disk, rest, lba, fs);
      PackedDirectory(disk, rest, lba + 1, fs[k..]);
      ChainedStep(disk, rest, lba, n);
      DirectoryConcat(disk, rest, lba, n);
      SectorsJoin(Records(disk[lba] + rest, 0), Directory(disk, rest, lba + 1, n), fs);
    }
  }

  lemma FirstSector(disk: seq<Sector>, rest: seq<U8>, lba: nat, fs: seq<File>)
    requires Holds(disk, lba, fs) && Closes(fs, rest) && fs != []
    ensures var k := Fitting(fs, 2048);
            && |Pack(fs)| == 1 + |Pack(fs[k..])| && Holds(disk, lba + 1, fs[k..]) && Closes(fs[k..], rest)
            && Chained(disk[lba] + rest, 0) && AllReadFrom(Records(disk[lba] + rest, 0), fs[..k], SectorIds(fs[..k]))
  {
    HoldsSplit(disk, lba, fs);
    ClosesSplit(fs, rest);
    PackedSector(disk[lba], rest, fs[..Fitting(fs, 2048)]);
  }

  lemma PackedSector(s: Sector, rest: seq<U8>, fs: seq<File>)
    requires AllValid(fs) && |EncodeAll(fs)| <= 2048 && s == PackSector(fs)
    requires |EncodeAll(fs)| == 2048 ==> rest != [] && rest[0] == 0
    ensures Chained(s + rest, 0) && AllReadFrom(Records(s + rest, 0), fs, SectorIds(fs))
  {
    LaidFront(s, rest, fs);
    PackedRecords(s + rest, 0, |EncodeAll(fs)|, fs);
  }

  /** The condition is exact: if memory behind the buffer is a chain of records at all, the
      directory has those of the files and no others just when every sector closes. */
  lemma {:induction false} PackedDirectoryExactly(disk: seq<Sector>, rest: seq<U8>, lba: nat, fs: seq<File>)
    requires Holds(disk, lba, fs) && Chained(rest, 0)
    ensures ChainedSectors(disk, rest, lba, |Pack(fs)|) && |Directory(disk, rest, lba, |Pack(fs)|)| >= |fs|
    ensures |Directory(disk, rest, lba, |Pack(fs)|)| == |fs| <==> Closes(fs, rest)
    decreases |fs|
  {
    if fs == [] {
    } else {
      var k := Fitting(fs, 2048);
      FirstSectorSize(disk, rest, lba, fs);
      PackedDirectoryExactly(disk, rest, lba + 1, fs[k..]);
      DirectorySize(disk, rest, lba, |Pack(fs[k..])|);
    }
  }

  lemma FirstSectorSize(disk: seq<Sector>, rest: seq<U8>, lba: nat, fs: seq<File>)
    requires Holds(disk, lba, fs) && Chained(rest, 0) && fs != []
    ensures var k := Fitting(fs, 2048);
            && |Pack(fs)| == 1 + |Pack(fs[k..])| && Holds(disk, lba + 1, fs[k..])
            && Chained(disk[lba] + rest, 0) && |Records(disk[lba] + rest, 0)| >= k
            && (Closes(fs, rest) <==> |Records(disk[lba] + rest, 0)| == k && Closes(fs[k..], rest))
  {
    HoldsSplit(disk, lba, fs);
    ClosesSplit(fs, rest);
    SectorSize(disk[lba], rest, fs[..Fitting(fs, 2048)]);
  }

  lemma DirectorySize(disk: seq<Sector>, rest: seq<U8>, lba: nat, n: nat)
    requires lba < |disk| && Chained(disk[lba] + rest, 0) && ChainedSectors(disk, rest, lba + 1, n)
    ensures ChainedSectors(disk, rest, lba, n + 1)
    ensures |Directory(disk, rest, lba, n + 1)| == |Records(disk[lba] + rest, 0)| + |Directory(disk, rest, lba + 1, n)|
  {
    ChainedStep(disk, rest, lba, n);
  }

  lemma SectorSize(s: Sector, rest: seq<U8>, fs: seq<File>)
    requires AllValid(fs) && |EncodeAll(fs)| <= 2048 && s == PackSector(fs) && Chained(rest, 0)
    ensures Chained(s + rest, 0) && |Records(s + rest, 0)| >= |fs|
    ensures |Records(s + rest, 0)| == |fs| <==> (|EncodeAll(fs)| == 2048 ==> rest[0] == 0)
  {
    if |EncodeAll(fs)| == 2048 {
      assert s == EncodeAll(fs);
      FullSectorReadsOn(s, rest, fs);
    } else {
      PackedSector(s, rest, fs);
    }
  }

  // ------------------------------------------------------------- round trip

  function Ids(fs: seq<File>): (ids: seq<seq<U8>>)
    ensures |ids| == |fs|
  {
    seq(|fs|, i requires 0 <= i < |fs| => fs[i].id)
  }

  function FirstTrue(b: seq<bool>): (r: Option<nat>)
    ensures r.None? ==> forall i :: 0 <= i < |b| ==> !b[i]
    ensures r.Some? ==> r.value < |b| && b[r.value] && forall j :: 0 <= j < r.value ==> !b[j]
  {
    if b == [] then None
    else if b[0] then Some(0)
    else
      var r := FirstTrue(b[1..]);
      assert forall i :: 1 <= i < |b| ==> b[i] == b[1..][i - 1];
      if r.None? then None else Some(r.value + 1)
  }

  /** Which identifiers start with the name, and which are it. */
  function Starting(ids: seq<seq<U8>>, name: seq<U8>): (b: seq<bool>)
    ensures |b| == |ids| && forall i :: 0 <= i < |ids| ==> (b[i] <==> name <= ids[i])
  {
    seq(|ids|, i requires 0 <= i < |ids| => name <= ids[i])
  }

  function Equal(ids: seq<seq<U8>>, name: seq<U8>): (b: seq<bool>)
    ensures |b| == |ids| && forall i :: 0 <= i < |ids| ==> (b[i] <==> name == ids[i])
  {
    seq(|ids|, i requires 0 <= i < |ids| => name == ids[i])
  }

  /** The first identifier that starts with the name, and the first that is it. */
  function FirstPrefixed(ids: seq<seq<U8>>, name: seq<U8>): Option<nat> { FirstTrue(Starting(ids, name)) }

  function FirstNamed(ids: seq<seq<U8>>, name: seq<U8>): Option<nat> { FirstTrue(Equal(ids, name)) }

  /** The files that are seen to start with the name, and the first of them. */
  function Seeing(fs: seq<File>, name: seq<U8>): (b: seq<bool>)
    requires AllValid(fs)
    ensures |b| == |fs| && forall i :: 0 <= i < |fs| ==> (b[i] <==> |name| <= 256 && name <= SeenIds(fs)[i])
  {
    seq(|fs|, i requires 0 <= i < |fs| => |name| <= 256 && name <= SeenIds(fs)[i])
  }

  function FirstSeen(fs: seq<File>, name: seq<U8>): Option<nat>
    requires AllValid(fs)
  {
    FirstTrue(Seeing(fs, name))
  }

  /** Positions before a result, or all n when there is none. */
  function Before(r: Option<nat>, n: nat): nat { if r.None? then n else r.value }

  /** Marks added to others leave the first one in place exactly when none comes before it. */
  lemma SameFirst(a: seq<bool>, b: seq<bool>, added: seq<bool>)
    requires |a| == |b| == |added| && forall i :: 0 <= i < |a| ==> (b[i] <==> a[i] || added[i])
    ensures FirstTrue(b) == FirstTrue(a) <==> forall i :: 0 <= i < Before(FirstTrue(a), |a|) ==> !added[i]
  {
  }

  /** A record matches exactly when the name starts what is seen of its identifier. */
  lemma MatchesSeen(r: Record, f: File, seen: seq<U8>, name: seq<U8>)
    requires ReadFrom(r, f, seen) && 0 !in name
    ensures Matches(r, name) <==> |name| <= 256 && name <= seen
  {
    assert seen <= seen + [0] <= r.tail;
    if name <= seen {
      PrefixTransitive(name, seen, r.tail);
    } else if name <= r.tail {
      forall i | 0 <= i < |name| ensures name[i] != 0 {
        assert name[i] in name;
      }
      PaddedPrefix(name, seen, r.tail);
    }
  }

  /** A zero byte after the identifier stops a name. */
  lemma PaddedPrefix(name: seq<U8>, id: seq<U8>, tail: seq<U8>)
    requires (forall i :: 0 <= i < |name| ==> name[i] != 0) && name <= tail && id + [0] <= tail
    ensures name <= id
  {
    PrefixesCompare(name, id + [0], tail);
    assert (id + [0])[|id|] == 0;
  }

  /** Record i of a packed directory matches exactly when the identifier of file i starts with the
      name, or the name runs into the bytes behind it. */
  lemma MatchExactly(disk: seq<Sector>, rest: seq<U8>, lba: nat, fs: seq<File>, i: nat, name: seq<U8>)
    requires Holds(disk, lba, fs) && Closes(fs, rest) && i < |fs| && 0 !in name
    ensures ChainedSectors(disk, rest, lba, |Pack(fs)|) && |Directory(disk, rest, lba, |Pack(fs)|)| == |fs|
    ensures Matches(Directory(disk, rest, lba, |Pack(fs)|)[i], name) <==> name <= fs[i].id || RunsInto(fs, i, name)
  {
    PackedDirectory(disk, rest, lba, fs);
    SeenIdAt(fs, i, name);
    MatchesSeen(Directory(disk, rest, lba, |Pack(fs)|)[i], fs[i], SeenIds(fs)[i], name);
  }

  lemma FirstBySeen(rs: seq<Record>, fs: seq<File>, name: seq<U8>)
    requires AllValid(fs) && AllReadFrom(rs, fs, SeenIds(fs)) && 0 !in name
    ensures First(rs, name) == match FirstSeen(fs, name) { case None => None case Some(i) => Some(rs[i]) }
  {
    var b := Seeing(fs, name);
    forall i | 0 <= i < |rs| ensures Matches(rs[i], name) <==> b[i] {
      MatchesSeen(rs[i], fs[i], SeenIds(fs)[i], name);
    }
    FirstByMarks(rs, name, b);
  }

  lemma FirstByMarks(rs: seq<Record>, name: seq<U8>, b: seq<bool>)
    requires |b| == |rs| && forall i :: 0 <= i < |rs| ==> (Matches(rs[i], name) <==> b[i])
    ensures First(rs, name) == match FirstTrue(b) { case None => None case Some(i) => Some(rs[i]) }
  {
    var i := FirstIsLeast(rs, name);
  }

  /** The answer is extent and size of file i, or there is none. */
  ghost predicate Answers(r: Option<Record>, fs: seq<File>, i: Option<nat>) {
    match i {
      case None => r.None?
      case Some(j) => j < |fs| && r.Some? && r.value.extent == fs[j].extent && r.value.size == fs[j].size
    }
  }

  /** A file at extent 0 cannot be told from none. */
  predicate Located(fs: seq<File>, i: Option<nat>) { i.Some? ==> i.value < |fs| && fs[i.value].extent != 0 }

  /** Encode, pack, search: for any name the answer is the first file that is seen to start with
      it, exactly when that file, if there is one, has a nonzero extent. */
  lemma SearchPacked(disk: seq<Sector>, rest: seq<U8>, lba: nat, fs: seq<File>, name: seq<U8>)
    requires Holds(disk, lba, fs) && Closes(fs, rest) && 0 !in name
    ensures WalksSectors(disk, rest, lba, |Pack(fs)|, name)
    ensures Answers(Lookup(disk, rest, lba, |Pack(fs)|, name), fs, FirstSeen(fs, name)) <==> Located(fs, FirstSeen(fs, name))
  {
    PackedDirectory(disk, rest, lba, fs);
    LookupIsFirst(disk, rest, lba, |Pack(fs)|, name);
    LookupNonzero(disk, rest, lba, |Pack(fs)|, name);
    FirstBySeen(Directory(disk, rest, lba, |Pack(fs)|), fs, name);
  }

  /** Where the search sees more than the identifiers promise: names that run into the bytes
      behind, and, if exact names are meant, longer identifiers too. */
  function Running(fs: seq<File>, name: seq<U8>): (b: seq<bool>)
    requires AllValid(fs)
    ensures |b| == |fs| && forall i :: 0 <= i < |fs| ==> (b[i] <==> RunsInto(fs, i, name))
  {
    seq(|fs|, i requires 0 <= i < |fs| => RunsInto(fs, i, name))
  }

  function Inexact(fs: seq<File>, name: seq<U8>): (b: seq<bool>)
    requires AllValid(fs)
    ensures |b| == |fs| && forall i :: 0 <= i < |fs| ==> (b[i] <==> name < fs[i].id || RunsInto(fs, i, name))
  {
    seq(|fs|, i requires 0 <= i < |fs| => name < fs[i].id || RunsInto(fs, i, name))
  }

  lemma SeenMarks(fs: seq<File>, name: seq<U8>, i: nat)
    requires AllValid(fs) && i < |fs|
    ensures Seeing(fs, name)[i] <==> Starting(Ids(fs), name)[i] || Running(fs, name)[i]
    ensures Seeing(fs, name)[i] <==> Equal(Ids(fs), name)[i] || Inexact(fs, name)[i]
  {
    SeenIdAt(fs, i, name);
  }

  /** That is the first file whose identifier starts with the name exactly when the name does not
      run on behind an identifier on the way there. */
  lemma SearchByPrefix(fs: seq<File>, name: seq<U8>)
    requires AllValid(fs)
    ensures var first := FirstPrefixed(Ids(fs), name);
            FirstSeen(fs, name) == first
            <==> forall i :: 0 <= i < Before(first, |fs|) ==> !Running(fs, name)[i]
  {
    var a, b, c := Starting(Ids(fs), name), Seeing(fs, name), Running(fs, name);
    forall i | 0 <= i < |fs| ensures b[i] <==> a[i] || c[i] {
      SeenMarks(fs, name, i);
    }
    SameFirst(a, b, c);
  }

  /** It is the file of exactly that name, as cdrom.h promises, exactly when moreover no longer
      identifier that starts with the name comes first. */
  lemma SearchByName(fs: seq<File>, name: seq<U8>)
    requires AllValid(fs)
    ensures var first := FirstNamed(Ids(fs), name);
            FirstSeen(fs, name) == first
            <==> forall i :: 0 <= i < Before(first, |fs|) ==> !Inexact(fs, name)[i]
  {
    var a, b, c := Equal(Ids(fs), name), Seeing(fs, name), Inexact(fs, name);
    forall i | 0 <= i < |fs| ensures b[i] <==> a[i] || c[i] {
      SeenMarks(fs, name, i);
    }
    SameFirst(a, b, c);
  }

  /** A longer identifier is taken for the name: "POTATO.BIN;1" for "POTATO.BIN". */
  lemma LongerIdMatches(f: File)
    requires f.Valid() && f.id == Boot.KERNEL_NAME + [0x3B, 0x31]
    ensures AllValid([f]) && FirstSeen([f], Boot.KERNEL_NAME) == Some(0) && FirstNamed(Ids([f]), Boot.KERNEL_NAME) == None
  {
    SeenIdAt([f], 0, Boot.KERNEL_NAME);
  }

  /** A shorter identifier is taken for the name when its system use field goes on with the missing
      bytes: "A.B;1R" finds "A.B;1" with the Rock Ridge entry "RR", 5, 1, 0x81. */
  lemma SystemUseMatches(f: File)
    requires f.Valid() && f.id == [0x41, 0x2E, 0x42, 0x3B, 0x31] && f.su == [0x52, 0x52, 5, 1, 0x81, 0]
    ensures AllValid([f]) && FirstSeen([f], f.id + [0x52]) == Some(0)
    ensures FirstPrefixed(Ids([f]), f.id + [0x52]) == None
  {
    var fs := [f];
    var b := f.su + EncodeAll(fs[1..]);
    assert UpToZero(b) == [b[0]] + UpToZero(b[1..]);
    assert Fitting(fs, 2048) == 1 && fs[..1] == fs;
    assert f.id + [0x52] <= f.id + RunOn(fs, 0);
    SeenIdAt(fs, 0, f.id + [0x52]);
  }

  /** Without such a field it is when the next record's length is the missing byte. */
  lemma RunOnMatches(f: File, g: File)
    requires f.Valid() && g.Valid() && |f.id| % 2 == 1 && f.su == [] && g.xattr == 0
    ensures AllValid([f, g]) && FirstSeen([f, g], f.id + [Length(g)]) == Some(0)
    ensures FirstPrefixed(Ids([f, g]), f.id + [Length(g)]) != Some(0)
  {
    var fs := [f, g];
    assert fs[1..] == [g];
    assert Fitting([g], 2048 - Length(f)) == 1;
    assert fs[..2] == fs;
    PlainRunOn(fs, 0);
    SeenIdAt(fs, 0, f.id + [Length(g)]);
  }

  // ------------------------------------------------------------- whole volume

  /** A volume whose descriptor gives a packed directory of fewer than 65536 sectors: what
      cdrom_search returns for it. */
  lemma PackedVolume(disk: seq<Sector>, buf: seq<U8>, fs: seq<File>, name: seq<U8>)
    requires |buf| >= 2048 && (buf[..2048][0] == PVD_SIGNATURE || HasDescriptor(disk, PVD_START))
    requires var pvd := Descriptor(disk, buf[..2048]);
             AllValid(fs) && LongAt(pvd, DIR_OFFSET + DIR_EXT_SIZE) == 2048 * |Pack(fs)| && Holds(disk, RootLba(pvd), fs)
    requires |Pack(fs)| < 0x1_0000 && Closes(fs, buf[2048..]) && 0 !in name && Located(fs, FirstSeen(fs, name))
    ensures var pvd := Descriptor(disk, buf[..2048]);
            && WalksSectors(disk, buf[2048..], RootLba(pvd), RootSectors(pvd), name)
            && Answers(Lookup(disk, buf[2048..], RootLba(pvd), RootSectors(pvd), name), fs, FirstSeen(fs, name))
  {
    var pvd := Descriptor(disk, buf[..2048]);
    assert RootSectors(pvd) == |Pack(fs)|;
    SearchPacked(disk, buf[2048..], RootLba(pvd), fs, name);
  }

  /** Sector d is a primary volume descriptor whose root directory record, from byte 156 on
      (ECMA-119 section 8.4.18), is that of file `root`. */
  ghost predicate DescribesRoot(d: Sector, root: File) {
    && root.Valid() && d[0] == 1 && 156 + |Encode(root)| <= 2048
    && d[156..156 + |Encode(root)|] == Encode(root)
  }

  lemma RootOfDescriptor(d: Sector, root: File)
    requires DescribesRoot(d, root)
    ensures RootLba(d) == root.extent && RootSectors(d) == root.size / 2048 % 0x1_0000
  {
    RecordFields(d, 156, root);
  }

  /** The first primary descriptor is at sector 16, and the buffer does not look like one. */
  lemma FirstDescriptor(disk: seq<Sector>, buf: Sector)
    requires |disk| > 16 && disk[16][0] == 1 && buf[0] != 1
    ensures HasDescriptor(disk, PVD_START) && Descriptor(disk, buf) == disk[16]
  {
  }

  /** A volume as it is made: its descriptor at sector 16 names a root directory of fewer than 65536
      sectors, and there the files are packed. */
  ghost predicate Volume(disk: seq<Sector>, rest: seq<U8>, root: File, fs: seq<File>) {
    && 16 < |disk| <= 0x1_0000_0000 && DescribesRoot(disk[16], root)
    && Holds(disk, root.extent, fs) && root.size == 2048 * |Pack(fs)| && |Pack(fs)| < 0x1_0000
    && Closes(fs, rest)
  }

  /** cdrom_search on it returns extent and size of the first file that is seen to start with the
      name, or 0 and 0. */
  method SearchVolume(disk: seq<Sector>, name: seq<U8>, size: U32, buf: array<U8>, ghost root: File, ghost fs: seq<File>)
    returns (r: U32, fsize: U32)
    requires buf.Length >= 2048 && buf[0] != 1 && 0 !in name
    requires Volume(disk, buf[2048..], root, fs) && Located(fs, FirstSeen(fs, name))
    modifies buf
    ensures match FirstSeen(fs, name) {
              case None => r == 0 && fsize == 0
              case Some(i) => i < |fs| && r == fs[i].extent && fsize == fs[i].size
            }
  {
    VolumeSearched(disk, buf[..], root, fs, name);
    assert buf[..][..2048] == buf[..2048] && buf[..][2048..] == buf[2048..];
    r, fsize := CdromSearch(disk, name, size, buf);
  }

  /** The search goes through the whole root directory. */
  lemma VolumeRoot(disk: seq<Sector>, buf: Sector, rest: seq<U8>, root: File, fs: seq<File>)
    requires buf[0] != 1 && Volume(disk, rest, root, fs)
    ensures HasDescriptor(disk, PVD_START)
    ensures var pvd := Descriptor(disk, buf);
            RootLba(pvd) == root.extent && RootSectors(pvd) == |Pack(fs)|
  {
    FirstDescriptor(disk, buf);
    RootOfDescriptor(disk[16], root);
    WholeSectors(root.size, |Pack(fs)|);
  }

  lemma WholeSectors(size: nat, n: nat)
    requires size == 2048 * n && n < 0x1_0000
    ensures size / 2048 % 0x1_0000 == n
  {
  }

  lemma VolumeSearched(disk: seq<Sector>, buf: seq<U8>, root: File, fs: seq<File>, name: seq<U8>)
    requires |buf| >= 2048 && buf[..2048][0] != 1 && 0 !in name
    requires Volume(disk, buf[2048..], root, fs) && Located(fs, FirstSeen(fs, name))
    ensures HasDescriptor(disk, PVD_START)
    ensures var pvd := Descriptor(disk, buf[..2048]);
            && WalksSectors(disk, buf[2048..], RootLba(pvd), RootSectors(pvd), name)
            && Answers(Lookup(disk, buf[2048..], RootLba(pvd), RootSectors(pvd), name), fs, FirstSeen(fs, name))
  {
    VolumeRoot(disk, buf[..2048], buf[2048..], root, fs);
    SearchPacked(disk, buf[2048..], root.extent, fs, name);
  }

  /** So the loader's `main` finds on it the file it looks for, "POTATO.BIN". */
  lemma VolumeKernel(disk: seq<Sector>, buf: seq<U8>, root: File, fs: seq<File>)
    requires |buf| >= 2048 && buf[..2048][0] != 1
    requires Volume(disk, buf[2048..], root, fs) && Located(fs, FirstSeen(fs, Bytes("POTATO.BIN")))
    ensures Boot.Searchable(disk, buf)
    ensures Answers(Boot.KernelRecord(disk, buf), fs, FirstSeen(fs, Bytes("POTATO.BIN")))
  {
    assert Bytes("POTATO.BIN") == Boot.KERNEL_NAME;
    VolumeSearched(disk, buf, root, fs, Boot.KERNEL_NAME);
  }

  // ------------------------------------------------------------- full sectors

  /** Behind a full sector a record left in memory is found like one of the directory. */
  lemma StrayRecordFound(disk: seq<Sector>, lba: nat, fs: seq<File>, g: File, name: seq<U8>)
    requires AllValid(fs) && lba < |disk| && disk[lba] == EncodeAll(fs)
    requires g.Valid() && g.extent != 0 && name != [] && 0 !in name && name <= g.id
    requires forall i :: 0 <= i < |fs| ==> fs[i].id[0] != name[0]
    ensures var rest := Encode(g) + [0];
            WalksSectors(disk, rest, lba, 1, name) && Answers(Lookup(disk, rest, lba, 1, name), [g], Some(0))
    ensures FirstPrefixed(Ids(fs), name) == None
  {
    var rest := Encode(g) + [0];
    StrayChain(g, rest);
    FullSectorReadsOn(disk[lba], rest, fs);
    var rs := Records(disk[lba] + rest, 0);
    var stray := rs[|fs|..][0];
    forall i | 0 <= i < |fs| ensures !Matches(rs[i], name) {
      assert Names(rs[i], fs[i]) && rs[i].tail[0] == fs[i].id[0];
    }
    PrefixTransitive(name, g.id, stray.tail);
    var i := FirstIsLeast(rs, name);
    ChainedWalks(disk[lba] + rest, 0, name);
  }

  lemma StrayChain(g: File, rest: seq<U8>)
    requires g.Valid() && rest == Encode(g) + [0]
    ensures Chained(rest, 0) && |Records(rest, 0)| == 1 && Names(Records(rest, 0)[0], g)
  {
    assert EncodeAll([g]) == Encode(g) + EncodeAll([]);
    assert EncodeAll([g]) == Encode(g);
    LaidFront(Encode(g), [0], [g]);
    PackedRecords(rest, 0, |Encode(g)|, [g]);
    RecordAtOffset(rest, 0, 0);
    NamesAt(rest, 0, |Encode(g)|, [g], 0);
  }

  /** A directory that fills its sector, and a name that is in no file of it, yet is found. */
  lemma StrayKernelFound(extent: U32, size: U32, meta: seq<U8>)
    requires extent != 0 && |meta| == 14
    ensures var fs := Copies(File(seq(95, _ => 0x41), 1, 1, 0, meta, []), 16);
            var g := File(Boot.KERNEL_NAME, extent, size, 0, meta, []);
            && AllValid(fs) && g.Valid() && |EncodeAll(fs)| == 2048 && FirstPrefixed(Ids(fs), Boot.KERNEL_NAME) == None
            && var rest := Encode(g) + [0];
               && WalksSectors([EncodeAll(fs)], rest, 0, 1, Boot.KERNEL_NAME)
               && Answers(Lookup([EncodeAll(fs)], rest, 0, 1, Boot.KERNEL_NAME), [g], Some(0))
  {
    var f := File(seq(95, _ => 0x41), 1, 1, 0, meta, []);
    CopiesSize(f, 16);
    StrayRecordFound([EncodeAll(Copies(f, 16))], 0, Copies(f, 16), File(Boot.KERNEL_NAME, extent, size, 0, meta, []), Boot.KERNEL_NAME);
  }

  function Copies(f: File, n: nat): (fs: seq<File>)
    ensures |fs| == n && forall i :: 0 <= i < n ==> fs[i] == f
  {
    seq(n, _ => f)
  }

  lemma {:induction false} CopiesSize(f: File, n: nat)
    requires f.Valid()
    ensures AllValid(Copies(f, n)) && |EncodeAll(Copies(f, n))| == n * Length(f)
  {
    if n == 0 {
    } else {
      CopiesSize(f, n - 1);
      assert Copies(f, n)[1..] == Copies(f, n - 1);
      EncodeAllSize(Copies(f, n));
      assert n * Length(f) == (n - 1) * Length(f) + Length(f);
    }
  }

  lemma EncodeAllSize(fs: seq<File>)
    requires AllValid(fs) && fs != []
    ensures |EncodeAll(fs)| == Length(fs[0]) + |EncodeAll(fs[1..])|
  {
  }
}
