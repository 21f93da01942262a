/** The boot disk as an array of 2048-byte sectors. */
module Disk {
  import opened Machine

  type Sector = s: seq<U8> | |s| == 2048 witness seq(2048, _ => 0)

  /** cdrom_read_sector: copy one sector to a buffer. A read past the end of the disk
      reports an error by its return value and leaves the buffer alone. */
  method ReadSector(disk: seq<Sector>, lba: U32, buf: array<U8>, at: nat) returns (read: U16)
    requires at + 2048 <= buf.Length
    modifies buf
    ensures read == if lba < |disk| then 2048 else 0
    ensures buf[..] == old(if lba < |disk| then Splice(buf[..], at, disk[lba]) else buf[..])
  {
    if lba >= |disk| {
      return 0;
    }
    var i := 0;
    while i < 2048
      invariant 0 <= i <= 2048
      invariant buf[..at] == old(buf[..at]) && buf[at + 2048..] == old(buf[at + 2048..])
      invariant buf[at..at + i] == disk[lba][..i]
    {
      buf[at + i] := disk[lba][i];
      i := i + 1;
    }
    assert buf[..] == buf[..at] + buf[at..at + 2048] + buf[at + 2048..];
    return 2048;
  }

  /** The same for the loader's buffer of one sector and the memory behind it. */
  method ReadBuffer(disk: seq<Sector>, lba: U32, buf: array<U8>)
    requires lba < |disk| && buf.Length >= 2048
    modifies buf
    ensures buf[..2048] == disk[lba] && buf[2048..] == old(buf[2048..])
  {
    var _ := ReadSector(disk, lba, buf, 0);
  }

  /** Byte k of the file that starts at sector lba. */
  function FileByte(disk: seq<Sector>, lba: nat, k: nat): U8
    requires lba + k / 2048 < |disk|
  {
    disk[lba + k / 2048][k % 2048]
  }
}
