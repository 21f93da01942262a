/** 4-level paging (section 4.5 of the Intel 64 and IA-32 Architectures Software
    Developer's Manual, Volume 3A) over byte-addressed physical memory. */
module PageWalk {
  import opened Machine

  /** What an access to a virtual address becomes: a fault, a physical address, or a
      walk that needs a table outside the modelled memory. */
  datatype Translation = Fault | OutsideMemory | To(phys: nat)


  /** Bits 47 to 63 all equal. */
  predicate Canonical(v: U64) { v < 0x8000_0000_0000 || v >= 0xFFFF_8000_0000_0000 }

  predicate Present(w: U64) { w % 2 == 1 }
  predicate Writable(w: U64) { w / 2 % 2 == 1 }
  predicate Large(w: U64) { w / 0x80 % 2 == 1 }

  /** Bits 51 to 12: the table or 4 KiB frame an entry points to. */
  function Frame(w: U64): nat { w / 0x1000 % 0x100_0000_0000 * 0x1000 }

  /** Bits 51 to 21, and the bits 20 to 13 that must be clear beside them. */
  function LargeFrame(w: U64): nat { w / 0x20_0000 % 0x8000_0000 * 0x20_0000 }
  predicate LargeReserved(w: U64) { w / 0x2000 % 0x100 != 0 }

  /** Bits 51 to 30, and the bits 29 to 13 that must be clear beside them. */
  function HugeFrame(w: U64): nat { w / 0x4000_0000 % 0x40_0000 * 0x4000_0000 }
  predicate HugeReserved(w: U64) { w / 0x2000 % 0x2_0000 != 0 }

  function Fetch(m: seq<U8>, table: nat, index: nat): Option<U64> {
    if table + 8 * index + 8 <= |m| then Some(WordAt(m, table + 8 * index)) else None
  }

  /** The walk from cr3. With `strict`, a set reserved bit faults as on hardware (with
      52 physical address bits); without it reserved bits are ignored. */
  function Walk(m: seq<U8>, cr3: U64, v: U64, strict: bool): Translation {
    if !Canonical(v) then Fault
    else match Fetch(m, Frame(cr3), v / 0x80_0000_0000 % 512) {
      case None => OutsideMemory
      case Some(e) => if !Present(e) || (strict && Large(e)) then Fault else WalkPdpt(m, Frame(e), v, strict)
    }
  }

  function WalkPdpt(m: seq<U8>, table: nat, v: U64, strict: bool): Translation {
    match Fetch(m, table, v / 0x4000_0000 % 512) {
      case None => OutsideMemory
      case Some(e) =>
        if !Present(e) then Fault
        else if !Large(e) then WalkDirectory(m, Frame(e), v, strict)
        else if strict && HugeReserved(e) then Fault
        else To(HugeFrame(e) + v % 0x4000_0000)
    }
  }

  function WalkDirectory(m: seq<U8>, table: nat, v: U64, strict: bool): Translation {
    match Fetch(m, table, v / 0x20_0000 % 512) {
      case None => OutsideMemory
      case Some(e) =>
        if !Present(e) then Fault
        else if !Large(e) then WalkTable(m, Frame(e), v)
        else if strict && LargeReserved(e) then Fault
        else To(LargeFrame(e) + v % 0x20_0000)
    }
  }

  function WalkTable(m: seq<U8>, table: nat, v: U64): Translation {
    match Fetch(m, table, v / 0x1000 % 512) {
      case None => OutsideMemory
      case Some(e) => if !Present(e) then Fault else To(Frame(e) + v % 0x1000)
    }
  }

  /** The byte the processor reads at virtual address v, when there is one. */
  function ReadByte(m: seq<U8>, cr3: U64, v: nat): Option<U8> {
    if v >= 0x1_0000_0000_0000_0000 then None
    else match Walk(m, cr3, v, true) {
      case To(p) => if p < |m| then Some(m[p]) else None
      case _ => None
    }
  }

  // ------------------------------------------------------- fields of an entry

  /** An entry whose low twelve bits are these flags points to this frame. */
  lemma EntryFields(frame: nat, flags: nat)
    requires frame % 0x1000 == 0 && frame < 0x10_0000_0000_0000 && flags < 0x1000
    ensures Frame(frame + flags) == frame
    ensures Present(frame + flags) <==> flags % 2 == 1
    ensures Writable(frame + flags) <==> flags / 2 % 2 == 1
    ensures Large(frame + flags) <==> flags / 0x80 % 2 == 1
  {
    var w, k, f := frame + flags, frame / 0x1000, flags / 0x80;
    ModUnique(w, 0x1000, k, flags);
    ModUnique(w, 0x80, 32 * k + f, flags % 0x80);
    ModUnique(32 * k + f, 2, 16 * k + f / 2, f % 2);
    ModUnique(w, 2, 2048 * k + flags / 2, flags % 2);
    ModUnique(2048 * k + flags / 2, 2, 1024 * k + flags / 4, flags / 2 % 2);
  }

  /** A large-page entry made from any page frame: the bits below 21 drop out of the
      frame, and those from 13 up are the reserved ones. */
  lemma LargeFields(frame: nat, flags: nat)
    requires frame % 0x1000 == 0 && frame < 0x10_0000_0000_0000 && flags < 0x1000
    ensures LargeFrame(frame + flags) == frame / 0x20_0000 * 0x20_0000
    ensures LargeReserved(frame + flags) <==> frame % 0x20_0000 >= 0x2000
  {
    var a, q := frame / 0x20_0000, frame % 0x20_0000 / 0x1000;
    LargeQuotients(a, q, flags);
    assert frame == 0x20_0000 * a + 0x1000 * q;
  }

  /** The same for a 1 GiB page, of which the loader and the kernel build none. */
  lemma HugeFields(frame: nat, flags: nat)
    requires frame % 0x1000 == 0 && frame < 0x10_0000_0000_0000 && flags < 0x1000
    ensures HugeFrame(frame + flags) == frame / 0x4000_0000 * 0x4000_0000
    ensures HugeReserved(frame + flags) <==> frame % 0x4000_0000 >= 0x2000
  {
    var a, q := frame / 0x4000_0000, frame % 0x4000_0000 / 0x1000;
    assert frame == 0x4000_0000 * a + 0x1000 * q;
    ModUnique(frame + flags, 0x4000_0000, a, 0x1000 * q + flags);
    ModUnique(frame + flags, 0x2000, 0x2_0000 * a + q / 2, 0x1000 * (q % 2) + flags);
    ModUnique(0x2_0000 * a + q / 2, 0x2_0000, a, q / 2);
  }

  lemma LargeQuotients(a: nat, q: nat, flags: nat)
    requires a < 0x8000_0000 && q < 512 && flags < 0x1000
    ensures (0x20_0000 * a + 0x1000 * q + flags) / 0x20_0000 == a
    ensures (0x20_0000 * a + 0x1000 * q + flags) / 0x2000 == 0x100 * a + q / 2
    ensures (0x100 * a + q / 2) % 0x100 == q / 2
  {
  }
}
