/** How the READB and WRITEB loops of the three serial stubs form addresses. */
module Segments {
  import opened Words

  /** 8086 real mode, 286 protected mode, 386 32-bit protected mode. */
  datatype Mode = Real86 | Prot286 | Flat386

  /** DX:AX after strtohex_32. */
  function Dx(addr: uint32): uint16 { addr / TWO_16 }
  function Ax(addr: uint32): uint16 { addr % TWO_16 }

  /** dx_ax_phys_to_real: the segment; DX << 12 leaves room for the 12 bits of AX >> 4. */
  function RealSegment(addr: uint32): uint16 { (Dx(addr) * 4096) % TWO_16 + Ax(addr) / 16 }

  function RealOffset(addr: uint32): uint16 { Ax(addr) % 16 }

  /** dx_ax_phys_to_286seg: AX becomes base bits 0-15 of the access descriptor, DL bits 16-23. */
  function DescriptorBase(addr: uint32): nat { (Dx(addr) % 256) * TWO_16 + Ax(addr) }

  /** The linear address of byte i of a transfer: BX (or EBX) is only ever incremented, `inc` never sets the carry the
      loops test, so the segment is never moved. */
  function Touched(mode: Mode, addr: uint32, i: nat): uint32
  {
    match mode
    case Real86 => RealSegment(addr) * 16 + (RealOffset(addr) + i) % TWO_16
    case Prot286 => (DescriptorBase(addr) + i % TWO_16) % 0x100_0000
    case Flat386 => (addr + i) % TWO_32
  }

  lemma RealIsFlat(addr: uint32)
    requires addr < 0x10_0000
    ensures RealSegment(addr) * 16 + RealOffset(addr) == addr
  {
    assert (Dx(addr) * 4096) % TWO_16 == Dx(addr) * 4096;
    assert Ax(addr) == 16 * (Ax(addr) / 16) + Ax(addr) % 16;
    assert addr == Dx(addr) * TWO_16 + Ax(addr);
  }

  /** Below 1 MiB and for 16-bit counts, the 286 and 386 loops touch addr, addr + 1, ... in order, and the 8086 loop
      touches the same bytes exactly when the transfer does not run past the end of its segment. */
  lemma ModeIndependence(addr: uint32, count: nat)
    requires addr < 0x10_0000 && count <= 0xFFFF
    ensures forall i :: 0 <= i < count ==> Touched(Prot286, addr, i) == Touched(Flat386, addr, i) == addr + i
    ensures (forall i :: 0 <= i < count ==> Touched(Real86, addr, i) == addr + i) <==> addr % 16 + count <= 65536
  {
    RealIsFlat(addr);
    assert RealOffset(addr) == addr % 16;
    assert DescriptorBase(addr) == addr;
    forall i | 0 <= i < count
      ensures Touched(Real86, addr, i) == addr + i <==> addr % 16 + i < 65536
      ensures Touched(Prot286, addr, i) == Touched(Flat386, addr, i) == addr + i
    {
    }
    if addr % 16 + count > 65536 {
      assert Touched(Real86, addr, count - 1) != addr + (count - 1);
    }
  }

  // ---------- each mode over its own address range ----------

  /** The transfer of n bytes at addr stays flat: within the segment on the 8086, below 16 MiB on the 286, always on the
      386. */
  predicate FlatRange(mode: Mode, addr: uint32, n: nat)
  {
    match mode
    case Real86 => addr < 0x10_0000 && n <= 0xFFFF && addr % 16 + n <= 65536
    case Prot286 => addr < 0x100_0000 && n <= 0xFFFF && addr + n <= 0x100_0000
    case Flat386 => n < TWO_32
  }

  /** Byte i of a transfer of which byte 0 is where it should be. */
  lemma TouchedFlat(mode: Mode, addr: uint32, i: nat)
    requires FlatRange(mode, addr, 1) && (mode.Flat386? || i <= 0xFFFF)
    ensures Touched(mode, addr, i) == (addr + i) % TWO_32 <==>
              match mode
              case Real86 => addr % 16 + i < 65536
              case Prot286 => addr + i < 0x100_0000
              case Flat386 => true
  {
    match mode
    case Real86 =>
      RealIsFlat(addr);
      assert RealOffset(addr) == addr % 16;
    case Prot286 => assert DescriptorBase(addr) == addr;
    case Flat386 =>
  }

  /** The exact condition for a transfer to touch addr, addr + 1, ... in order. */
  lemma FlatIff(mode: Mode, addr: uint32, n: nat)
    requires FlatRange(mode, addr, 1) && n < (if mode.Flat386? then TWO_32 else TWO_16)
    ensures (forall i :: 0 <= i < n ==> Touched(mode, addr, i) == (addr + i) % TWO_32) <==> FlatRange(mode, addr, n)
  {
    hide Touched;
    forall i | 0 <= i < n
      ensures Touched(mode, addr, i) == (addr + i) % TWO_32 <==>
                match mode
                case Real86 => addr % 16 + i < 65536
                case Prot286 => addr + i < 0x100_0000
                case Flat386 => true
    {
      TouchedFlat(mode, addr, i);
    }
    if !FlatRange(mode, addr, n) {
      assert Touched(mode, addr, n - 1) != (addr + (n - 1)) % TWO_32;
    }
  }
}
