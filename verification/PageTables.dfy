/** The long-mode page tables that the switch to x64 builds: three fill loops over physical memory, and the four-level
    walk that reads them. */
module PageTables {
  import opened Words

  const PML4: nat := 0x10000
  const PML3: nat := 0x11000
  const PML2: nat := 0x12000
  const FINAL_LOW: nat := 0x52000
  const GIB: nat := 0x4000_0000
  const MIB2: nat := 0x20_0000

  /** Physical memory as 32-bit words; word i is at address 4 * i. */
  type Dwords = array<uint32>

  /** The 64-bit table entry at physical address a. */
  function Entry(m: seq<uint32>, a: nat): nat
    requires a + 8 <= 4 * |m|
  {
    m[a / 4] + TWO_32 * m[a / 4 + 1]
  }

  /** Entry i of the table at physical address `base`. */
  function At(m: seq<uint32>, base: nat, i: nat): nat
    requires base + 8 * i + 8 <= 4 * |m|
  {
    Entry(m, base + 8 * i)
  }

  // ---------- the tables, entry by entry ----------

  /** `mov eax,PML3_LOCATION | 7`, then zeroes. */
  function Pml4Entry(i: nat): nat { if i == 0 then PML3 + 7 else 0 }

  /** 64 directories of 512 entries each, then zeroes. */
  function Pml3Entry(i: nat): nat { if i < 64 then PML2 + 4096 * i + 7 else 0 }

  /** `shl eax,21` drops what does not fit 32 bits: entry i maps the 2 MiB page i mod 2048. */
  function Pml2Entry(i: nat): nat { (i * MIB2) % TWO_32 + 0x87 }

  ghost predicate Built(m: seq<uint32>)
  {
    && FINAL_LOW <= 4 * |m|
    && (forall i :: 0 <= i < 512 ==> At(m, PML4, i) == Pml4Entry(i))
    && (forall i :: 0 <= i < 512 ==> At(m, PML3, i) == Pml3Entry(i))
    && (forall i :: 0 <= i < 32768 ==> At(m, PML2, i) == Pml2Entry(i))
  }

  // ---------- the fill loops ----------

  /** `stosd` twice: the low half, then the zero high half. It extends a table filled up to entry n. */
  method Stosq(m: Dwords, edi: nat, eax: uint32, ghost base: nat, ghost n: nat, ghost f: nat -> nat) returns (edi': nat)
    requires edi == base + 8 * n && edi + 8 <= 4 * m.Length
    requires Filled(m[..], base, n, f) && f(n) == eax
    modifies m
    ensures edi' == edi + 8
    ensures Filled(m[..], base, n + 1, f)
    ensures Apart(m[..], old(m[..]), edi / 4, edi / 4 + 2)
  {
    ghost var m0 := m[..];
    m[edi / 4] := eax;
    m[(edi + 4) / 4] := 0;
    edi' := edi + 8;
    FilledStays(m0, m[..], base, n, f, edi / 4, edi / 4 + 2);
    assert At(m[..], base, n) == eax;
  }

  /** Entries [0, n) of the table at `base` hold what `f` says. */
  ghost predicate Filled(m: seq<uint32>, base: nat, n: nat, f: nat -> nat)
  {
    base % 4 == 0 && base + 8 * n <= 4 * |m| && forall i :: 0 <= i < n ==> At(m, base, i) == f(i)
  }

  /** Outside words [lo, hi) nothing changed. */
  ghost predicate Apart(m: seq<uint32>, m0: seq<uint32>, lo: nat, hi: nat)
  {
    |m| == |m0| && forall k :: 0 <= k < |m| && !(lo <= k < hi) ==> m[k] == m0[k]
  }

  method FillPml4(m: Dwords)
    requires FINAL_LOW <= 4 * m.Length
    modifies m
    ensures Filled(m[..], PML4, 512, Pml4Entry)
    ensures Apart(m[..], old(m[..]), PML4 / 4, PML3 / 4)
  {
    var edi := PML4;
    var ecx := 511;
    edi := Stosq(m, edi, PML3 + 7, PML4, 0, Pml4Entry);   // the low bits are clear, so "or" adds
    while ecx != 0
      invariant 0 <= ecx <= 511 && edi == PML4 + 8 * (512 - ecx)
      invariant Filled(m[..], PML4, 512 - ecx, Pml4Entry)
      invariant Apart(m[..], old(m[..]), PML4 / 4, PML3 / 4)
    {
      hide Filled;
      edi := Stosq(m, edi, 0, PML4, 512 - ecx, Pml4Entry);
      ecx := ecx - 1;
    }
  }

  method FillPml3(m: Dwords)
    requires FINAL_LOW <= 4 * m.Length
    modifies m
    ensures Filled(m[..], PML3, 512, Pml3Entry)
    ensures Apart(m[..], old(m[..]), PML3 / 4, PML2 / 4)
  {
    var edi, edx := PML3, 0;
    while edx < 64
      invariant 0 <= edx <= 64 && edi == PML3 + 8 * edx
      invariant Filled(m[..], PML3, edx, Pml3Entry)
      invariant Apart(m[..], old(m[..]), PML3 / 4, PML2 / 4)
    {
      var eax := edx * 4096;
      eax := eax + PML2;
      hide Filled;
      edi := Stosq(m, edi, eax + 7, PML3, edx, Pml3Entry);
      edx := edx + 1;
    }
    while edx < 512
      invariant 64 <= edx <= 512 && edi == PML3 + 8 * edx
      invariant Filled(m[..], PML3, edx, Pml3Entry)
      invariant Apart(m[..], old(m[..]), PML3 / 4, PML2 / 4)
    {
      hide Filled;
      edi := Stosq(m, edi, 0, PML3, edx, Pml3Entry);
      edx := edx + 1;
    }
  }

  method FillPml2(m: Dwords)
    requires FINAL_LOW <= 4 * m.Length
    modifies m
    ensures Filled(m[..], PML2, 32768, Pml2Entry)
    ensures Apart(m[..], old(m[..]), PML2 / 4, FINAL_LOW / 4)
  {
    var edi, edx := PML2, 0;
    while edx < 512 * 64
      invariant 0 <= edx <= 512 * 64 && edi == PML2 + 8 * edx
      invariant Filled(m[..], PML2, edx, Pml2Entry)
      invariant Apart(m[..], old(m[..]), PML2 / 4, FINAL_LOW / 4)
    {
      Pml2Bound(edx);
      var eax := (edx * MIB2) % TWO_32;
      hide Filled;
      edi := Stosq(m, edi, eax + 0x87, PML2, edx, Pml2Entry);
      edx := edx + 1;
    }
  }

  /** A 32-bit multiple of 2 MiB leaves the low 21 bits clear. */
  lemma Pml2Bound(i: nat)
    ensures Pml2Entry(i) == (i % 2048) * MIB2 + 0x87 < TWO_32
  {
    var q, r := i / 2048, i % 2048;
    assert i * MIB2 == q * TWO_32 + r * MIB2;
  }

  /** The page-table construction of stage2-x64: it writes nothing outside [PML4_LOCATION, FINAL_LOW). */
  method BuildPageTables(m: Dwords)
    requires FINAL_LOW <= 4 * m.Length
    modifies m
    ensures Built(m[..])
    ensures Apart(m[..], old(m[..]), PML4 / 4, FINAL_LOW / 4)
  {
    FillPml4(m);
    ghost var m1 := m[..];
    FillPml3(m);
    ghost var m2 := m[..];
    FilledStays(m1, m2, PML4, 512, Pml4Entry, PML3 / 4, PML2 / 4);
    FillPml2(m);
    FilledStays(m2, m[..], PML4, 512, Pml4Entry, PML2 / 4, FINAL_LOW / 4);
    FilledStays(m2, m[..], PML3, 512, Pml3Entry, PML2 / 4, FINAL_LOW / 4);
  }

  lemma FilledStays(m0: seq<uint32>, m: seq<uint32>, base: nat, n: nat, f: nat -> nat, lo: nat, hi: nat)
    requires Filled(m0, base, n, f) && Apart(m, m0, lo, hi) && (base + 8 * n) / 4 <= lo
    ensures Filled(m, base, n, f)
  {
  }

  // ---------- the walk ----------

  predicate Present(e: nat) { e % 2 == 1 }

  /** Bit 7: the entry maps a 2 MiB page. */
  predicate Large(e: nat) { (e / 128) % 2 == 1 }

  /** The four-level walk of the CPU from CR3 = PML4_LOCATION, for a 48-bit address and 2 MiB pages. */
  function Walk(m: seq<uint32>, va: nat): Option<nat>
    requires Built(m)
    requires va < 0x1_0000_0000_0000
  {
    var e4 := At(m, PML4, va / (512 * GIB));
    if !Present(e4) then None else
    var t3, i3 := (e4 / 4096) * 4096, (va / GIB) % 512;
    if t3 + 4096 > 4 * |m| then None else
    var e3 := At(m, t3, i3);
    if !Present(e3) then None else
    var t2, i2 := (e3 / 4096) * 4096, (va / MIB2) % 512;
    if t2 + 4096 > 4 * |m| then None else
    var e2 := At(m, t2, i2);
    if !Present(e2) || !Large(e2) then None else
    Some((e2 / MIB2) * MIB2 + va % MIB2)
  }

  /** The tables map every address below 64 GiB to itself modulo 4 GiB, so to itself below 4 GiB, and nothing above. */
  lemma WalkIsIdentityMod4G(m: seq<uint32>, va: nat)
    requires Built(m) && va < 0x1_0000_0000_0000
    ensures Walk(m, va) == if va < 64 * GIB then Some(va % TWO_32) else None
    ensures va < 4 * GIB ==> Walk(m, va) == Some(va)
  {
    hide Pml2Entry, Built, At, Walk;
    var page := va / MIB2;
    if va < 64 * GIB {
      WalkMapped(m, va);
      Pml2Bound(page);
      LargePage(page);
      PageOffset(va);
    } else {
      WalkUnmapped(m, va);
    }
  }

  /** Below 64 GiB the walk ends at the entry of the address's 2 MiB page. */
  lemma WalkMapped(m: seq<uint32>, va: nat)
    requires Built(m) && va < 64 * GIB
    ensures var e := Pml2Entry(va / MIB2);
            Walk(m, va) == if !Present(e) || !Large(e) then None else Some((e / MIB2) * MIB2 + va % MIB2)
  {
    hide Pml2Entry, Built, At, Large;
    var i3, page := va / GIB, va / MIB2;
    SplitIndex(va);
    BuiltAt(m, 0, i3, page);
    TableOf(i3);
    SameEntry(m, i3, page % 512);
  }

  /** The addresses in the upper entries are those of the tables. */
  lemma TableOf(i: nat)
    requires i < 64
    ensures (Pml4Entry(0) / 4096) * 4096 == PML3 && (Pml3Entry(i) / 4096) * 4096 == PML2 + 4096 * i
    ensures Present(Pml4Entry(0)) && Present(Pml3Entry(i)) && PML2 + 4096 * i + 4096 <= FINAL_LOW
  {
  }

  lemma WalkUnmapped(m: seq<uint32>, va: nat)
    requires Built(m) && 64 * GIB <= va < 0x1_0000_0000_0000
    ensures Walk(m, va) == None
  {
    hide Pml2Entry, Built, At, Large;
    SplitIndex(va);
    TableOf(0);
    BuiltAt(m, va / (512 * GIB), (va / GIB) % 512, 0);
  }

  /** Below 64 GiB every entry of the walk is present, writable and open to user code (bits 0, 1 and 2). */
  lemma MappedIsWritable(m: seq<uint32>, va: nat)
    requires Built(m) && va < 64 * GIB
    ensures At(m, PML4, 0) % 8 == 7 && At(m, PML3, va / GIB) % 8 == 7 && At(m, PML2, va / MIB2) % 8 == 7
  {
    hide Entry, Pml2Entry, Built, At;
    BuiltAt(m, 0, va / GIB, va / MIB2);
    Pml2Bound(va / MIB2);
    LowBitsOfPage((va / MIB2) % 2048);
  }

  lemma LowBitsOfPage(k: nat)
    ensures (k * MIB2 + 0x87) % 8 == 7
  {
    assert k * MIB2 + 0x87 == 8 * (k * 0x4_0000 + 0x10) + 7;
  }

  lemma BuiltAt(m: seq<uint32>, i4: nat, i3: nat, page: nat)
    requires Built(m) && i4 < 512 && i3 < 512
    ensures FINAL_LOW <= 4 * |m| && At(m, PML4, i4) == Pml4Entry(i4) && At(m, PML3, i3) == Pml3Entry(i3)
    ensures page < 32768 ==> At(m, PML2, page) == Pml2Entry(page)
  {
  }

  /** The second-level tables form one array. */
  lemma SameEntry(m: seq<uint32>, i3: nat, i2: nat)
    requires FINAL_LOW <= 4 * |m| && i3 < 64 && i2 < 512
    ensures At(m, PML2 + 4096 * i3, i2) == At(m, PML2, 512 * i3 + i2)
  {
  }

  lemma SplitIndex(va: nat)
    ensures va / GIB == 512 * (va / (512 * GIB)) + (va / GIB) % 512
    ensures va / MIB2 == 512 * (va / GIB) + (va / MIB2) % 512
    ensures va < 64 * GIB <==> va / GIB < 64
    ensures va < 0x1_0000_0000_0000 ==> va / (512 * GIB) < 512
  {
  }

  lemma LargePage(page: nat)
    ensures var e := (page % 2048) * MIB2 + 0x87; Present(e) && Large(e) && e / MIB2 == page % 2048
  {
    var k := page % 2048;
    LargeBits(k);
  }

  lemma LargeBits(k: nat)
    ensures var e := k * MIB2 + 0x87; e % 2 == 1 && (e / 128) % 2 == 1 && e / MIB2 == k
  {
    var e := k * MIB2 + 0x87;
    Remainder(e, 2, k * 0x10_0000 + 0x43, 1);
    Remainder(e, 128, k * 0x4000 + 1, 7);
    Remainder(k * 0x4000 + 1, 2, k * 0x2000, 1);
    Remainder(e, MIB2, k, 0x87);
  }

  lemma PageOffset(va: nat)
    ensures ((va / MIB2) % 2048) * MIB2 + va % MIB2 == va % TWO_32
  {
    var page := va / MIB2;
    var q, r := page / 2048, page % 2048;
    var low := r * MIB2 + va % MIB2;
    assert va == q * TWO_32 + low;
    Mod32(q, low);
  }

  lemma Mod32(q: nat, low: nat)
    requires low < TWO_32
    ensures (q * TWO_32 + low) % TWO_32 == low
  {
  }

  /** The tables lie one behind the other and end at FINAL_LOW. */
  lemma TablesDoNotOverlap()
    ensures PML4 + 512 * 8 <= PML3 && PML3 + 512 * 8 <= PML2 && PML2 + 32768 * 8 <= FINAL_LOW
  {
  }
}
