/** The boot sector's load loop: sector after sector through a cylinder/head/sector counter and a segment:offset pair. */
module FloppyLoader {
  import opened Words

  /** One int 13h call: the address on disk and the linear address of the buffer. */
  datatype Transfer = Transfer(c: nat, h: nat, s: nat, dest: nat)

  /** A geometry the BIOS can report for a floppy; the 8-bit comparisons of the loop are signed. */
  predicate Geometry(sectors: nat, heads: nat) { 2 <= sectors <= 63 && 1 <= heads <= 127 }

  /** The block number of a valid triple, counting from cylinder 0, head 0, sector 1. */
  function Lba(t: Transfer, sectors: nat, heads: nat): int { (t.c * heads + t.h) * sectors + (t.s - 1) }

  predicate ValidTriple(t: Transfer, sectors: nat, heads: nat) { t.h < heads && 1 <= t.s <= sectors }

  /** int 13h calls the loop makes for a stage2_size field: dec-and-test goes all the way round from 0. */
  function Count(stage2Size: uint16): nat { if stage2Size == 0 then TWO_16 else stage2Size }

  /** Sectors the counter can tell apart: read_c is a byte the code never checks. */
  function Capacity(sectors: nat, heads: nat): nat { 256 * (heads * sectors) }

  /** The loop. Read n is block n + 1 until the cylinder wraps, and from there on the disk is read from its start. */
  method Load(sectors: nat, heads: nat, stage2Size: uint16) returns (trace: seq<Transfer>)
    requires Geometry(sectors, heads)
    ensures |trace| == if stage2Size == 0 then 65536 else stage2Size
    ensures forall n :: 0 <= n < |trace| ==> ValidTriple(trace[n], sectors, heads)
    ensures Capacity(sectors, heads) > 0
    ensures forall n :: 0 <= n < |trace| ==> Lba(trace[n], sectors, heads) == (n + 1) % Capacity(sectors, heads)
    ensures forall n :: 0 <= n < |trace| && n < 128 ==> trace[n].dest == 0x8000 + 512 * n
    ensures |trace| > 128 ==> trace[128].dest == 0x19800
  {
    CapacityOf(sectors, heads);
    hide Capacity;
    trace := [];
    var es, bx := 0x0800, 0;
    var c, h, s := 0, 0, 2;
    var left := stage2Size;
    var go := true;
    while go
      invariant |trace| + (if go then Count(left) else 0) == Count(stage2Size)
      invariant !go ==> left == 0
      invariant forall n :: 0 <= n < |trace| ==> ValidTriple(trace[n], sectors, heads)
      invariant forall n :: 0 <= n < |trace| ==> Lba(trace[n], sectors, heads) == (n + 1) % Capacity(sectors, heads)
      invariant forall n :: 0 <= n < |trace| && n < 128 ==> trace[n].dest == 0x8000 + 512 * n
      invariant |trace| > 128 ==> trace[128].dest == 0x19800
      invariant 0 <= c < 256 && 0 <= h < heads && 1 <= s <= sectors
      invariant go ==> Lba(Transfer(c, h, s, 0), sectors, heads) == (|trace| + 1) % Capacity(sectors, heads)
      invariant |trace| < 128 ==> es == 0x0800 && bx == 512 * |trace|
      invariant |trace| == 128 ==> es == 0x1800 && bx == 0x1800
      invariant 0 <= es < TWO_16 && 0 <= bx < TWO_16
      decreases go, Count(left)
    {
      trace := trace + [Transfer(c, h, s, 16 * es + bx)];
      bx := bx + 0x200;
      if bx >= TWO_16 {                 // carry: BX itself is left holding ES
        bx := es;
        bx := (bx + 0x1000) % TWO_16;
        es := bx;
      }
      left := if left == 0 then 0xFFFF else left - 1;
      if left == 0 {
        go := false;
      } else {
        c, h, s := NextTriple(c, h, s, sectors, heads, |trace|);
      }
    }
  }

  /** The counter: sector, then head, then cylinder, and round again. */
  method NextTriple(c0: nat, h0: nat, s0: nat, sectors: nat, heads: nat, ghost n: nat)
    returns (c: nat, h: nat, s: nat)
    requires Geometry(sectors, heads) && Capacity(sectors, heads) > 0
    requires c0 < 256 && ValidTriple(Transfer(c0, h0, s0, 0), sectors, heads)
    requires Lba(Transfer(c0, h0, s0, 0), sectors, heads) == n % Capacity(sectors, heads)
    ensures c < 256 && ValidTriple(Transfer(c, h, s, 0), sectors, heads)
    ensures Lba(Transfer(c, h, s, 0), sectors, heads) == (n + 1) % Capacity(sectors, heads)
  {
    hide Lba, Capacity;
    LbaSteps(c0, h0, s0, sectors, heads);
    NextModulo(n, Capacity(sectors, heads));
    c, h, s := c0, h0, s0 + 1;
    if s <= sectors {
      BelowCapacity(c, h, s, sectors, heads);
      return;
    }
    s := 1;
    h := h + 1;
    if h < heads {
      BelowCapacity(c, h, s, sectors, heads);
      return;
    }
    h := 0;
    LastCylinder(sectors, heads);
    if c + 1 < 256 { BelowCapacity(c + 1, h, s, sectors, heads); }
    c := (c + 1) % 256;
  }

  lemma NextModulo(n: nat, m: nat)
    requires m > 0
    ensures (n + 1) % m == if n % m + 1 < m then n % m + 1 else 0
  {
    var q, r := n / m, n % m;
    assert n == m * q + r;
    if r + 1 < m {
      Remainder(n + 1, m, q, r + 1);
    } else {
      assert n + 1 == m * (q + 1);
      Remainder(n + 1, m, q + 1, 0);
    }
  }

  lemma CapacityOf(sectors: nat, heads: nat)
    requires Geometry(sectors, heads)
    ensures Capacity(sectors, heads) >= 512 && 1 % Capacity(sectors, heads) == 1
  {
    TimesMonotone(1, heads, sectors);
    Remainder(1, Capacity(sectors, heads), 0, 1);
  }

  /** The block number of a triple on cylinders 0 to 255 is below the capacity. */
  lemma BelowCapacity(c: nat, h: nat, s: nat, sectors: nat, heads: nat)
    requires c < 256 && ValidTriple(Transfer(c, h, s, 0), sectors, heads)
    ensures Lba(Transfer(c, h, s, 0), sectors, heads) < Capacity(sectors, heads)
  {
    var t := c * heads + h;
    Distribute(c, heads);
    TimesMonotone(c + 1, 256, heads);
    Distribute(t, sectors);
    TimesMonotone(t + 1, 256 * heads, sectors);
    Regroup(heads, sectors);
  }

  lemma TimesMonotone(a: nat, b: nat, k: nat)
    requires a <= b
    ensures a * k <= b * k
  {
  }

  lemma Regroup(a: nat, b: nat)
    ensures (256 * a) * b == 256 * (a * b)
  {
  }

  /** One cylinder too far is the capacity; cylinder 0 starts again at block 0. */
  lemma LastCylinder(sectors: nat, heads: nat)
    ensures Lba(Transfer(256, 0, 1, 0), sectors, heads) == Capacity(sectors, heads)
    ensures Lba(Transfer(0, 0, 1, 0), sectors, heads) == 0
  {
    Regroup(heads, sectors);
  }

  /** What a step of each wheel does to the block number. */
  lemma LbaSteps(c: nat, h: nat, s: nat, sectors: nat, heads: nat)
    ensures var n := Lba(Transfer(c, h, s, 0), sectors, heads);
            && Lba(Transfer(c, h, s + 1, 0), sectors, heads) == n + 1
            && (s == sectors ==> Lba(Transfer(c, h + 1, 1, 0), sectors, heads) == n + 1)
            && (s == sectors && h + 1 == heads ==> Lba(Transfer(c + 1, 0, 1, 0), sectors, heads) == n + 1)
  {
    var t := c * heads + h;
    Distribute(t, sectors);
    Distribute(c, heads);
  }

  lemma Distribute(a: nat, b: nat)
    ensures (a + 1) * b == a * b + b
  {
  }

  /** Every sector read is the one that was meant exactly when the image ends on cylinder 255 at the latest. */
  lemma RightSectorsIffFits(trace: seq<Transfer>, sectors: nat, heads: nat)
    requires Capacity(sectors, heads) > 0
    requires forall n :: 0 <= n < |trace| ==> Lba(trace[n], sectors, heads) == (n + 1) % Capacity(sectors, heads)
    ensures (forall n :: 0 <= n < |trace| ==> Lba(trace[n], sectors, heads) == n + 1) <==>
              |trace| < Capacity(sectors, heads)
  {
    hide Lba, Capacity;
    var m := Capacity(sectors, heads);
    forall n | 0 <= n < |trace| && n + 1 < m
      ensures Lba(trace[n], sectors, heads) == n + 1
    {
      Remainder(n + 1, m, 0, n + 1);
    }
    if |trace| >= m {
      Remainder(m, m, 1, 0);
      assert Lba(trace[m - 1], sectors, heads) == 0;
    }
  }

  /** All sectors land one after the other from 0x8000 exactly when there are at most 128 of them. */
  lemma ContiguousIffFits(trace: seq<Transfer>)
    requires forall n :: 0 <= n < |trace| && n < 128 ==> trace[n].dest == 0x8000 + 512 * n
    requires |trace| > 128 ==> trace[128].dest == 0x19800
    ensures (forall n :: 0 <= n < |trace| ==> trace[n].dest == 0x8000 + 512 * n) <==> |trace| <= 128
  {
    if |trace| > 128 {
      assert trace[128].dest != 0x8000 + 512 * 128;
    }
  }
}
