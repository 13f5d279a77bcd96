/** The bump allocator of the Ethernet build and the memory layout the PCnet32 driver builds with it. */
module Allocator {
  import opened Words
  import opened Bits

  datatype Block = Block(start: nat, size: nat)
  {
    /** Address of the first byte behind the block. */
    function End(): nat { start + size }
  }

  /** ((size_t)alloc + sz - 1) & ~(sz - 1) for sz = 2^k. */
  function RoundUp(x: nat, k: nat): nat
    requires x + Pow2(k) - 1 < TWO_32
  {
    And(x + Pow2(k) - 1, TWO_32 - Pow2(k))
  }

  /** For a power of two the mask form is the least multiple at or above x. */
  lemma RoundUpIsLeastMultiple(x: nat, k: nat)
    requires k <= 32 && x + Pow2(k) - 1 < TWO_32
    ensures var r := RoundUp(x, k);
            r % Pow2(k) == 0 && x <= r < x + Pow2(k) && forall m :: m >= x && m % Pow2(k) == 0 ==> m >= r
  {
    hide And, Pow2;
    var p := Pow2(k);
    var y := x + p - 1;
    AndHigh(y, k);
    var r := y - y % p;
    RoundedDown(y, p);
    forall m | m >= x && m % p == 0
      ensures m >= r
    {
      LeastMultiple(m, r, p);
    }
  }

  lemma RoundedDown(y: nat, p: nat)
    requires p > 0
    ensures (y - y % p) % p == 0 && y - p < y - y % p <= y
  {
    assert y == p * (y / p) + y % p;
    Remainder(y - y % p, p, y / p, 0);
  }

  lemma LeastMultiple(m: nat, r: nat, p: nat)
    requires p > 0 && m % p == 0 && r % p == 0 && m + p > r
    ensures m >= r
  {
    var d := r / p - m / p;
    assert r - m == p * d;
    assert d >= 1 ==> p * d >= p;
  }

  /** In address order, pairwise apart, all below `top`. */
  ghost predicate Apart(blocks: seq<Block>, top: nat)
  {
    && (forall i :: 0 <= i < |blocks| ==> blocks[i].End() <= top)
    && (forall i, j :: 0 <= i < j < |blocks| ==> blocks[i].End() <= blocks[j].start)
  }

  /** A block on top keeps them apart unless it runs past 4 GiB. */
  lemma ApartSnoc(blocks: seq<Block>, top: uint32, n: uint32)
    requires Apart(blocks, top)
    ensures Apart(blocks + [Block(top, n)], (top + n) % TWO_32) <==> top + n < TWO_32
  {
    var more := blocks + [Block(top, n)];
    assert more[|blocks|] == Block(top, n);
    if top + n >= TWO_32 {
      assert (top + n) % TWO_32 < more[|blocks|].End();
    }
  }

  class Heap {
    var alloc: uint32
    ghost var blocks: seq<Block>   // every block handed out so far

    ghost predicate Valid()
      reads this
    {
      Apart(blocks, alloc)
    }

    /** init_alloc. */
    constructor (base: uint32)
      ensures Valid() && blocks == [] && alloc == base
    {
      alloc := base;
      blocks := [];
    }

    /** do_alloc. As long as the 32-bit pointer does not wrap the new block lies apart from all earlier ones. */
    method DoAlloc(n: uint32) returns (p: uint32)
      modifies this
      ensures p == old(alloc) && alloc == (p + n) % TWO_32 && blocks == old(blocks) + [Block(p, n)]
      ensures old(Valid()) ==> (Valid() <==> p + n < TWO_32)
      ensures p + n < TWO_32 ==> alloc == p + n
    {
      if Apart(blocks, alloc) { ApartSnoc(blocks, alloc, n); }
      p := alloc;
      alloc := (alloc + n) % TWO_32;
      blocks := blocks + [Block(p, n)];
    }

    /** align_alloc for a power of two. */
    method AlignAlloc(k: nat)
      requires Valid() && k <= 32 && alloc + Pow2(k) - 1 < TWO_32
      modifies this`alloc
      ensures Valid() && alloc == RoundUp(old(alloc), k)
      ensures alloc % Pow2(k) == 0 && old(alloc) <= alloc < old(alloc) + Pow2(k)
    {
      RoundUpIsLeastMultiple(alloc, k);
      var sz := Pow2(k);
      alloc := And(alloc + sz - 1, Not(sz - 1));
    }
  }

  /** Any two blocks ever handed out share no byte. */
  lemma BlocksAreDisjoint(heap: Heap, i: nat, j: nat, a: nat)
    requires heap.Valid() && i < |heap.blocks| && j < |heap.blocks| && i != j
    ensures !(heap.blocks[i].start <= a < heap.blocks[i].End() && heap.blocks[j].start <= a < heap.blocks[j].End())
    ensures a >= heap.alloc ==> !(heap.blocks[i].start <= a < heap.blocks[i].End())
  {
    assert heap.blocks[i].End() <= heap.alloc;
    if i < j {
      assert heap.blocks[i].End() <= heap.blocks[j].start;
    } else {
      assert heap.blocks[j].End() <= heap.blocks[i].start;
    }
  }

  /** The blocks pcnet32_init allocates, in order: the two descriptor rings, the two pointer tables, 16 receive and 16
      transmit buffers. LOW, which the server reports, is at or above the end of all of them. */
  method Pcnet32Layout(heap: Heap) returns (rx: nat, tx: nat, low: nat)
    requires heap.Valid() && heap.alloc <= 0xF000_0000
    modifies heap
    ensures heap.Valid() && low == heap.alloc && |heap.blocks| == |old(heap.blocks)| + 36
    ensures old(heap.blocks) <= heap.blocks
    ensures rx % 16 == 0 && tx % 16 == 0
    ensures var n := |old(heap.blocks)|; heap.blocks[n] == Block(rx, 256) && heap.blocks[n + 1] == Block(tx, 256)
    ensures forall i :: |old(heap.blocks)| + 4 <= i < |heap.blocks| ==> heap.blocks[i].size == 1600
    ensures forall i :: 0 <= i < |heap.blocks| ==> heap.blocks[i].End() <= low
  {
    rx, tx := Rings(heap);
    PointerTables(heap);
    ghost var tables := heap.blocks;
    for i := 0 to 32
      invariant heap.Valid() && heap.alloc <= 0xF000_1000 + 1600 * i
      invariant tables <= heap.blocks && |heap.blocks| == |tables| + i
      invariant forall k :: |tables| <= k < |heap.blocks| ==> heap.blocks[k].size == 1600
    {
      var packet := heap.DoAlloc(1600);
    }
    low := heap.alloc;
  }

  /** The two descriptor rings. */
  method Rings(heap: Heap) returns (rx: nat, tx: nat)
    requires heap.Valid() && heap.alloc <= 0xF000_0000
    modifies heap
    ensures heap.Valid() && heap.alloc <= 0xF000_0300
    ensures rx % 16 == 0 && tx % 16 == 0
    ensures heap.blocks == old(heap.blocks) + [Block(rx, 256)] + [Block(tx, 256)]
  {
    assert Pow2(4) == 16;
    hide And, Pow2, RoundUp, heap.Valid;
    heap.AlignAlloc(4);
    rx := heap.DoAlloc(16 * 16);
    tx := heap.DoAlloc(16 * 16);
  }

  /** The two tables of buffer pointers, and the alignment of the buffers behind them. */
  method PointerTables(heap: Heap)
    requires heap.Valid() && heap.alloc <= 0xF000_0300
    modifies heap
    ensures heap.Valid() && heap.alloc <= 0xF000_1000
    ensures |heap.blocks| == |old(heap.blocks)| + 2 && old(heap.blocks) <= heap.blocks
  {
    assert Pow2(5) == 32;
    hide And, Pow2, RoundUp, heap.Valid;
    var rxPackets := heap.DoAlloc(16 * 4);
    var txPackets := heap.DoAlloc(16 * 4);
    heap.AlignAlloc(5);
  }
}
