/** The base-address-register probe of pci_init on one function's configuration space. */
module PciBars {
  import opened Words
  import opened Bits

  /** A configuration register: the bits a write can change, and the value of the others. */
  datatype Reg = Reg(writable: uint32, fixed: uint32, value: uint32)
  {
    /** The read-only bits show their fixed value. */
    predicate Valid() { And(value, Not(writable)) == And(fixed, Not(writable)) }

    /** The value after v is written. */
    function Written(v: uint32): (x: uint32)
    {
      WrittenFits(v, writable, fixed);
      And(v, writable) + And(fixed, Not(writable))
    }

    function Write(v: uint32): Reg { this.(value := Written(v)) }
  }

  lemma WrittenFits(v: uint32, w: uint32, f: uint32)
    ensures And(v, w) + And(f, Not(w)) < TWO_32
  {
  }

  /** Writing back what was read leaves the register as it was, whatever was written in between. */
  lemma WriteBackRestores(r: Reg, v: uint32)
    requires r.Valid()
    ensures r.Write(v).Write(r.value) == r
  {
    Pow2Of32();
    AndSplit(r.value, r.writable, 32);
  }

  datatype Bar = Absent | Present(io: bool, kind: nat, start: nat, upper: nat, end: nat)

  const TYPE_64BIT: nat := 2

  /** What the loop body computes from the three reads of one register (upper half aside). */
  function Decode(orig: uint32, min: uint32, max: uint32): (b: Bar)
    ensures b.Present? ==> b.upper == 0
  {
    if orig == min && min == max && (orig == 0 || orig == 0xFFFF_FFFF) then Absent
    else if And(max, 1) == 1 then
      var start, top := And(orig, Not(0x3)), And(max, Not(0x3));
      Present(true, 0, start, 0, Or(start, Not(top)))
    else
      var start, top := And(orig, Not(0xF)), And(max, Not(0xF));
      Present(false, (max / 2) % 4, start, 0, Or(start, Not(top)))
  }

  /** A register that decodes all address bits of a window of 2^k bytes: the address bits from bit k up are writable,
      below them only flag bits are set. */
  predicate Decodes(r: Reg, k: nat, io: bool)
  {
    && r.Valid() && (if io then 2 else 4) <= k < 32 && Pow2(k) < TWO_32
    && r.writable == TWO_32 - Pow2(k)
    && r.fixed % Pow2(k) < (if io then 4 else 16)
    && (r.fixed % 2 == 1 <==> io)
  }

  /** Such a register is measured exactly: start is its address, aligned to the size, and end is start + size - 1. */
  lemma ProbeMeasures(r: Reg, k: nat, io: bool)
    requires Decodes(r, k, io)
    ensures var b := Decode(r.value, r.Written(0), r.Written(0xFFFF_FFFF));
            && b.Present? && b.io == io
            && b.start == And(r.value, r.writable) && b.start % Pow2(k) == 0
            && b.end == b.start + Pow2(k) - 1
            && b.kind == (if io then 0 else (r.fixed / 2) % 4)
  {
    hide And, Pow2, r.Written, Decode, Decodes;
    var p, f, x := Pow2(k), r.fixed % Pow2(k), r.value;
    assert (if io then 2 else 4) <= k < 32 && p < TWO_32 && f < (if io then 4 else 16) by { Unpack(r, k, io); }
    RegisterValues(r, k, io);
    var max := TWO_32 - p + f;
    TopIsMultiple(p, f, k);
    Masked(x, k, f, io);
    Masked(max, k, f, io);
    AndLowBit(max);
    AndLow(x - f, k);
    DecodeOf(x, f, max, x - f, p, io);
    if !io {
      TypeBits(max, k, f);
      TypeBits(r.fixed, k, f);
    }
  }

  /** The type field, bits 2 and 1, of a value whose bits below 2^k are f. */
  lemma TypeBits(x: nat, k: nat, f: nat)
    requires 4 <= k && x % Pow2(k) == f < 16
    ensures (x / 2) % 4 == (f / 2) % 4
  {
    hide Pow2;
    assert Pow2(4) == 16 by { Pow2Four(); }
    LowBits(x, k, 4);
    TypeOfRest(x / 16, f, x);
  }

  lemma Pow2Four()
    ensures Pow2(4) == 16
  {
    assert Pow2(2) == 4;
  }

  lemma TypeOfRest(q: nat, f: nat, x: nat)
    requires f < 16 && x == 16 * q + f
    ensures (x / 2) % 4 == (f / 2) % 4
  {
    var r := f / 2;
    Remainder(x, 2, 8 * q + r, f % 2);
    Remainder(8 * q + r, 4, 2 * q + r / 4, r % 4);
  }

  lemma Unpack(r: Reg, k: nat, io: bool)
    requires Decodes(r, k, io)
    ensures (if io then 2 else 4) <= k < 32 && Pow2(k) < TWO_32 && r.fixed % Pow2(k) < (if io then 4 else 16)
  {
  }

  lemma DecodeOf(orig: uint32, min: uint32, max: uint32, start: uint32, p: nat, io: bool)
    requires 0 < p < TWO_32 && And(orig, Not(if io then 0x3 else 0xF)) == start
    requires And(max, Not(if io then 0x3 else 0xF)) == TWO_32 - p
    requires And(max, 1) == (if io then 1 else 0) && min != max
    requires And(start, p - 1) == 0
    ensures var b := Decode(orig, min, max);
            && b.Present? && b.io == io && b.start == start && b.end == start + p - 1
            && b.kind == (if io then 0 else (max / 2) % 4)
  {
    hide And;
    assert Not(TWO_32 - p) == p - 1;
  }

  /** Masking the flag bits off a value whose bits below 2^k are f leaves the multiple of 2^k. */
  lemma Masked(x: uint32, k: nat, f: nat, io: bool)
    requires (if io then 2 else 4) <= k && x % Pow2(k) == f < (if io then 4 else 16)
    ensures And(x, Not(if io then 0x3 else 0xF)) == x - f && (x - f) % Pow2(k) == 0
  {
    hide And;
    var j := if io then 2 else 4;
    assert Pow2(2) == 4 && Pow2(4) == 16;
    LowBits(x, k, j);
    AndHigh(x, j);
    MultipleOf(x, Pow2(k));
  }

  lemma AndLowBit(x: nat)
    ensures And(x, 1) == x % 2
  {
    assert Pow2(1) == 2;
    AndLow(x, 1);
  }

  lemma OneLess(p: nat, h: nat)
    ensures p * h - p == p * (h - 1)
  {
  }

  lemma TopIsMultiple(p: nat, f: nat, k: nat)
    requires k < 32 && p == Pow2(k) < TWO_32 && f < p
    ensures (TWO_32 - p + f) % p == f
    ensures k >= 1 ==> (TWO_32 - p + f) % 2 == f % 2
  {
    hide Pow2;
    Pow2Of32();
    Pow2Add(k, 32 - k);
    var h := Pow2(32 - k);
    OneLess(p, h);
    Remainder(TWO_32 - p + f, p, h - 1, f);
    if k >= 1 {
      ParityOfRemainder(TWO_32 - p + f, k);
    }
  }

  /** What the three reads return. */
  lemma RegisterValues(r: Reg, k: nat, io: bool)
    requires Decodes(r, k, io)
    ensures var p, f := Pow2(k), r.fixed % Pow2(k);
            && f < p && f <= r.value && r.value % p == f && And(r.value, r.writable) == r.value - f
            && r.Written(0) == f && r.Written(0xFFFF_FFFF) == TWO_32 - p + f
            && (f % 2 == 1 <==> io)
  {
    hide And, Pow2;
    var p := Pow2(k);
    assert Not(r.writable) == p - 1;
    AndLow(r.fixed, k);
    AndLow(r.value, k);
    AndHigh(r.value, k);
    AndOnes(r.writable);
    AndZero(r.writable);
    ParityOfRemainder(r.fixed, k);
  }

  lemma AndZero(w: nat)
    ensures And(0, w) == 0
  {
  }

  lemma ParityOfRemainder(x: nat, k: nat)
    requires k >= 1
    ensures (x % Pow2(k)) % 2 == x % 2
  {
    hide Pow2;
    ModHalf(x, k);
    var h, r := (x / 2) % Pow2(k - 1), x % Pow2(k);
    assert r == 2 * h + x % 2;
  }

  lemma MultipleOf(x: nat, p: nat)
    requires p > 0
    ensures (x - x % p) % p == 0
  {
    assert x == p * (x / p) + x % p;
    Remainder(x - x % p, p, x / p, 0);
  }

  /** When the bits of x below 2^k fit below 2^j already, the remainders agree. */
  lemma {:induction false} LowBits(x: nat, k: nat, j: nat)
    requires j <= k && x % Pow2(k) < Pow2(j)
    ensures x % Pow2(j) == x % Pow2(k)
    decreases j
  {
    if j == 0 {
      assert x % 1 == 0;
    } else {
      ModHalf(x, k);
      ModHalf(x, j);
      LowBits(x / 2, k - 1, j - 1);
    }
  }

  function Measured(r: Reg): Bar { Decode(r.value, r.Written(0), r.Written(0xFFFF_FFFF)) }

  /** The table from entry `bar` on: a 64-bit register takes its upper half from the next one, whose own entry stays
      empty. */
  function Table(cfg: seq<Reg>, bar: nat): (t: seq<Bar>)
    requires |cfg| == 6 && bar <= 6
    ensures |t| == 6 - bar
    decreases 6 - bar
  {
    if bar == 6 then []
    else
      var b := Measured(cfg[bar]);
      if b.Present? && b.kind == TYPE_64BIT && bar + 1 < 6
      then [b.(upper := cfg[bar + 1].value), Absent] + Table(cfg, bar + 2)
      else [b] + Table(cfg, bar + 1)
  }

  lemma TableStep(cfg: seq<Reg>, bar: nat)
    requires |cfg| == 6 && bar < 6
    ensures var b := Measured(cfg[bar]);
            if b.Present? && b.kind == TYPE_64BIT && bar + 1 < 6
            then Table(cfg, bar) == [b.(upper := cfg[bar + 1].value), Absent] + Table(cfg, bar + 2)
            else Table(cfg, bar) == [b] + Table(cfg, bar + 1)
  {
  }

  /** A register that is not there, or one of a window that is not 64-bit. */
  ghost predicate Narrow(r: Reg)
  {
    || r == Reg(0, 0, 0)
    || exists k, io :: Decodes(r, k, io) && (io || (r.fixed / 2) % 4 != 2)
  }

  /** Register `bar` is the low half of a 64-bit memory window of 2^k bytes, and the first such one. */
  ghost predicate Wide(cfg: seq<Reg>, bar: nat, k: nat)
  {
    && bar + 1 < |cfg| && Decodes(cfg[bar], k, false) && (cfg[bar].fixed / 2) % 4 == 2
    && forall i :: 0 <= i < bar ==> Narrow(cfg[i])
  }

  /** The entries of a 64-bit window: its start in two halves, the end in the low half, and no entry of its own for the
      register that holds the high half. */
  ghost predicate WideEntry(cfg: seq<Reg>, bars: seq<Bar>, bar: nat, k: nat)
  {
    && bar + 1 < |cfg| == |bars|
    && var start := And(cfg[bar].value, cfg[bar].writable);
       && bars[bar] == Present(false, 2, start, cfg[bar + 1].value, start + Pow2(k) - 1)
       && bars[bar + 1] == Absent
  }

  lemma NarrowMeasured(r: Reg)
    requires Narrow(r)
    ensures Measured(r).Present? ==> Measured(r).kind != TYPE_64BIT
  {
    hide And, Pow2, Decode, Decodes, Measured;
    if r == Reg(0, 0, 0) {
      UnusedIsAbsent();
    } else {
      var k, io :| Decodes(r, k, io) && (io || (r.fixed / 2) % 4 != 2);
      MeasuredKind(r, k, io);
    }
  }

  /** A register that reads 0 whatever is written is no window. */
  lemma UnusedIsAbsent()
    ensures Measured(Reg(0, 0, 0)) == Absent
  {
    hide And;
    var r := Reg(0, 0, 0);
    AndZero(0);
    AndZero(Not(0));
    AndOnes(0);
  }

  lemma MeasuredKind(r: Reg, k: nat, io: bool)
    requires Decodes(r, k, io)
    ensures Measured(r).Present? && Measured(r).kind == (if io then 0 else (r.fixed / 2) % 4)
  {
    hide And, Pow2, Decode, Decodes;
    ProbeMeasures(r, k, io);
  }

  /** The table, slot by slot, up to the first 64-bit window. */
  lemma {:induction false} WideIsTaken(cfg: seq<Reg>, from: nat, bar: nat, k: nat)
    requires |cfg| == 6 && from <= bar && Wide(cfg, bar, k)
    ensures WideEntry(cfg, seq(from, _ => Absent) + Table(cfg, from), bar, k)
    decreases bar - from
  {
    hide Decode, Measured, Table, And, Pow2, Decodes, Narrow;
    TableStep(cfg, from);
    if from == bar {
      WideMeasured(cfg[bar], k);
    } else {
      NarrowMeasured(cfg[from]);
      WideIsTaken(cfg, from + 1, bar, k);
    }
  }

  lemma WideMeasured(r: Reg, k: nat)
    requires Decodes(r, k, false) && (r.fixed / 2) % 4 == 2
    ensures var start := And(r.value, r.writable); Measured(r) == Present(false, 2, start, 0, start + Pow2(k) - 1)
  {
    hide And, Pow2, Decode, Decodes;
    ProbeMeasures(r, k, false);
  }

  lemma Regroup(a: seq<Bar>, b: seq<Bar>, c: seq<Bar>)
    ensures (a + b) + c == a + (b + c)
  {
  }

  /** The loop over the six registers, which steps by one, or by two after a 64-bit register. Configuration space ends
      as it was. */
  method ProbeBars(cfg: array<Reg>) returns (bars: array<Bar>)
    requires cfg.Length == 6 && forall i :: 0 <= i < 6 ==> cfg[i].Valid()
    modifies cfg
    ensures cfg[..] == old(cfg[..])
    ensures fresh(bars) && bars[..] == Table(old(cfg[..]), 0)
    ensures forall bar, k :: Wide(old(cfg[..]), bar, k) ==> WideEntry(old(cfg[..]), bars[..], bar, k)
  {
    hide Decode, And, Table, Measured, Wide, WideEntry;
    bars := new Bar[6](_ => Absent);
    ghost var c := cfg[..];
    var bar := 0;
    assert bars[..bar] + Table(c, bar) == Table(c, 0);
    while bar < 6
      invariant 0 <= bar <= 6 && cfg[..] == c
      invariant forall i :: bar <= i < 6 ==> bars[i].Absent?
      invariant bars[..bar] + Table(c, bar) == Table(c, 0)
      decreases 6 - bar
    {
      var reg := bar;
      TableStep(c, reg);
      var b := ProbeOne(cfg, reg);
      bar := bar + 1;
      ghost var done := bars[..reg];
      if b.Present? {
        if b.kind == TYPE_64BIT && bar < 6 {
          b := b.(upper := cfg[reg + 1].value);
          bar := bar + 1;
        }
        bars[reg] := b;
      }
      assert bars[..bar] == done + bars[reg..bar];
      assert bars[reg..bar] == if bar == reg + 1 then [b] else [b, Absent];
      Regroup(done, bars[reg..bar], Table(c, bar));
    }
    forall b, k | Wide(c, b, k)
      ensures WideEntry(c, bars[..], b, k)
    {
      WideIsTaken(c, 0, b, k);
      assert seq(0, _ => Absent) + Table(c, 0) == bars[..];
    }
  }

  /** Write zeroes, write ones, write back. */
  method ProbeOne(cfg: array<Reg>, reg: nat) returns (b: Bar)
    requires reg < cfg.Length && cfg[reg].Valid()
    modifies cfg
    ensures cfg[..] == old(cfg[..]) && b == Measured(cfg[reg])
  {
    hide Decode, And;
    ghost var r := cfg[reg];
    WriteBackRestores(r, 0xFFFF_FFFF);
    var orig := cfg[reg].value;
    cfg[reg] := cfg[reg].Write(0x0000_0000);
    var min := cfg[reg].value;
    cfg[reg] := cfg[reg].Write(0xFFFF_FFFF);
    var max := cfg[reg].value;
    cfg[reg] := cfg[reg].Write(orig);
    assert cfg[reg] == r;
    b := Decode(orig, min, max);
  }
}
