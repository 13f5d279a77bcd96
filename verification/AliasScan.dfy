/** The memory-alias scans: how many address bits does the machine decode? */
module AliasScan {
  import opened Words
  import opened Bits

  const MAX_BITS: nat := 32    // max_basic_memory_address_bits of a 386 or better

  /** alias_base: a single address bit, or all bits from it up to bit 31. */
  datatype Probe = SingleBit | AllHighBits
  {
    function Address(k: nat): nat
      requires k < 32
    {
      Pow2Of32();
      Pow2Monotone(k, 32);
      if SingleBit? then Pow2(k) else TWO_32 - Pow2(k)
    }
  }

  /** A machine that ignores address bits b and up: 512 bytes read at a are those at a mod 2^b, and at every probed
      address that is not an alias of 0 they differ from those at 0. */
  ghost predicate Decodes(read: nat -> bytes, b: nat, probe: Probe)
  {
    && (forall a: nat :: read(a) == read(a % Pow2(b)))
    && (forall k :: 0 <= k < 32 && probe.Address(k) % Pow2(b) != 0 ==> read(probe.Address(k)) != read(0))
  }

  /** Bit k aliases address 0 exactly when the machine ignores it, for both forms of probe. */
  lemma AliasIffIgnored(probe: Probe, k: nat, b: nat)
    requires k < 32 && 1 <= b <= 32
    ensures probe.Address(k) % Pow2(b) == 0 <==> k >= b
  {
    hide Pow2;
    Pow2Of32();
    Pow2Monotone(k, 32);
    Pow2Add(b, 32 - b);
    var p, q, x := Pow2(b), Pow2(32 - b), Pow2(k);
    if k >= b {
      Pow2Add(b, k - b);
      Pow2Monotone(k - b, 32 - b);
      Difference(p, q, Pow2(k - b));
    } else {
      Below(k, b);
      TopRemainder(p, q, x);
      Remainder(x, p, 0, x);
    }
  }

  lemma Difference(p: nat, q: nat, r: nat)
    requires p > 0 && r <= q
    ensures p * q - p * r == p * (q - r) && (p * (q - r)) % p == 0 && (p * r) % p == 0
  {
    Multiple(p, q - r);
    Multiple(p, r);
  }

  lemma TopRemainder(p: nat, q: nat, x: nat)
    requires 0 < x < p && q >= 1
    ensures p * q - x >= 0 && (p * q - x) % p == p - x
  {
    assert p * q == p * (q - 1) + p;
    Remainder(p * q - x, p, q - 1, p - x);
  }

  lemma Multiple(p: nat, q: nat)
    requires p > 0
    ensures (p * q) % p == 0
  {
    Remainder(p * q, p, q, 0);
  }

  lemma Below(k: nat, b: nat)
    requires k < b
    ensures Pow2(k) < Pow2(b)
  {
    Pow2Monotone(k, b - 1);
  }

  lemma SameIffIgnored(read: nat -> bytes, b: nat, probe: Probe, k: nat)
    requires 1 <= b <= 32 && Decodes(read, b, probe) && k < 32
    ensures read(probe.Address(k)) == read(0) <==> k >= b
  {
    hide Pow2;
    AliasIffIgnored(probe, k, b);
    if k >= b {
      assert read(probe.Address(k)) == read(probe.Address(k) % Pow2(b)) == read(0);
    }
  }

  /** The downward scan finds the decoder width, as long as it is at least 22; below that it gives up and reports 32. */
  method ScanDown(read: nat -> bytes, probe: Probe, ghost b: nat) returns (maxBits: nat)
    requires 1 <= b <= 32 && Decodes(read, b, probe)
    ensures maxBits == if b >= 22 then b else MAX_BITS
  {
    hide Decodes, Pow2;
    var display := read(0);
    maxBits := MAX_BITS - 1;
    while true
      invariant 21 <= maxBits <= 31 && b <= maxBits + 1
      decreases maxBits
    {
      SameIffIgnored(read, b, probe, maxBits);
      var compare := read(probe.Address(maxBits));
      if compare != display {
        maxBits := maxBits + 1;
        return;
      }
      maxBits := maxBits - 1;
      if maxBits <= 20 {
        maxBits := MAX_BITS;
        return;
      }
    }
  }

  /** The upward scan finds it too, down to the bit it starts from. */
  method ScanUp(read: nat -> bytes, probe: Probe, ghost b: nat) returns (maxBits: nat)
    requires 1 <= b <= 32 && Decodes(read, b, probe)
    ensures maxBits == if b >= 21 then b else 21
  {
    hide Decodes, Pow2;
    var legrom := read(0);
    maxBits := 21;
    while true
      invariant 21 <= maxBits <= 31 && (maxBits == 21 || b >= maxBits)
      decreases 32 - maxBits
    {
      SameIffIgnored(read, b, probe, maxBits);
      var compare := read(probe.Address(maxBits));
      if compare == legrom { return; }
      maxBits := maxBits + 1;
      if maxBits >= 32 {
        maxBits := MAX_BITS;
        return;
      }
    }
  }
}
