/** Machine words, byte strings and the 32-bit address space shared by every part of the debugger. */
module Words {

  const TWO_16: nat := 0x1_0000
  const TWO_32: nat := 0x1_0000_0000
  const TWO_64: nat := 0x1_0000_0000_0000_0000

  type byte = x: int | 0 <= x < 0x100
  type bytes = seq<byte>
  type uint16 = x: int | 0 <= x < 0x1_0000
  type uint32 = x: int | 0 <= x < 0x1_0000_0000
  type uint64 = x: int | 0 <= x < 0x1_0000_0000_0000_0000

  datatype Option<+T> = None | Some(value: T)

  // ASCII codes the protocols give a meaning to.
  const LF: byte := 10
  const CR: byte := 13
  const ESC: byte := 27
  const SPACE: byte := 32

  /** Quotient and remainder are what they should be. */
  lemma Remainder(x: nat, m: nat, q: nat, r: nat)
    requires r < m && x == m * q + r
    ensures x % m == r && x / m == q
  {
    var q', r' := x / m, x % m;
    assert m * (q' - q) == r - r';
    assert q' - q >= 1 ==> m * (q' - q) >= m;
    assert q - q' >= 1 ==> m * (q - q') >= m;
  }

  /** The flat 32-bit address space. */
  type Memory = m: bytes | |m| == 0x1_0000_0000 ghost witness seq(0x1_0000_0000, _ => 0)

  /** How far address `a` lies above `base`, walking upward and wrapping at 4 GiB. */
  function Distance(base: nat, a: uint32): (d: uint32)
  {
    (a - base) % TWO_32
  }

  /** Memory after `memcpy((void*)base, data, |data|)`: an address is hit when it lies less than |data| above `base`. */
  function Store(m: Memory, base: nat, data: bytes): (m': Memory)
    requires |data| <= TWO_32
  {
    seq(TWO_32, a requires 0 <= a < TWO_32 =>
      if Distance(base, a) < |data| then data[Distance(base, a)] else m[a])
  }

  /** The bytes `memcpy(dst, (void*)base, n)` copies out. */
  function Load(m: Memory, base: nat, n: nat): (data: bytes)
    ensures |data| == n
  {
    seq(n, i requires 0 <= i < n => m[(base + i) % TWO_32])
  }

  lemma DistanceInverse(base: nat, i: nat)
    requires i < TWO_32
    ensures Distance(base, (base + i) % TWO_32) == i
  {
    var q := (base + i) / TWO_32;
    assert (base + i) % TWO_32 == base + i - TWO_32 * q;
    assert (i - TWO_32 * q) % TWO_32 == i;
  }

  /** What was stored is what a load at the same place returns, wrap-around included. */
  lemma LoadStore(m: Memory, base: nat, data: bytes)
    requires |data| <= TWO_32
    ensures Load(Store(m, base, data), base, |data|) == data
  {
    hide Store;
    forall i | 0 <= i < |data|
      ensures Load(Store(m, base, data), base, |data|)[i] == data[i]
    {
      StoreAt(m, base, data, i);
    }
  }

  lemma StoreAt(m: Memory, base: nat, data: bytes, i: nat)
    requires i < |data| <= TWO_32
    ensures Store(m, base, data)[(base + i) % TWO_32] == data[i]
  {
    DistanceInverse(base, i);
  }

  /** Without wrap-around a store is a plain splice. */
  lemma StoreIsSplice(m: Memory, base: nat, data: bytes)
    requires base + |data| <= TWO_32
    ensures Store(m, base, data) == m[..base] + data + m[base + |data|..]
  {
    var s := Store(m, base, data);
    var t := m[..base] + data + m[base + |data|..];
    forall a | 0 <= a < TWO_32
      ensures s[a] == t[a]
    {
      if a >= base {
        DistanceInverse(base, a - base);
      } else {
        assert (a - base) % TWO_32 == a - base + TWO_32;
      }
    }
  }

  lemma StoreSnoc(m: Memory, base: nat, data: bytes, b: byte)
    requires |data| < TWO_32
    ensures Store(m, base, data + [b]) == Store(m, base, data)[(base + |data|) % TWO_32 := b]
  {
    var k := (base + |data|) % TWO_32;
    var l, r := Store(m, base, data + [b]), Store(m, base, data)[k := b];
    forall a | 0 <= a < TWO_32
      ensures l[a] == r[a]
    {
      DistanceInverse(base, |data|);
      if Distance(base, a) == |data| {
        DistanceInjective(base, a, k);
      }
    }
  }

  lemma DistanceInjective(base: nat, a: uint32, b: uint32)
    requires Distance(base, a) == Distance(base, b)
    ensures a == b
  {
    var q, r := (a - base) / TWO_32, (b - base) / TWO_32;
    assert a - base == TWO_32 * q + Distance(base, a);
    assert b - base == TWO_32 * r + Distance(base, b);
  }
}
