/** Bitwise "and" on unbounded naturals, and what masks with a power of two do. */
module Bits {
  import opened Words

  function Pow2(k: nat): (p: nat)
    ensures p >= 1
  {
    if k == 0 then 1 else 2 * Pow2(k - 1)
  }

  function And(x: nat, y: nat): (z: nat)
    ensures z <= x && z <= y
  {
    if x == 0 || y == 0 then 0 else 2 * And(x / 2, y / 2) + (if x % 2 == 1 && y % 2 == 1 then 1 else 0)
  }

  /** "Or": what two words share is not counted twice. */
  function Or(x: nat, y: nat): nat { x + y - And(x, y) }

  /** The 32-bit complement. */
  function Not(x: uint32): uint32 { TWO_32 - 1 - x }

  lemma Pow2Of32()
    ensures Pow2(32) == TWO_32
  {
    assert Pow2(4) == 16;
    assert Pow2(8) == 256;
    assert Pow2(12) == 4096;
    assert Pow2(16) == 65536;
    assert Pow2(20) == 16 * 65536;
    assert Pow2(24) == 256 * 65536;
    assert Pow2(28) == 4096 * 65536;
  }

  lemma {:induction false} Pow2Add(a: nat, b: nat)
    ensures Pow2(a + b) == Pow2(a) * Pow2(b)
  {
    if a > 0 {
      Pow2Add(a - 1, b);
      assert 2 * (Pow2(a - 1) * Pow2(b)) == Pow2(a) * Pow2(b);
    }
  }

  lemma {:induction false} Pow2Monotone(a: nat, b: nat)
    requires a <= b
    ensures Pow2(a) <= Pow2(b)
  {
    if a < b { Pow2Monotone(a, b - 1); }
  }

  /** Halving: the remainder by 2^k is the remainder of the half by 2^(k-1), with the low bit put back. */
  lemma ModHalf(x: nat, k: nat)
    requires k > 0
    ensures x % Pow2(k) == 2 * ((x / 2) % Pow2(k - 1)) + x % 2
  {
    var p := Pow2(k - 1);
    var h, b := x / 2, x % 2;
    var q, r := h / p, h % p;
    assert h == p * q + r;
    assert x == 2 * h + b;
    assert x == (2 * p) * q + (2 * r + b);
    Remainder(x, 2 * p, q, 2 * r + b);
  }

  /** x & (2^k - 1) is x mod 2^k. */
  lemma {:induction false} AndLow(x: nat, k: nat)
    ensures And(x, Pow2(k) - 1) == x % Pow2(k)
  {
    if k > 0 {
      var p := Pow2(k - 1);
      ModHalf(x, k);
      AndLow(x / 2, k - 1);
      AndStep(x, 2 * p - 1);
      hide And;
      assert (2 * p - 1) / 2 == p - 1 && (2 * p - 1) % 2 == 1;
    }
  }

  /** A word splits into its bits under a mask and its bits under the complement. */
  lemma {:induction false} AndSplit(x: nat, w: nat, n: nat)
    requires x < Pow2(n) && w < Pow2(n)
    ensures And(x, w) + And(x, Pow2(n) - 1 - w) == x
  {
    if n > 0 {
      var c := Pow2(n) - 1 - w;
      AndSplit(x / 2, w / 2, n - 1);
      assert c / 2 == Pow2(n - 1) - 1 - w / 2;
      assert c % 2 == 1 - w % 2;
      AndStep(x, w);
      AndStep(x, c);
    }
  }

  lemma AndStep(x: nat, y: nat)
    ensures And(x, y) == 2 * And(x / 2, y / 2) + (if x % 2 == 1 && y % 2 == 1 then 1 else 0)
  {
  }

  /** x & ~(2^k - 1) is x rounded down to a multiple of 2^k. */
  lemma AndHigh(x: uint32, k: nat)
    requires k <= 32
    ensures Pow2(k) <= TWO_32
    ensures And(x, TWO_32 - Pow2(k)) == x - x % Pow2(k)
  {
    Pow2Of32();
    Pow2Monotone(k, 32);
    AndSplit(x, Pow2(k) - 1, 32);
    AndLow(x, k);
  }

  /** "And" with all ones changes nothing. */
  lemma AndOnes(w: uint32)
    ensures And(TWO_32 - 1, w) == w
  {
    Pow2Of32();
    AndCommutes(TWO_32 - 1, w);
    AndLow(w, 32);
  }

  lemma AndCommutes(x: nat, y: nat)
    ensures And(x, y) == And(y, x)
  {
  }
}
