/** Cyclic indexing: descriptor k of an endless sequence lives in slot k mod n of a ring of n. */
module RingSlots {
  import opened Words

  function Slot(k: nat, n: nat): (i: nat)
    requires n > 0
    ensures i < n
  {
    k % n
  }

  /** The increment-and-wrap of the drivers walks from slot to slot. */
  function Next(i: nat, n: nat): nat
  {
    if i + 1 >= n then 0 else i + 1
  }

  lemma NextSlot(k: nat, n: nat)
    requires n > 0
    ensures Slot(k + 1, n) == Next(Slot(k, n), n)
  {
    var q, r := k / n, k % n;
    assert k == n * q + r;
    if r + 1 < n {
      Remainder(k + 1, n, q, r + 1);
    } else {
      assert k + 1 == n * (q + 1) + 0;
      Remainder(k + 1, n, q + 1, 0);
    }
  }

  /** Within one lap a slot is used once. */
  lemma SlotsDiffer(j: nat, k: nat, n: nat)
    requires n > 0 && j < k < j + n
    ensures Slot(j, n) != Slot(k, n)
  {
    var d := k / n - j / n;
    assert k - j == d * n + (k % n - j % n);
    assert d <= 0 ==> d * n <= 0;
    assert d >= 1 ==> d * n >= n;
  }

  lemma SlotLap(k: nat, n: nat)
    requires n > 0
    ensures Slot(k + n, n) == Slot(k, n)
  {
    var q, r := k / n, k % n;
    assert k + n == n * (q + 1) + r;
    Remainder(k + n, n, q + 1, r);
  }

  /** Every slot is the slot of exactly one k of any lap. */
  lemma SlotOf(i: nat, from: nat, n: nat) returns (k: nat)
    requires i < n
    ensures from <= k < from + n && Slot(k, n) == i
  {
    var q, r := from / n, from % n;
    assert from == n * q + r;
    if i >= r {
      k := n * q + i;
      Remainder(k, n, q, i);
    } else {
      k := n * (q + 1) + i;
      assert n * (q + 1) == n * q + n;
      Remainder(k, n, q + 1, i);
    }
  }
}
