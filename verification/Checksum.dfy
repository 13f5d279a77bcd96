/** The checksum loop of the IPv4, UDP and ICMP code against the arithmetic of RFC 1071. */
module Checksum {
  import opened Words

  /** The big-endian 16-bit word i of a packet: ntoh16(pkt16[i]). */
  function Word(p: bytes, i: nat): uint16
    requires 2 * i + 1 < |p|
  {
    (p[2 * i] as int) * 256 + p[2 * i + 1]
  }

  /** The plain sum of the first n words, word `skip` left out. */
  function WordSum(p: bytes, n: nat, skip: nat): nat
    requires 2 * n <= |p|
  {
    if n == 0 then 0 else WordSum(p, n - 1, skip) + (if n - 1 == skip then 0 else Word(p, n - 1))
  }

  /** A total reduced modulo 65535 into 1..65535; only a total of 0 stays 0. */
  function Reduce(total: nat): (r: uint16)
    ensures (r == 0 <==> total == 0) && r % 65535 == total % 65535
  {
    if total == 0 then 0 else (total - 1) % 65535 + 1
  }

  /** One round of the loop: add, add the carry back in, keep 16 bits. */
  function Round(acc: uint16, w: uint16): uint16
  {
    var t := acc + w;
    (t + t / 65536) % 65536
  }

  lemma RoundReduces(total: nat, w: uint16)
    ensures Round(Reduce(total), w) == Reduce(total + w)
  {
    var a := Reduce(total);
    RoundIs(a, w);
    if total > 0 && w > 0 {
      var q := ReduceParts(total);
      hide Reduce, Round;
      if a + w <= 65535 {
        ReduceUnique(total + w, q, a + w);
      } else {
        ReduceUnique(total + w, q + 1, a + w - 65535);
      }
    }
  }

  lemma RoundIs(a: uint16, w: uint16)
    ensures Round(a, w) == if a + w <= 65535 then a + w else a + w - 65535
  {
  }

  lemma ReduceParts(total: nat) returns (q: nat)
    requires total > 0
    ensures total == 65535 * q + Reduce(total) && 1 <= Reduce(total)
  {
    q := (total - 1) / 65535;
  }

  lemma ReduceUnique(t: nat, q: nat, r: nat)
    requires t == 65535 * q + r && 1 <= r <= 65535
    ensures Reduce(t) == r
  {
    assert t - 1 == 65535 * q + (r - 1);
  }

  /** The loop over words [0, n) of a packet, starting from an accumulator that stands for `before`. */
  method Accumulate(p: bytes, n: nat, skip: nat, start: uint16, ghost before: nat) returns (acc: uint16)
    requires 2 * n <= |p| && start == Reduce(before)
    ensures acc == Reduce(before + WordSum(p, n, skip))
  {
    acc := start;
    for i := 0 to n
      invariant acc == Reduce(before + WordSum(p, i, skip))
    {
      if i != skip {
        RoundReduces(before + WordSum(p, i, skip), Word(p, i));
        var wd := (p[2 * i] as int) * 256 + p[2 * i + 1];
        var chksum := acc + wd;
        chksum := chksum + chksum / 65536;
        acc := chksum % 65536;
      }
    }
  }

  // ---------- word order does not matter ----------

  function Total(ws: seq<uint16>): nat
  {
    if ws == [] then 0 else ws[0] + Total(ws[1..])
  }

  /** The loop as a fold over words. */
  function Folded(acc: uint16, ws: seq<uint16>): uint16
    decreases |ws|
  {
    if ws == [] then acc else Folded(Round(acc, ws[0]), ws[1..])
  }

  lemma {:induction false} FoldedReduces(before: nat, ws: seq<uint16>)
    ensures Folded(Reduce(before), ws) == Reduce(before + Total(ws))
    decreases |ws|
  {
    if ws != [] {
      RoundReduces(before, ws[0]);
      FoldedReduces(before + ws[0], ws[1..]);
    }
  }

  lemma {:induction false} TotalRemove(ws: seq<uint16>, i: nat)
    requires i < |ws|
    ensures Total(ws) == ws[i] + Total(ws[..i] + ws[i + 1..])
  {
    if i == 0 {
      assert ws[..0] + ws[1..] == ws[1..];
    } else {
      TotalRemove(ws[1..], i - 1);
      var rest := ws[..i] + ws[i + 1..];
      assert rest[1..] == ws[1..][..i - 1] + ws[1..][i..];
      assert ws[i + 1..] == ws[1..][i..];
    }
  }

  lemma MultisetRemove(vs: seq<uint16>, ws: seq<uint16>, i: nat)
    requires vs != [] && multiset(vs) == multiset(ws) && i < |ws| && ws[i] == vs[0]
    ensures multiset(vs[1..]) == multiset(ws[..i] + ws[i + 1..])
  {
    assert ws == ws[..i] + [ws[i]] + ws[i + 1..];
    assert vs == [vs[0]] + vs[1..];
    assert multiset(vs[1..]) == multiset(vs) - multiset{vs[0]};
    assert multiset(ws[..i] + ws[i + 1..]) == multiset(ws) - multiset{vs[0]};
  }

  lemma {:induction false} TotalOfMultiset(vs: seq<uint16>, ws: seq<uint16>)
    requires multiset(vs) == multiset(ws)
    ensures Total(vs) == Total(ws)
    decreases |vs|
  {
    if vs == [] {
      assert |ws| == |multiset(ws)| == 0;
    } else {
      assert vs[0] in multiset(ws);
      var i :| 0 <= i < |ws| && ws[i] == vs[0];
      MultisetRemove(vs, ws, i);
      TotalOfMultiset(vs[1..], ws[..i] + ws[i + 1..]);
      TotalRemove(ws, i);
    }
  }

  /** Any rearrangement of the words gives the same checksum. */
  lemma OrderDoesNotMatter(vs: seq<uint16>, ws: seq<uint16>)
    requires multiset(vs) == multiset(ws)
    ensures Folded(0, vs) == Folded(0, ws)
  {
    TotalOfMultiset(vs, ws);
    FoldedReduces(0, vs);
    FoldedReduces(0, ws);
  }

  // ---------- skip-and-compare against summing the field in ----------

  /** The test of the code: sum everything but the field, complement, compare. */
  predicate CompareTest(total: nat, field: uint16) { 65535 - Reduce(total) == field }

  /** The test of RFC 1071: sum everything, the field included, and expect all ones. */
  predicate Rfc1071Test(total: nat, field: uint16) { Reduce(total + field) == 65535 }

  /** The two agree except exactly when the computed checksum is 0 and the field is 0xFFFF. */
  lemma TestsAgree(total: nat, field: uint16)
    ensures CompareTest(total, field) ==> Rfc1071Test(total, field)
    ensures Rfc1071Test(total, field) && !CompareTest(total, field) <==> 65535 - Reduce(total) == 0 && field == 65535
  {
    RoundReduces(total, field);
  }

  /** For a header of n words with its checksum in word k: the code accepts it exactly when all its words, the checksum
      included, add up to all ones, save for that one exception. */
  lemma HeaderTestIsRfc1071(p: bytes, n: nat, k: nat)
    requires 2 * n <= |p| && k < n
    ensures CompareTest(WordSum(p, n, k), Word(p, k)) <==>
              Reduce(WordSum(p, n, n)) == 65535 && !(Reduce(WordSum(p, n, k)) == 65535 && Word(p, k) == 65535)
  {
    WordSumAll(p, n, k);
    TestsAgree(WordSum(p, n, k), Word(p, k));
  }

  lemma {:induction false} WordSumAll(p: bytes, n: nat, k: nat)
    requires 2 * n <= |p|
    ensures forall e :: e >= n ==> WordSum(p, n, e) == WordSum(p, n, n)
    ensures k < n ==> WordSum(p, n, n) == WordSum(p, n, k) + Word(p, k)
  {
    if n > 0 {
      WordSumAll(p, n - 1, k);
    }
  }

  // ---------- frame lemmas ----------

  /** The words of two buffers, the first of even length, one behind the other. */
  lemma {:induction false} WordSumConcat(a: bytes, b: bytes, n: nat)
    requires |a| % 2 == 0 && 2 * n <= |b|
    ensures var k := |a| / 2; WordSum(a + b, k + n, k + n) == WordSum(a, k, k) + WordSum(b, n, n)
    decreases n
  {
    var k := |a| / 2;
    if n == 0 {
      WordSumFrame(a + b, a, k, k);
    } else {
      WordSumConcat(a, b, n - 1);
      WordSumAll(a + b, k + n - 1, 0);
      WordSumAll(b, n - 1, 0);
      assert Word(a + b, k + n - 1) == Word(b, n - 1);
    }
  }

  lemma {:induction false} WordSumFrame(p: bytes, q: bytes, n: nat, skip: nat)
    requires 2 * n <= |p| && 2 * n <= |q|
    requires forall i :: 0 <= i < n && i != skip ==> Word(p, i) == Word(q, i)
    ensures WordSum(p, n, skip) == WordSum(q, n, skip)
  {
    if n > 0 {
      WordSumFrame(p, q, n - 1, skip);
    }
  }

  /** Changing one word changes the sum by the difference. */
  lemma {:induction false} WordSumChange(p: bytes, q: bytes, n: nat, skip: nat, k: nat)
    requires 2 * n <= |p| && 2 * n <= |q| && k < n && k != skip
    requires forall i :: 0 <= i < n && i != skip && i != k ==> Word(p, i) == Word(q, i)
    ensures WordSum(p, n, skip) - Word(p, k) == WordSum(q, n, skip) - Word(q, k)
  {
    if k == n - 1 {
      WordSumFrame(p, q, n - 1, skip);
    } else {
      WordSumChange(p, q, n - 1, skip, k);
    }
  }
}
