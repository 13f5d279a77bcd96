/** The PCnet32 transmit ring, shared with a NIC that sends while the driver fills the next buffer. */
module TxRing {
  import opened Words
  import opened RingSlots

  datatype TxDesc = TxDesc(length: uint16, status: bv16)
  {
    predicate NicOwns() { status & 0x8000 != 0 }

    /** STP and ENP, start and end of packet, bits 9 and 8. */
    predicate WholePacket() { status & 0x0200 == 0x0200 && status & 0x0100 == 0x0100 }

    /** The byte count the chip takes from the low 12 bits, which hold it negated. */
    function Count(): nat { (4096 - length % 4096) % 4096 }
  }

  const MAX_SEND: nat := 1586   // 1600 - 14

  /** tx->length = -(sz + 14), kept in 16 bits. */
  function NegatedLength(sz: int): uint16 { (0 - (sz + 14)) % 65536 }

  /** Among the sizes prepare_send_packet accepts, the stored length decodes to sz + 14 exactly when that is a length at
      all; a negative one is accepted too and decodes to something else. */
  lemma LengthDecodes(sz: int)
    requires sz <= MAX_SEND
    ensures TxDesc(NegatedLength(sz), 0).Count() == sz + 14 <==> sz + 14 >= 0
  {
    if sz + 14 > 0 {
      assert NegatedLength(sz) == 65536 - (sz + 14);
      assert (65536 - (sz + 14)) % 4096 == 4096 - (sz + 14);
    }
  }

  /** Where the driver is: no packet under way; inside prepare_send_packet (waiting for the descriptor, then one store
      after another); the caller filling the payload; inside send_packet's wrap-around. */
  datatype Pc = Idle | Waiting(sz: int, hdr: bytes) | Claimed(sz: int, hdr: bytes) | Sized(sz: int, hdr: bytes) |
                HeaderNext(sz: int, hdr: bytes) | Filling(sz: int, hdr: bytes) | Advance

  datatype Tx = Tx(
    ring: seq<TxDesc>, bufs: seq<bytes>, off: nat, pc: Pc,   // shared memory and the driver
    nic: nat, partial: bytes,                                // the NIC: its position, the bytes of the frame sent so far
    sent: seq<bytes>, wire: seq<bytes>)                      // history: frames completed by send_packet, frames on the wire
  {
    function N(): nat { |ring| }
  }

  datatype Step =
    | Prepare(sz: int, hdr: bytes)   // a call of prepare_send_packet
    | Driver                         // the next load or store inside it, or the end of send_packet
    | Payload(i: nat, b: byte)       // the caller stores a payload byte
    | Send                           // send_packet gives the descriptor away
    | NicByte                        // the NIC fetches and sends one more byte
    | NicDone                        // the NIC has sent the last byte and gives the descriptor back

  ghost predicate Enabled(s: Tx, e: Step)
  {
    && s.off < s.N() == |s.bufs| && s.nic < s.N()
    && match e
       case Prepare(sz, hdr) => (s.pc.Idle? || s.pc.Filling?) && |hdr| == 14
       case Driver => !s.pc.Idle? && !s.pc.Filling? && |s.bufs[s.off]| == 1600 &&
                      (s.pc.HeaderNext? ==> |s.pc.hdr| == 14)
       case Payload(i, _) => s.pc.Filling? && i < s.pc.sz && 14 + i < |s.bufs[s.off]|
       case Send => s.pc.Filling? && 0 <= s.pc.sz + 14 <= |s.bufs[s.off]|
       case NicByte => s.ring[s.nic].NicOwns() && |s.partial| < s.ring[s.nic].Count() <= |s.bufs[s.nic]|
       case NicDone => s.ring[s.nic].NicOwns() && |s.partial| == s.ring[s.nic].Count()
  }

  ghost function Apply(s: Tx, e: Step): Tx
    requires Enabled(s, e)
  {
    match e
    case Prepare(sz, hdr) => if sz > MAX_SEND then s else s.(pc := Waiting(sz, hdr))
    case Driver =>
      (match s.pc
       case Waiting(sz, hdr) => if s.ring[s.off].NicOwns() then s else s.(pc := Claimed(sz, hdr))
       case Claimed(sz, hdr) => s.(pc := Sized(sz, hdr), ring := s.ring[s.off := s.ring[s.off].(status := 0)])
       case Sized(sz, hdr) =>
         s.(pc := HeaderNext(sz, hdr), ring := s.ring[s.off := s.ring[s.off].(length := NegatedLength(sz))])
       case HeaderNext(sz, hdr) => s.(pc := Filling(sz, hdr), bufs := s.bufs[s.off := hdr + s.bufs[s.off][14..]])
       case Advance => s.(pc := Idle, off := Next(s.off, s.N()))
       case _ => s)
    case Payload(i, b) =>
      var filled: bytes := s.bufs[s.off][14 + i := b];
      s.(bufs := s.bufs[s.off := filled])
    case Send =>
      s.(pc := Advance,
         ring := s.ring[s.off := s.ring[s.off].(status := 0x8300)],   // OWN, STP, ENP
         sent := s.sent + [s.bufs[s.off][..s.pc.sz + 14]])
    case NicByte => s.(partial := s.partial + [s.bufs[s.nic][|s.partial|]])
    case NicDone =>
      s.(ring := s.ring[s.nic := s.ring[s.nic].(status := s.ring[s.nic].status & 0x7FFF)],
         nic := Next(s.nic, s.N()), wire := s.wire + [s.partial], partial := [])
  }

  predicate Init(s: Tx)
  {
    && 0 < s.N() == |s.bufs| && s.off == s.nic == 0 && s.pc.Idle? && s.partial == [] && s.sent == [] && s.wire == []
    && (forall i :: 0 <= i < s.N() ==> !s.ring[i].NicOwns())
    && (forall i :: 0 <= i < s.N() ==> |s.bufs[i]| == 1600)
  }

  ghost predicate Counters(s: Tx)
  {
    && 0 < s.N() == |s.bufs|
    && |s.wire| <= |s.sent| <= |s.wire| + s.N()
    && s.nic == Slot(|s.wire|, s.N())
    && (s.pc.Advance? ==> |s.sent| >= 1 && s.off == Slot(|s.sent| - 1, s.N()))
    && (!s.pc.Advance? ==> s.off == Slot(|s.sent|, s.N()))
    && (forall i :: 0 <= i < s.N() ==> |s.bufs[i]| == 1600)
  }

  /** Frame k waits for the NIC: its descriptor is the NIC's and its buffer holds the frame as it was sent. */
  ghost predicate Queued(s: Tx, k: nat)
    requires 0 < s.N() == |s.bufs| && k < |s.sent|
  {
    var i := Slot(k, s.N());
    && s.ring[i].NicOwns() && s.ring[i].WholePacket()
    && s.ring[i].Count() == |s.sent[k]| <= |s.bufs[i]|
    && s.bufs[i][..|s.sent[k]|] == s.sent[k]
  }

  ghost predicate PcOk(s: Tx)
    requires s.off < |s.bufs| == |s.ring|
  {
    match s.pc
    case Waiting(sz, hdr) => sz <= MAX_SEND && |hdr| == 14
    case Claimed(sz, hdr) => sz <= MAX_SEND && |hdr| == 14 && |s.sent| < |s.wire| + s.N()
    case Sized(sz, hdr) => sz <= MAX_SEND && |hdr| == 14 && |s.sent| < |s.wire| + s.N()
    case HeaderNext(sz, hdr) =>
      sz <= MAX_SEND && |hdr| == 14 && |s.sent| < |s.wire| + s.N() && s.ring[s.off].length == NegatedLength(sz)
    case Filling(sz, hdr) =>
      && sz <= MAX_SEND && |hdr| == 14 && |s.sent| < |s.wire| + s.N() && s.ring[s.off].length == NegatedLength(sz)
      && 14 <= |s.bufs[s.off]| && s.bufs[s.off][..14] == hdr
    case _ => true
  }

  ghost predicate Inv(s: Tx)
  {
    && Counters(s)
    && (forall k :: |s.wire| <= k < |s.sent| ==> Queued(s, k))
    && (forall k :: |s.sent| <= k < |s.wire| + s.N() ==> !s.ring[Slot(k, s.N())].NicOwns())
    && s.wire == s.sent[..|s.wire|]
    && (if |s.wire| < |s.sent| then |s.partial| <= |s.sent[|s.wire|]| && s.partial == s.sent[|s.wire|][..|s.partial|]
        else s.partial == [])
    && PcOk(s)
  }

  lemma InitInv(s: Tx)
    requires Init(s)
    ensures Inv(s)
  {
    forall k | 0 <= k < s.N()
      ensures Slot(k, s.N()) == k
    {
      Remainder(k, s.N(), 0, k);
    }
  }

  // ---------- every step keeps the invariant ----------

  lemma StatusBits(x: bv16)
    ensures (x & 0x7FFF) & 0x8000 == 0
  {
  }

  /** Once the driver sees a clear OWN bit at its offset, the ring has room, and the slot is not in the NIC's window. */
  lemma RoomAtOffset(s: Tx)
    requires Inv(s) && !s.pc.Advance? && !s.ring[s.off].NicOwns()
    ensures |s.sent| < |s.wire| + s.N()
  {
    SlotLap(|s.wire|, s.N());
    assert |s.wire| < |s.sent| ==> Queued(s, |s.wire|);
  }

  lemma OthersElsewhere(s: Tx)
    requires Counters(s) && !s.pc.Advance?
    requires |s.sent| < |s.wire| + s.N()
    ensures forall k :: |s.wire| <= k < |s.wire| + s.N() && k != |s.sent| ==> Slot(k, s.N()) != s.off
  {
    forall k | |s.wire| <= k < |s.wire| + s.N() && k != |s.sent|
      ensures Slot(k, s.N()) != s.off
    {
      if k < |s.sent| { SlotsDiffer(k, |s.sent|, s.N()); } else { SlotsDiffer(|s.sent|, k, s.N()); }
    }
  }

  lemma DriverKeepsInv(s: Tx, e: Step)
    requires Inv(s) && Enabled(s, e) && (e.Prepare? || e.Driver? || e.Payload?)
    ensures Inv(Apply(s, e))
  {
    hide Slot;
    var s' := Apply(s, e);
    if s.pc.Advance? {
      NextSlot(|s.sent| - 1, s.N());
    } else if s.pc.Waiting? && e.Driver? {
      if !s.ring[s.off].NicOwns() { RoomAtOffset(s); }
    } else if !e.Prepare? {
      OthersElsewhere(s);
    }
    forall k | |s.wire| <= k < |s.sent|
      ensures Queued(s', k)
    {
      assert Queued(s, k);
    }
  }

  lemma SendKeepsInv(s: Tx)
    requires Inv(s) && Enabled(s, Send)
    ensures Inv(Apply(s, Send))
  {
    hide Slot;
    var s' := Apply(s, Send);
    var n, k0 := s.N(), |s.sent|;
    OthersElsewhere(s);
    LengthDecodes(s.pc.sz);
    forall k | |s.wire| <= k < |s'.sent|
      ensures Queued(s', k)
    {
      if k < k0 { assert Queued(s, k); }
    }
  }

  lemma NicKeepsInv(s: Tx, e: Step)
    requires Inv(s) && Enabled(s, e) && (e.NicByte? || e.NicDone?)
    ensures Inv(Apply(s, e))
  {
    hide Slot;
    var s' := Apply(s, e);
    var n, w := s.N(), |s.wire|;
    assert w < |s.sent|;
    assert Queued(s, w);
    if e.NicByte? {
      forall k | w <= k < |s.sent| ensures Queued(s', k) { assert Queued(s, k); }
      assert s.sent[w][..|s.partial| + 1] == s.sent[w][..|s.partial|] + [s.sent[w][|s.partial|]];
      assert s.bufs[s.nic][..|s.sent[w]|][|s.partial|] == s.bufs[s.nic][|s.partial|];
    } else {
      StatusBits(s.ring[s.nic].status);
      NextSlot(w, n);
      SlotLap(w, n);
      forall k | w < k < w + n ensures Slot(k, n) != s.nic { SlotsDiffer(w, k, n); }
      forall k | w < k < |s.sent| ensures Queued(s', k) { assert Queued(s, k); }
      assert s.sent[..w + 1] == s.sent[..w] + [s.sent[w]];
      assert s.sent[w][..|s.sent[w]|] == s.sent[w];
    }
  }

  // ---------- safety over every interleaving ----------

  ghost predicate Runnable(s: Tx, es: seq<Step>)
    decreases |es|
  {
    es == [] || (Enabled(s, es[0]) && Runnable(Apply(s, es[0]), es[1..]))
  }

  ghost function RunSteps(s: Tx, es: seq<Step>): Tx
    requires Runnable(s, es)
    decreases |es|
  {
    if es == [] then s else RunSteps(Apply(s, es[0]), es[1..])
  }

  lemma {:induction false} EveryRunKeepsInv(s: Tx, es: seq<Step>)
    requires Inv(s) && Runnable(s, es)
    ensures Inv(RunSteps(s, es))
    decreases |es|
  {
    hide Inv, Enabled, Apply;
    if es != [] {
      match es[0] {
        case Send => SendKeepsInv(s);
        case NicByte => NicKeepsInv(s, es[0]);
        case NicDone => NicKeepsInv(s, es[0]);
        case _ => DriverKeepsInv(s, es[0]);
      }
      EveryRunKeepsInv(Apply(s, es[0]), es[1..]);
    }
  }

  /** In every reachable state the wire carries exactly the frames completed by prepare and then send, in order and
      whole, and what the NIC has fetched of the next one is a prefix of it. */
  lemma WireIsWhatWasSent(s0: Tx, es: seq<Step>)
    requires Init(s0) && Runnable(s0, es)
    ensures var s := RunSteps(s0, es);
            && |s.wire| <= |s.sent| && s.wire == s.sent[..|s.wire|]
            && (|s.wire| < |s.sent| ==> s.partial <= s.sent[|s.wire|])
  {
    InitInv(s0);
    EveryRunKeepsInv(s0, es);
  }

  /** In every reachable state the NIC owns one cyclic window of descriptors that ends where the driver stands. */
  lemma OwnershipWindow(s0: Tx, es: seq<Step>, i: nat)
    requires Init(s0) && Runnable(s0, es) && i < RunSteps(s0, es).N()
    ensures var s := RunSteps(s0, es);
            && (s.ring[i].NicOwns() <==> exists k :: |s.wire| <= k < |s.sent| && Slot(k, s.N()) == i)
            && (s.ring[i].NicOwns() ==> s.ring[i].WholePacket())
            && (!s.pc.Advance? ==> s.off == Slot(|s.sent|, s.N()))
  {
    InitInv(s0);
    EveryRunKeepsInv(s0, es);
    var s := RunSteps(s0, es);
    var k := SlotOf(i, |s.wire|, s.N());
    if k < |s.sent| {
      assert Queued(s, k);
    } else {
      forall j | |s.wire| <= j < |s.sent| ensures Slot(j, s.N()) != i { SlotsDiffer(j, k, s.N()); }
    }
  }

  /** In every reachable state a packet being filled keeps the header it was prepared with, and send queues it whole:
      14 header bytes, then sz payload bytes (of the header only 14 + sz bytes when sz is negative). */
  lemma SendQueuesPreparedFrame(s0: Tx, es: seq<Step>)
    requires Init(s0) && Runnable(s0, es)
    requires Enabled(RunSteps(s0, es), Send)
    ensures var s := RunSteps(s0, es);
            var s' := Apply(s, Send);
            && |s'.sent| == |s.sent| + 1
            && var f := s'.sent[|s.sent|];
               && |f| == s.pc.sz + 14
               && (s.pc.sz < 0 ==> f <= s.pc.hdr)
               && (s.pc.sz >= 0 ==> f == s.pc.hdr + s.bufs[s.off][14..14 + s.pc.sz])
  {
    InitInv(s0);
    EveryRunKeepsInv(s0, es);
    var s := RunSteps(s0, es);
    var b := s.bufs[s.off];
    if s.pc.sz >= 0 {
      assert b[..s.pc.sz + 14] == b[..14] + b[14..14 + s.pc.sz];
    } else {
      assert b[..s.pc.sz + 14] == b[..14][..s.pc.sz + 14];
    }
  }

  // ---------- the driver functions on the descriptor array ----------

  /** What one pass through prepare_send_packet finds: too large, still with the NIC (the busy-wait goes round again),
      or a buffer to fill. */
  datatype Outcome = TooLarge | Busy | Ready

  class Driver {
    const ring: array<TxDesc>
    const bufs: array<bytes>
    var offset: nat
    ghost var s: Tx

    ghost predicate Valid()
      reads this, ring, bufs
    {
      && ring as object != bufs
      && Inv(s) && s.ring == ring[..] && s.bufs == bufs[..] && s.off == offset
    }

    /** The transmit half of pcnet32_init. */
    constructor (n: nat)
      requires n > 0
      ensures Valid() && Init(s) && ring.Length == n && fresh(ring) && fresh(bufs)
    {
      var r := new TxDesc[n](_ => TxDesc(0, 0));
      var b: array<bytes> := new bytes[n](_ => seq(1600, _ => 0));
      for i := 0 to n
        invariant forall k :: 0 <= k < n ==> !r[k].NicOwns()
        modifies r
      {
        r[i] := TxDesc(0xFFFF, 0);
      }
      ring, bufs, offset := r, b, 0;
      s := Tx(r[..], b[..], 0, Idle, 0, [], [], []);
      new;
      InitInv(s);
    }

    /** prepare_send_packet: on Ready the header is in place, the length stored, and nothing the NIC owns was touched. */
    method PrepareSendPacket(sz: int, hdr: bytes) returns (r: Outcome)
      requires Valid() && (s.pc.Idle? || s.pc.Filling?) && |hdr| == 14
      modifies ring, bufs, `s
      ensures Valid() && s.sent == old(s.sent) && s.wire == old(s.wire) && s.nic == old(s.nic) && s.off == old(s.off)
      ensures r.TooLarge? <==> 14 + sz > 1600
      ensures r.Busy? <==> 14 + sz <= 1600 && old(ring[offset].NicOwns())
      ensures r.Ready? ==> s.pc == Filling(sz, hdr) && (ring[offset].Count() == sz + 14 <==> sz + 14 >= 0)
      ensures r.Ready? ==> bufs[offset] == hdr + old(bufs[offset])[14..]
      ensures !r.Ready? ==> ring[..] == old(ring[..]) && bufs[..] == old(bufs[..])
      ensures forall i :: 0 <= i < ring.Length && i != offset ==> ring[i] == old(ring[i]) && bufs[i] == old(bufs[i])
    {
      assert s.off < s.N() == |s.bufs|;
      hide Inv, NegatedLength;
      if sz > MAX_SEND { return TooLarge; }
      if ring[offset].NicOwns() { return Busy; }
      PrepareRun(s, sz, hdr);
      LengthDecodes(sz);
      ring[offset] := ring[offset].(status := 0);
      ring[offset] := ring[offset].(length := NegatedLength(sz));
      bufs[offset] := hdr + bufs[offset][14..];
      s := Prepared(s, sz, hdr);
      r := Ready;
    }

    /** send_packet: the frame, of a length there is, is queued for the NIC and the driver moves on. */
    method SendPacket()
      requires Valid() && s.pc.Filling? && s.pc.sz + 14 >= 0
      modifies ring, `offset, `s
      ensures Valid() && s.pc.Idle? && offset == Next(old(offset), ring.Length)
      ensures s.sent == old(s.sent) + [old(bufs[offset][..s.pc.sz + 14])] && s.wire == old(s.wire)
      ensures ring[old(offset)].NicOwns()
      ensures forall i :: 0 <= i < ring.Length && i != old(offset) ==> ring[i] == old(ring[i])
    {
      SendKeepsInv(s);
      s := Apply(s, Send);
      ring[offset] := ring[offset].(status := 0x8300);
      s := StepTo(s, Step.Driver);
      offset := offset + 1;
      if offset >= ring.Length { offset := 0; }
    }
  }

  /** The state in which prepare_send_packet returns. */
  ghost function Prepared(s: Tx, sz: int, hdr: bytes): Tx
    requires s.off < s.N() == |s.bufs| && 14 <= |s.bufs[s.off]|
  {
    s.(pc := Filling(sz, hdr), ring := s.ring[s.off := TxDesc(NegatedLength(sz), 0)],
       bufs := s.bufs[s.off := hdr + s.bufs[s.off][14..]])
  }

  /** prepare_send_packet is five steps: the call, the look at OWN, and three stores. */
  lemma PrepareRun(s: Tx, sz: int, hdr: bytes)
    requires Inv(s) && (s.pc.Idle? || s.pc.Filling?) && sz <= MAX_SEND && |hdr| == 14
    requires s.off < s.N() && !s.ring[s.off].NicOwns()
    ensures s.off < |s.bufs| == s.N() && |s.bufs[s.off]| == 1600
    ensures var es := [Prepare(sz, hdr), Step.Driver, Step.Driver, Step.Driver, Step.Driver];
            Runnable(s, es) && RunSteps(s, es) == Prepared(s, sz, hdr)
    ensures Inv(Prepared(s, sz, hdr))
  {
    hide NegatedLength;
    var D := Step.Driver;
    var es := [Prepare(sz, hdr), D, D, D, D];
    var s1 := Apply(s, es[0]);
    var s2 := Apply(s1, D);
    var s3 := Apply(s2, D);
    var s4 := Apply(s3, D);
    var s5 := Apply(s4, D);
    assert s5 == Prepared(s, sz, hdr);
    assert es[1..] == [D, D, D, D] && [D, D, D, D][1..] == [D, D, D] && [D, D, D][1..] == [D, D] && [D, D][1..] == [D];
    assert Runnable(s5, []) && Runnable(s4, [D]) && RunSteps(s4, [D]) == s5;
    assert Runnable(s3, [D, D]) && RunSteps(s3, [D, D]) == s5;
    assert Runnable(s2, [D, D, D]) && RunSteps(s2, [D, D, D]) == s5;
    assert Runnable(s1, [D, D, D, D]) && RunSteps(s1, [D, D, D, D]) == s5;
    EveryRunKeepsInv(s, es);
  }

  /** The next state, with its invariant. */
  ghost function StepTo(s: Tx, e: Step): (s': Tx)
    requires Inv(s) && Enabled(s, e) && (e.Prepare? || e.Driver? || e.Payload?)
    ensures Inv(s') && s' == Apply(s, e)
  {
    DriverKeepsInv(s, e);
    Apply(s, e)
  }
}
