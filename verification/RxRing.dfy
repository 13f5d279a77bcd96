/** The receive rings of the PCnet32 and RTL8101 drivers, shared with a NIC that runs at the same time. Every load and
    store of shared memory is one step, so the runs below are all interleavings of driver and NIC. */
module RxRing {
  import opened Words
  import opened RingSlots

  /** A receive descriptor of either chip; `base` and `addr` are numbers of packet buffers. */
  datatype RxDesc =
    | Pcnet(base: nat, bufLength: bv16, status: bv16, msgLength: uint32, reserved: uint32)
    | Rtl(d1: bv32, d2: bv32, addr: nat)
  {
    predicate NicOwns() { if Pcnet? then status & 0x8000 != 0 else d1 & 0x8000_0000 != 0 }

    /** The packet buffer the NIC fills through this descriptor. */
    function Buffer(): nat { if Pcnet? then base else addr }

    /** The NIC goes back to the first descriptor after this one (the RTL8101 is told by a bit). */
    predicate EndOfRing(i: nat, n: nat) { if Pcnet? then i == n - 1 else d1 & 0x4000_0000 != 0 }

    predicate Error() { if Pcnet? then status & 0x7C80 != 0 else d1 & 0x0020_0000 != 0 }

    predicate First() { if Pcnet? then status & 0x0200 != 0 else d1 & 0x2000_0000 != 0 }

    predicate Last() { if Pcnet? then status & 0x0100 != 0 else d1 & 0x1000_0000 != 0 }

    /** The length of the frame, Ethernet header included. */
    function Length(): nat { if Pcnet? then msgLength else (d1 & 0x3FFF) as nat }
  }

  /** What get_packet makes of a descriptor it owns. */
  datatype Verdict = Discard | Whole | Runt

  function Classify(d: RxDesc): Verdict
  {
    if d.Error() then Discard
    else if d.First() && d.Last() then (if d.Length() >= 14 then Whole else Runt)
    else Discard
  }

  /** A frame the caller is owed, read off the bits the chips document. PCnet32: no ERR, FRAM, OFLO, CRC, BUFF or BPE
      (bits 14 to 10 and 7), start and end of packet (9 and 8). RTL8101: no RES (bit 21), first and last segment (29 and
      28). Either way at least an Ethernet header long. */
  predicate Owed(d: RxDesc)
  {
    match d
    case Pcnet(_, _, status, msgLength, _) =>
      && status & 0x4000 == 0 && status & 0x2000 == 0 && status & 0x1000 == 0
      && status & 0x0800 == 0 && status & 0x0400 == 0 && status & 0x0080 == 0
      && status & 0x0200 == 0x0200 && status & 0x0100 == 0x0100 && msgLength >= 14
    case Rtl(d1, _, _) =>
      d1 & 0x0020_0000 == 0 && d1 & 0x2000_0000 == 0x2000_0000 && d1 & 0x1000_0000 == 0x1000_0000 && d1 & 0x3FFF >= 14
  }

  /** A complete frame without error that is shorter than that. */
  predicate Undersized(d: RxDesc)
  {
    match d
    case Pcnet(_, _, status, msgLength, _) => Owed(d.(msgLength := 14)) && msgLength < 14
    case Rtl(d1, _, _) =>
      d1 & 0x0020_0000 == 0 && d1 & 0x2000_0000 == 0x2000_0000 && d1 & 0x1000_0000 == 0x1000_0000 && d1 & 0x3FFF < 14
  }

  /** get_packet's tests pick out exactly these. */
  lemma ClassifyIs(d: RxDesc)
    ensures Classify(d).Whole? <==> Owed(d)
    ensures Classify(d).Runt? <==> Undersized(d)
    ensures Owed(d) ==> d.Length() >= 14
  {
    match d
    case Pcnet(_, _, status, _, _) => PcnetErrorBits(status);
    case Rtl(d1, _, _) => SetBits(d1);
  }

  lemma PcnetErrorBits(x: bv16)
    ensures x & 0x7C80 == 0 <==>
              x & 0x4000 == 0 && x & 0x2000 == 0 && x & 0x1000 == 0 && x & 0x0800 == 0 && x & 0x0400 == 0 && x & 0x0080 == 0
    ensures (x & 0x0200 != 0 <==> x & 0x0200 == 0x0200) && (x & 0x0100 != 0 <==> x & 0x0100 == 0x0100)
  {
  }

  lemma SetBits(x: bv32)
    ensures x & 0x2000_0000 != 0 <==> x & 0x2000_0000 == 0x2000_0000
    ensures x & 0x1000_0000 != 0 <==> x & 0x1000_0000 == 0x1000_0000
  {
  }

  // ---------- rx_reinit, store by store ----------

  function Stores(d: RxDesc): nat { if d.Pcnet? then 4 else 5 }

  /** Store j of rx_reinit; the last one gives the descriptor to the NIC. */
  function StoreField(d: RxDesc, j: nat, entry: nat, n: nat): (d': RxDesc)
    ensures d'.Pcnet? == d.Pcnet?
  {
    match d
    case Pcnet(_, _, _, _, _) =>
      if j == 0 then d.(bufLength := 0xF9C0)          // -1600
      else if j == 1 then d.(msgLength := 0)
      else if j == 2 then d.(reserved := 0)
      else d.(status := 0x8000)
    case Rtl(_, _, _) =>
      if j == 0 then d.(d2 := 0)
      else if j == 1 then d.(d1 := d.d1 & 0x3FFF_C000)
      else if j == 2 then d.(addr := entry)
      else if j == 3 then (if entry == n - 1 then d.(d1 := d.d1 | 0x4000_0000) else d)
      else d.(d1 := d.d1 | 0x8000_0640)               // 0x80000000 | 1600
  }

  /** The descriptor after the first j stores. */
  function Partial(d: RxDesc, j: nat, entry: nat, n: nat): (d': RxDesc)
    ensures d'.Pcnet? == d.Pcnet?
  {
    if j == 0 then d else StoreField(Partial(d, j - 1, entry, n), j - 1, entry, n)
  }

  /** A descriptor ready for the NIC: its own buffer, 1600 bytes, and on the RTL8101 the end-of-ring bit exactly on the
      last one. */
  predicate Fresh(d: RxDesc, i: nat, n: nat)
  {
    && d.NicOwns()
    && d.Buffer() == i
    && (d.Pcnet? ==> d.bufLength == 0xF9C0)
    && (d.Rtl? ==> d.d1 & 0x3FFF == 1600)
    && (d.EndOfRing(i, n) <==> i == n - 1)
  }

  lemma PartialNotOwned(d: RxDesc, j: nat, entry: nat, n: nat)
    requires !d.NicOwns() && j < Stores(d)
    ensures !Partial(d, j, entry, n).NicOwns()
  {
    var p1, p2 := Partial(d, 1, entry, n), Partial(d, 2, entry, n);
    if d.Rtl? {
      MaskClears(d.d1);
    }
    if j >= 3 { assert Partial(d, 3, entry, n) == StoreField(p2, 2, entry, n); }
    if j == 4 { assert Partial(d, 4, entry, n) == StoreField(Partial(d, 3, entry, n), 3, entry, n); }
  }

  lemma MaskClears(x: bv32)
    ensures x & 0x3FFF_C000 & 0x8000_0000 == 0
    ensures ((x & 0x3FFF_C000) | 0x4000_0000) & 0x8000_0000 == 0
  {
  }

  lemma MaskFresh(x: bv32)
    ensures ((x & 0x3FFF_C000) | 0x8000_0640) & 0x3FFF == 1600
    ensures ((x & 0x3FFF_C000) | 0x8000_0640) & 0x8000_0000 != 0
    ensures ((x & 0x3FFF_C000) | 0x8000_0640) & 0x4000_0000 == 0
    ensures ((x & 0x3FFF_C000) | 0x4000_0000 | 0x8000_0640) & 0x3FFF == 1600
    ensures ((x & 0x3FFF_C000) | 0x4000_0000 | 0x8000_0640) & 0x8000_0000 != 0
    ensures ((x & 0x3FFF_C000) | 0x4000_0000 | 0x8000_0640) & 0x4000_0000 != 0
  {
  }

  /** After all its stores rx_reinit leaves a descriptor the NIC can use, whatever the NIC had written into it. */
  lemma ReinitIsFresh(d: RxDesc, entry: nat, n: nat)
    requires entry < n && (d.Pcnet? ==> d.base == entry)
    ensures Fresh(Partial(d, Stores(d), entry, n), entry, n)
  {
    var p1, p2, p3 := Partial(d, 1, entry, n), Partial(d, 2, entry, n), Partial(d, 3, entry, n);
    var p4 := Partial(d, 4, entry, n);
    assert Partial(d, 0, entry, n) == d && p1 == StoreField(d, 0, entry, n);
    assert p2 == StoreField(p1, 1, entry, n) && p3 == StoreField(p2, 2, entry, n) && p4 == StoreField(p3, 3, entry, n);
    if d.Rtl? {
      MaskFresh(d.d1);
      assert Partial(d, 5, entry, n) == StoreField(p4, 4, entry, n);
    }
  }

  // ---------- the transition system ----------

  /** One use of a descriptor by the NIC: what it wrote there and the frame it put into the buffer. */
  datatype Fill = Fill(desc: RxDesc, frame: bytes)

  /** Where the driver is inside net_idle: before get_packet, past its OWN test, holding a packet, inside rx_reinit,
      inside adv_packet. */
  datatype Pc = Idle | Seen | Held | Storing(j: nat) | Advance

  datatype Rx = Rx(
    ring: seq<RxDesc>, bufs: seq<bytes>, off: nat, pc: Pc,   // shared memory and the driver
    nic: nat,                                                // the NIC's own position
    fills: seq<Fill>, done: nat, handed: seq<Fill>)          // history: all fills, how many were given back, packets handed up
  {
    function N(): nat { |ring| }
  }

  datatype Step =
    | Driver                                    // the driver's next load or store
    | NicScribble(bytes: bytes)                 // DMA under way: the buffer holds anything
    | NicComplete(desc: RxDesc, frame: bytes)   // the frame is in the buffer, the descriptor is written back

  ghost predicate Enabled(s: Rx, e: Step)
  {
    match e
    case Driver => s.off < s.N() == |s.bufs| && (s.pc.Storing? ==> s.pc.j < Stores(s.ring[s.off]))
    case NicScribble(_) => s.nic < s.N() == |s.bufs| && s.ring[s.nic].NicOwns() && s.ring[s.nic].Buffer() < |s.bufs|
    case NicComplete(desc, _) =>
      && s.nic < s.N() == |s.bufs| && s.ring[s.nic].NicOwns() && s.ring[s.nic].Buffer() < |s.bufs|
      && !desc.NicOwns() && desc.Pcnet? == s.ring[s.nic].Pcnet? && (desc.Pcnet? ==> desc.base == s.ring[s.nic].base)
  }

  function DriverStep(s: Rx): Rx
    requires s.off < s.N() == |s.bufs| && (s.pc.Storing? ==> s.pc.j < Stores(s.ring[s.off]))
  {
    var d := s.ring[s.off];
    match s.pc
    case Idle => if d.NicOwns() then s else s.(pc := Seen)
    case Seen =>
      (match Classify(d)
       case Discard => s.(pc := Storing(0))
       case Whole => s.(pc := Held, handed := s.handed + [Fill(d, s.bufs[s.off])])
       case Runt => s.(pc := Idle))
    case Held => s.(pc := Storing(0))
    case Storing(j) =>
      var s1 := s.(ring := s.ring[s.off := StoreField(d, j, s.off, s.N())]);
      if j + 1 < Stores(d) then s1.(pc := Storing(j + 1)) else s1.(pc := Advance, done := s.done + 1)
    case Advance => s.(pc := Idle, off := Next(s.off, s.N()))
  }

  ghost function Apply(s: Rx, e: Step): Rx
    requires Enabled(s, e)
  {
    match e
    case Driver => DriverStep(s)
    case NicScribble(b) => s.(bufs := s.bufs[s.ring[s.nic].Buffer() := b])
    case NicComplete(desc, frame) =>
      s.(ring := s.ring[s.nic := desc],
         bufs := s.bufs[s.ring[s.nic].Buffer() := frame],
         nic := if s.ring[s.nic].EndOfRing(s.nic, s.N()) then 0 else s.nic + 1,
         fills := s.fills + [Fill(desc, frame)])
  }

  /** The ring as init leaves it: every descriptor with the NIC. */
  predicate Init(s: Rx)
  {
    && 0 < s.N() == |s.bufs|
    && s.off == s.nic == s.done == 0 && s.pc.Idle? && s.fills == [] && s.handed == []
    && forall i :: 0 <= i < s.N() ==> Fresh(s.ring[i], i, s.N())
  }

  /** The complete, error-free frames of at least 14 bytes among some fills, in order. */
  function Good(fills: seq<Fill>): seq<Fill>
  {
    if fills == [] then []
    else
      var f := fills[|fills| - 1];
      Good(fills[..|fills| - 1]) + (if Owed(f.desc) then [f] else [])
  }

  ghost predicate Counters(s: Rx)
  {
    && 0 < s.N() == |s.bufs|
    && s.done <= |s.fills| <= s.done + s.N()
    && s.nic == Slot(|s.fills|, s.N())
    && (s.pc.Advance? ==> s.done >= 1 && s.off == Slot(s.done - 1, s.N()))
    && (!s.pc.Advance? ==> s.off == Slot(s.done, s.N()))
    && (s.pc.Seen? || s.pc.Held? || s.pc.Storing? ==> s.done < |s.fills|)
  }

  /** Descriptor k of the window the driver owns: untouched since the NIC wrote it, except the one being re-initialised. */
  ghost predicate DriverSlot(s: Rx, k: nat)
    requires 0 < s.N() == |s.bufs| && k < |s.fills|
  {
    var i := Slot(k, s.N());
    var f := s.fills[k];
    && !f.desc.NicOwns()
    && (f.desc.Pcnet? ==> f.desc.base == i)
    && s.bufs[i] == f.frame
    && s.ring[i] == (if s.pc.Storing? && k == s.done then Partial(f.desc, s.pc.j, i, s.N()) else f.desc)
  }

  ghost predicate Inv(s: Rx)
  {
    && Counters(s)
    && (forall k :: s.done <= k < |s.fills| ==> DriverSlot(s, k))
    && (forall k :: |s.fills| <= k < s.done + s.N() ==> Fresh(s.ring[Slot(k, s.N())], Slot(k, s.N()), s.N()))
    && (s.pc.Storing? ==> s.pc.j < Stores(s.fills[s.done].desc))
    && (s.pc.Held? ==> Classify(s.fills[s.done].desc).Whole?)
    && (s.pc.Storing? ==> !Classify(s.fills[s.done].desc).Runt?)
    && s.handed == Good(s.fills[..s.done + (if s.pc.Held? || s.pc.Storing? then 1 else 0)])
  }

  lemma GoodSnoc(fills: seq<Fill>, k: nat)
    requires k < |fills|
    ensures Good(fills[..k + 1]) == Good(fills[..k]) + (if Classify(fills[k].desc).Whole? then [fills[k]] else [])
  {
    hide Owed, Classify;
    ClassifyIs(fills[k].desc);
    assert fills[..k + 1][..k] == fills[..k];
  }

  lemma InitInv(s: Rx)
    requires Init(s)
    ensures Inv(s)
  {
    assert Slot(0, s.N()) == 0;
    forall k | 0 <= k < s.N()
      ensures Slot(k, s.N()) == k
    {
      Remainder(k, s.N(), 0, k);
    }
  }

  // ---------- every step keeps the invariant ----------

  lemma DriverKeepsInv(s: Rx)
    requires Inv(s)
    ensures Enabled(s, Driver) && Inv(DriverStep(s))
  {
    hide Inv, DriverStep, Enabled;
    match s.pc
    case Idle => LookKeepsInv(s);
    case Seen => SeenKeepsInv(s);
    case Held => HeldKeepsInv(s);
    case Storing(_) => StoreKeepsInv(s);
    case Advance => AdvanceKeepsInv(s);
  }

  lemma LookKeepsInv(s: Rx)
    requires Inv(s) && s.pc.Idle?
    ensures Enabled(s, Driver) && Inv(DriverStep(s))
  {
    hide Slot, Classify, Good, Fresh, StoreField, Partial;
    var s' := DriverStep(s);
    if s.done == |s.fills| { OwnerAtWindowEnd(s); }
    assert forall k :: s.done <= k < |s.fills| && DriverSlot(s, k) ==> DriverSlot(s', k);
  }

  lemma SeenKeepsInv(s: Rx)
    requires Inv(s) && s.pc.Seen?
    ensures Enabled(s, Driver) && Inv(DriverStep(s))
  {
    hide Slot, Classify, Good, Fresh, StoreField;
    assert DriverSlot(s, s.done);
    var s' := DriverStep(s);
    GoodSnoc(s.fills, s.done);
    assert forall k :: s.done <= k < |s.fills| && DriverSlot(s, k) ==> DriverSlot(s', k);
  }

  lemma HeldKeepsInv(s: Rx)
    requires Inv(s) && s.pc.Held?
    ensures Enabled(s, Driver) && Inv(DriverStep(s))
  {
    hide Slot, Classify, Good, Fresh, StoreField;
    assert DriverSlot(s, s.done);
    var s' := DriverStep(s);
    assert forall k :: s.done <= k < |s.fills| && DriverSlot(s, k) ==> DriverSlot(s', k);
  }

  lemma AdvanceKeepsInv(s: Rx)
    requires Inv(s) && s.pc.Advance?
    ensures Enabled(s, Driver) && Inv(DriverStep(s))
  {
    hide Slot, Classify, Good, Fresh, StoreField, Partial;
    var s' := DriverStep(s);
    NextSlot(s.done - 1, s.N());
    assert forall k :: s.done <= k < |s.fills| && DriverSlot(s, k) ==> DriverSlot(s', k);
  }

  /** With an empty window the driver's next descriptor is with the NIC. */
  lemma OwnerAtWindowEnd(s: Rx)
    requires Inv(s) && s.done == |s.fills|
    ensures s.ring[Slot(s.done, s.N())].NicOwns()
  {
  }

  lemma StoreKeepsInv(s: Rx)
    requires Inv(s) && s.pc.Storing?
    ensures Enabled(s, Driver) && Inv(DriverStep(s))
  {
    hide Slot, Classify, Good, Fresh, StoreField;
    assert DriverSlot(s, s.done);
    var s' := DriverStep(s);
    var n, i, j, f := s.N(), s.off, s.pc.j, s.fills[s.done];
    assert s'.ring[i] == Partial(f.desc, j + 1, i, n);
    forall k | s.done < k < s.done + n
      ensures Slot(k, n) != i
    {
      SlotsDiffer(s.done, k, n);
    }
    forall k | s.done < k < |s.fills|
      ensures DriverSlot(s', k)
    {
      assert DriverSlot(s, k);
    }
    if j + 1 == Stores(f.desc) {
      ReinitIsFresh(f.desc, i, n);
      SlotLap(s.done, n);
    } else {
      assert DriverSlot(s', s.done);
    }
  }

  lemma NicKeepsInv(s: Rx, e: Step)
    requires Inv(s) && !e.Driver? && Enabled(s, e)
    ensures Inv(Apply(s, e))
  {
    hide Slot, Classify, Good, Partial, Stores;
    var s' := Apply(s, e);
    var n, f := s.N(), |s.fills|;
    NicHasRoom(s);
    assert Fresh(s.ring[s.nic], s.nic, n);
    forall k | s.done <= k < s.done + n && k != f
      ensures Slot(k, n) != s.nic
    {
      if k < f { SlotsDiffer(k, f, n); } else { SlotsDiffer(f, k, n); }
    }
    forall k | s.done <= k < f
      ensures DriverSlot(s', k)
    {
      assert DriverSlot(s, k);
    }
    NextSlot(f, n);
    if e.NicComplete? {
      assert s'.fills[f] == Fill(e.desc, e.frame);
      assert DriverSlot(s', f);
      assert s'.fills[..s.done + (if s.pc.Held? || s.pc.Storing? then 1 else 0)] == s.fills[..s.done + (if s.pc.Held? || s.pc.Storing? then 1 else 0)];
    }
  }

  /** The NIC can only act while some descriptor is fresh: a full window means it owns none. */
  lemma NicHasRoom(s: Rx)
    requires Inv(s) && s.ring[s.nic].NicOwns()
    ensures |s.fills| < s.done + s.N()
  {
    if |s.fills| == s.done + s.N() {
      SlotLap(s.done, s.N());
      assert DriverSlot(s, s.done);
      if s.pc.Storing? {
        PartialNotOwned(s.fills[s.done].desc, s.pc.j, s.nic, s.N());
      }
    }
  }

  // ---------- safety over every interleaving ----------

  ghost predicate Runnable(s: Rx, es: seq<Step>)
    decreases |es|
  {
    es == [] || (Enabled(s, es[0]) && Runnable(Apply(s, es[0]), es[1..]))
  }

  ghost function RunSteps(s: Rx, es: seq<Step>): Rx
    requires Runnable(s, es)
    decreases |es|
  {
    if es == [] then s else RunSteps(Apply(s, es[0]), es[1..])
  }

  lemma {:induction false} EveryRunKeepsInv(s: Rx, es: seq<Step>)
    requires Inv(s) && Runnable(s, es)
    ensures Inv(RunSteps(s, es))
    decreases |es|
  {
    if es != [] {
      if es[0].Driver? {
        DriverKeepsInv(s);
      } else {
        NicKeepsInv(s, es[0]);
      }
      EveryRunKeepsInv(Apply(s, es[0]), es[1..]);
    }
  }

  /** In every reachable state the packets handed up are exactly the good frames, once each and in order, of a prefix of
      what the NIC received: everything given back, plus the packet being held. A held packet's buffer still holds its
      frame. */
  lemma HandedExactlyOnceInOrder(s0: Rx, es: seq<Step>)
    requires Init(s0) && Runnable(s0, es)
    ensures var s := RunSteps(s0, es);
            && s.done <= |s.fills|
            && (s.pc.Idle? ==> s.handed == Good(s.fills[..s.done]))
            && (s.pc.Held? ==>
                  && s.done < |s.fills| && s.off < |s.bufs|
                  && s.handed == Good(s.fills[..s.done]) + [s.fills[s.done]]
                  && s.bufs[s.off] == s.fills[s.done].frame)
  {
    InitInv(s0);
    EveryRunKeepsInv(s0, es);
    var s := RunSteps(s0, es);
    if s.pc.Held? {
      assert DriverSlot(s, s.done);
      GoodSnoc(s.fills, s.done);
    }
  }

  /** In every reachable state the descriptors the driver owns are one cyclic window: those less than |fills| - done
      places after slot done. All others are fresh. */
  lemma OwnershipWindow(s0: Rx, es: seq<Step>, i: nat)
    requires Init(s0) && Runnable(s0, es) && i < RunSteps(s0, es).N()
    ensures var s := RunSteps(s0, es);
            && (!s.ring[i].NicOwns() <==> exists k :: s.done <= k < |s.fills| && Slot(k, s.N()) == i)
            && (s.ring[i].NicOwns() ==> Fresh(s.ring[i], i, s.N()))
            && (!s.pc.Advance? ==> s.off == Slot(s.done, s.N()))
  {
    InitInv(s0);
    EveryRunKeepsInv(s0, es);
    var s := RunSteps(s0, es);
    var k := SlotOf(i, s.done, s.N());
    if k < |s.fills| {
      assert DriverSlot(s, k);
      if s.pc.Storing? && k == s.done {
        PartialNotOwned(s.fills[k].desc, s.pc.j, i, s.N());
      }
    } else {
      forall j | s.done <= j < |s.fills|
        ensures Slot(j, s.N()) != i
      {
        SlotsDiffer(j, k, s.N());
      }
    }
  }

  // ---------- does everything received get handed up? ----------

  /** m steps of the driver alone. */
  function Poll(s: Rx, m: nat): Rx
    requires Inv(s)
    ensures Inv(Poll(s, m))
    decreases m
  {
    DriverKeepsInv(s);
    if m == 0 then s else Poll(DriverStep(s), m - 1)
  }

  lemma {:induction false} PollAdd(s: Rx, a: nat, b: nat)
    requires Inv(s)
    ensures Poll(s, a + b) == Poll(Poll(s, a), b)
    decreases a
  {
    hide Inv, DriverStep;
    if a > 0 {
      DriverKeepsInv(s);
      PollAdd(DriverStep(s), a - 1, b);
    }
  }

  predicate NoRunt(fills: seq<Fill>, from: nat)
  {
    forall k :: from <= k < |fills| ==> !Undersized(fills[k].desc)
  }

  lemma {:induction false} StoresFinish(s: Rx) returns (m: nat)
    requires Inv(s) && s.pc.Storing?
    ensures var s' := Poll(s, m); s'.pc.Advance? && s'.done == s.done + 1 && s'.fills == s.fills
    decreases Stores(s.fills[s.done].desc) - s.pc.j
  {
    assert DriverSlot(s, s.done);
    DriverKeepsInv(s);
    var s1 := DriverStep(s);
    if s1.pc.Storing? {
      var k := StoresFinish(s1);
      m := k + 1;
    } else {
      m := 1;
      assert Poll(s, 1) == Poll(s1, 0);
    }
  }

  /** A descriptor without a runt is handed up or discarded, and given back. */
  lemma OneRound(s: Rx) returns (m: nat)
    requires Inv(s) && s.pc.Idle? && s.done < |s.fills| && !Classify(s.fills[s.done].desc).Runt?
    ensures var s' := Poll(s, m); s'.pc.Idle? && s'.done == s.done + 1 && s'.fills == s.fills
  {
    hide Inv, DriverStep;
    var a := ReachStoring(s);
    var b := StoresFinish(Poll(s, a));
    PollAdd(s, a, b);
    var s' := Poll(s, a + b);
    LastStep(s');
    PollAdd(s, a + b, 1);
    m := a + b + 1;
  }

  lemma LastStep(s: Rx)
    requires Inv(s) && s.pc.Advance?
    ensures var s' := Poll(s, 1); s'.pc.Idle? && s'.done == s.done && s'.fills == s.fills
  {
    DriverKeepsInv(s);
    assert Poll(s, 1) == Poll(DriverStep(s), 0);
  }

  lemma ReachStoring(s: Rx) returns (m: nat)
    requires Inv(s) && s.pc.Idle? && s.done < |s.fills| && !Classify(s.fills[s.done].desc).Runt?
    ensures var s' := Poll(s, m); s'.pc == Storing(0) && s'.done == s.done && s'.fills == s.fills
  {
    hide Classify, Good, Fresh;
    assert DriverSlot(s, s.done);
    DriverKeepsInv(s);
    var s1 := DriverStep(s);
    DriverKeepsInv(s1);
    var s2 := DriverStep(s1);
    DriverKeepsInv(s2);
    assert Poll(s, 2) == Poll(s1, 1) == Poll(s2, 0) == s2;
    if s2.pc.Held? {
      assert Poll(s, 3) == Poll(s1, 2) == Poll(s2, 1) == Poll(DriverStep(s2), 0);
      m := 3;
    } else {
      m := 2;
    }
  }

  lemma {:induction false} Drains(s: Rx) returns (m: nat)
    requires Inv(s) && s.pc.Idle? && NoRunt(s.fills, s.done)
    ensures Poll(s, m).done == |s.fills|
    decreases |s.fills| - s.done
  {
    hide Inv, Undersized, Classify;
    if s.done < |s.fills| {
      ClassifyIs(s.fills[s.done].desc);
      var a := OneRound(s);
      var b := Drains(Poll(s, a));
      PollAdd(s, a, b);
      m := a + b;
    } else {
      m := 0;
      assert s.done == |s.fills| by { CountersOf(s); }
    }
  }

  lemma CountersOf(s: Rx)
    requires Inv(s)
    ensures s.done <= |s.fills| <= s.done + s.N()
  {
  }

  /** get_packet returns without advancing on a frame shorter than an Ethernet header: in no interleaving is anything
      behind it ever reached. */
  lemma {:induction false} RuntBlocks(s: Rx, k: nat, es: seq<Step>)
    requires Inv(s) && s.done <= k < |s.fills| && Undersized(s.fills[k].desc)
    requires Runnable(s, es)
    ensures RunSteps(s, es).done <= k && s.fills <= RunSteps(s, es).fills
    decreases |es|
  {
    hide Inv, DriverStep, Undersized;
    if es != [] {
      var s' := Apply(s, es[0]);
      if es[0].Driver? {
        DriverKeepsInv(s);
        StepBelowRunt(s, k);
      } else {
        NicKeepsInv(s, es[0]);
      }
      assert s'.fills[k] == s.fills[k];
      RuntBlocks(s', k, es[1..]);
    }
  }

  lemma StepBelowRunt(s: Rx, k: nat)
    requires Inv(s) && s.done <= k < |s.fills| && Undersized(s.fills[k].desc)
    ensures Enabled(s, Step.Driver) && DriverStep(s).done <= k && DriverStep(s).fills == s.fills
  {
    hide Classify, Undersized, Good, Partial, StoreField;
    ClassifyIs(s.fills[k].desc);
    DriverKeepsInv(s);
    assert DriverSlot(s, s.done);
  }

  /** Polling is one of the runs. */
  lemma {:induction false} PollIsRun(s: Rx, m: nat) returns (es: seq<Step>)
    requires Inv(s)
    ensures Runnable(s, es) && RunSteps(s, es) == Poll(s, m)
    decreases m
  {
    hide Inv, DriverStep;
    es := [];
    if m > 0 {
      DriverKeepsInv(s);
      var rest := PollIsRun(DriverStep(s), m - 1);
      es := [Step.Driver] + rest;
      assert es[1..] == rest;
    }
  }

  /** Some run hands up or discards everything that is waiting now. */
  ghost predicate Drainable(s: Rx)
  {
    exists es :: Runnable(s, es) && RunSteps(s, es).done >= |s.fills|
  }

  /** The exact condition for everything received to be handed up or discarded, by polling alone or in any interleaving
      at all: no complete frame of fewer than 14 bytes among what is waiting. */
  lemma DrainsIffNoRunt(s: Rx)
    requires Inv(s) && s.pc.Idle?
    ensures Drainable(s) <==> NoRunt(s.fills, s.done)
    ensures (exists m :: Poll(s, m).done == |s.fills|) <==> NoRunt(s.fills, s.done)
  {
    hide Inv, Undersized;
    if NoRunt(s.fills, s.done) {
      var m := Drains(s);
      var es := PollIsRun(s, m);
    } else {
      var k :| s.done <= k < |s.fills| && Undersized(s.fills[k].desc);
      forall es | Runnable(s, es) ensures RunSteps(s, es).done < |s.fills| { RuntBlocks(s, k, es); }
      forall m ensures Poll(s, m).done != |s.fills| { var es := PollIsRun(s, m); }
    }
  }

  // ---------- the driver functions on the descriptor array ----------

  datatype Chip = Pcnet32 | Rtl8101

  /** The driver's static variables; `s` records where its steps lead in the transition system. */
  class Driver {
    const chip: Chip
    const ring: array<RxDesc>
    const bufs: array<bytes>
    var offset: nat
    ghost var s: Rx

    ghost predicate Valid()
      reads this, ring, bufs
    {
      && ring as object != bufs
      && Inv(s) && s.ring == ring[..] && s.bufs == bufs[..] && s.off == offset
    }

    /** The set-up loop of pcnet32_init (16 descriptors) or rtl8101_init (4). */
    constructor (chip: Chip, n: nat)
      requires n > 0
      ensures Valid() && Init(s) && ring.Length == n && fresh(ring) && fresh(bufs)
    {
      this.chip := chip;
      var r := new RxDesc[n](_ => if chip.Pcnet32? then Pcnet(0, 0, 0, 0, 0) else Rtl(0, 0, 0));
      var b: array<bytes> := new bytes[n](_ => []);
      for i := 0 to n
        invariant forall k :: 0 <= k < i ==> Fresh(r[k], k, n)
        modifies r
      {
        r[i] := if chip.Pcnet32? then Pcnet(i, 0xF9C0, 0x8000, 0, 0)
                else Rtl(0x8000_0000 | (if i == n - 1 then 0x4000_0000 else 0) | 1600, 0, i);
      }
      ring, bufs, offset := r, b, 0;
      s := Rx(r[..], b[..], 0, Idle, 0, [], 0, []);
      new;
      InitInv(s);
    }

    /** pcnet32_rx_reinit, rtl8101_rx_reinit: the stores in program order. */
    method RxReinit()
      requires Valid() && s.pc == Storing(0)
      modifies ring, `s
      ensures Valid() && s.pc.Advance? && s.done == old(s.done) + 1
      ensures s.fills == old(s.fills) && s.handed == old(s.handed) && s.bufs == old(s.bufs) && s.nic == old(s.nic)
      ensures ring[offset] == Partial(old(ring[offset]), Stores(old(ring[offset])), offset, ring.Length)
      ensures forall i :: 0 <= i < ring.Length && i != offset ==> ring[i] == old(ring[i])
    {
      var j := 0;
      ghost var d0 := ring[offset];
      var count := Stores(ring[offset]);
      while j < count
        invariant 0 <= j <= count && Valid()
        invariant j < count ==> s.pc == Storing(j) && s.done == old(s.done)
        invariant j == count ==> s.pc.Advance? && s.done == old(s.done) + 1
        invariant s.fills == old(s.fills) && s.handed == old(s.handed) && s.bufs == old(s.bufs) && s.nic == old(s.nic)
        invariant ring[offset] == Partial(d0, j, offset, ring.Length)
        invariant forall i :: 0 <= i < ring.Length && i != offset ==> ring[i] == old(ring[i])
      {
        hide Inv, StoreField;
        DriverKeepsInv(s);
        ring[offset] := StoreField(ring[offset], j, offset, ring.Length);
        s := DriverStep(s);
        j := j + 1;
      }
    }

    /** adv_packet. */
    method AdvPacket()
      requires Valid() && s.pc.Advance?
      modifies `offset, `s
      ensures Valid() && s.pc.Idle?
      ensures s == old(s).(pc := Idle, off := offset) && offset == Next(old(offset), ring.Length)
    {
      DriverKeepsInv(s);
      s := DriverStep(s);
      offset := offset + 1;
      if offset >= ring.Length { offset := 0; }
    }

    /** get_packet: the next frame when one is waiting, and the size of its payload. A bad or partial frame is dropped, a
        runt left where it is. */
    method GetPacket() returns (packet: Option<Fill>, sz: int)
      requires Valid() && s.pc.Idle?
      modifies ring, `offset, `s
      ensures Valid() && s.fills == old(s.fills) && s.bufs == old(s.bufs) && s.nic == old(s.nic)
      ensures packet.Some? ==> s.pc.Held? && old(s.done) == s.done < |s.fills| && packet.value == s.fills[s.done]
      ensures packet.Some? ==> s.handed == old(s.handed) + [packet.value]
      ensures packet.Some? && packet.value.desc.Pcnet? ==> sz == packet.value.desc.msgLength - 14 >= 0
      ensures packet.Some? && packet.value.desc.Rtl? ==> sz == (packet.value.desc.d1 & 0x3FFF) as int - 14 >= 0
      ensures packet.None? ==> s.pc.Idle? && s.handed == old(s.handed)
      ensures packet.Some? <==> s.done < |s.fills| && old(s.done) == s.done && Owed(s.fills[s.done].desc)
    {
      hide Classify, Good, Owed;
      packet, sz := None, 0;
      assert s.done < |s.fills| ==> DriverSlot(s, s.done);
      OwnedIffWaiting(s);
      var rx := ring[offset];
      ClassifyIs(rx);
      if !rx.NicOwns() {
        DriverKeepsInv(s);
        s := DriverStep(s);
        DriverKeepsInv(s);
        s := DriverStep(s);
        match Classify(rx)
        case Whole =>
          packet, sz := Some(Fill(rx, bufs[offset])), rx.Length() - 14;
        case Runt =>
        case Discard =>
          RxReinit();
          AdvPacket();
      }
    }

    /** put_packet: the packet's descriptor goes back to the NIC. */
    method PutPacket()
      requires Valid() && s.pc.Held?
      modifies ring, `offset, `s
      ensures Valid() && s.pc.Idle? && s.done == old(s.done) + 1
      ensures s.fills == old(s.fills) && s.handed == old(s.handed) && s.bufs == old(s.bufs) && s.nic == old(s.nic)
      ensures Fresh(ring[old(offset)], old(offset), ring.Length)
    {
      DriverKeepsInv(s);
      assert DriverSlot(s, s.done);
      ReinitIsFresh(s.fills[s.done].desc, offset, ring.Length);
      s := DriverStep(s);
      RxReinit();
      AdvPacket();
    }
  }

  lemma OwnedIffWaiting(s: Rx)
    requires Inv(s) && s.pc.Idle?
    ensures !s.ring[s.off].NicOwns() <==> s.done < |s.fills|
  {
    if s.done < |s.fills| {
      assert DriverSlot(s, s.done);
    } else {
      OwnerAtWindowEnd(s);
    }
  }
}
