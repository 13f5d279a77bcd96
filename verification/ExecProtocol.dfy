/** remote_eth_exec: code runs at most once however often its request is repeated. */
module ExecProtocol {
  import opened Words
  import opened Numerals
  import opened DebugServer
  import opened Network
  import opened WriteProtocol

  // ---------- the server's de-duplication over whole runs ----------

  /** The EXEC requests among a schedule of deliveries, in order. */
  function Execs(ds: seq<Delivery>): (es: seq<(uint32, uint32)>)
  {
    if ds == [] then []
    else
      var q := Parse(ds[0].data, ds[0].tail);
      (if q.Exec? then [(q.addr, q.seqNo)] else []) + Execs(ds[1..])
  }

  /** The addresses of those requests whose sequence number differs from the request right before them. */
  function Collapsed(last: uint32, es: seq<(uint32, uint32)>): seq<uint32>
    decreases |es|
  {
    if es == [] then []
    else (if es[0].1 != last then [es[0].0] else []) + Collapsed(es[0].1, es[1..])
  }

  /** Over every schedule the code executed is exactly the EXEC requests with adjacent equal sequence numbers
      collapsed, whatever other commands are delivered in between. */
  lemma {:induction false} LogIsCollapsed(w: World, ds: seq<Delivery>)
    requires forall i :: 0 <= i < |ds| ==> |ds[i].data| <= MAX_PAYLOAD
    ensures Network.Run(w, ds).server.log == w.server.log + Collapsed(w.server.lastSeq, Execs(ds))
    decreases |ds|
  {
    hide Parse;
    if ds != [] {
      var w1 := Deliver(w, ds[0]);
      var q := Parse(ds[0].data, ds[0].tail);
      LogIsCollapsed(w1, ds[1..]);
      var es := Execs(ds[1..]);
      if q.Exec? {
        assert Execs(ds) == [(q.addr, q.seqNo)] + es;
        assert ([(q.addr, q.seqNo)] + es)[1..] == es;
      } else {
        assert Execs(ds) == es;
      }
    }
  }

  // ---------- the messages ----------

  function ExecRequest(addr: uint64, seqNo: uint32): bytes
  {
    EXEC + (Hex(addr) + ([SPACE] + Hex(seqNo)))
  }

  lemma ExecRequestStarts(addr: uint64, seqNo: uint32)
    ensures var req := ExecRequest(addr, seqNo);
            Starts(req, EXEC) && !Starts(req, TEST) && !Starts(req, READ) && !Starts(req, WRITE) && !Starts(req, LOW)
  {
    var req := ExecRequest(addr, seqNo);
    assert req[..5] == EXEC && req[..4][0] == req[0] && (|req| >= 6 ==> req[..6][0] == req[0]) && req[..3][0] == req[0];
  }

  /** What the server makes of the request, whatever lies behind it in the packet buffer. */
  lemma ExecRequestReads(addr: uint64, seqNo: uint32, tail: bytes)
    ensures Parse(ExecRequest(addr, seqNo), tail) == Exec(addr % TWO_32, FieldSeen(seqNo, tail))
  {
    hide HexField, SkipSpaces, Hex, FieldSeen;
    var req := ExecRequest(addr, seqNo);
    var rest := [SPACE] + (Hex(seqNo) + tail);
    ExecRequestStarts(addr, seqNo);
    assert req[5..] + tail == Hex(addr) + rest by {
      assert req[5..] == Hex(addr) + ([SPACE] + Hex(seqNo));
    }
    PrintedIsNoSpace(addr);
    PrintedIsNoSpace(seqNo);
    SkipSpacesStops(Hex(addr) + rest);
    HexFieldOfPrinted(addr, rest);
    SkipSpacesStops(Hex(seqNo) + tail);
    FieldSeenIsRead(seqNo, tail);
  }

  /** With no hex digit behind it the request parses back. */
  lemma ExecRequestParses(addr: uint64, seqNo: uint32, tail: bytes)
    requires seqNo != 0 && !StartsHex(tail)
    ensures FieldSeen(seqNo, tail) == seqNo
    ensures Parse(ExecRequest(addr, seqNo), tail) == Exec(addr % TWO_32, seqNo)
  {
    hide Parse, ExecRequest;
    ExecRequestReads(addr, seqNo, tail);
    FieldSeenClean(seqNo, tail);
  }

  lemma ExecRequestFits(addr: uint64, seqNo: uint32)
    ensures 20 + 8 + |ExecRequest(addr, seqNo)| <= 1500
  {
    Pow16Eight();
    PrintShort(addr, 16, TWO_64);
    PrintShort(seqNo, 8, TWO_32);
  }

  // ---------- exactly when a request runs at most once ----------

  /** However often one request is delivered, the code runs at most once. */
  ghost predicate AtMostOnce(w: World, addr: uint64, seqNo: uint32, tails: bytes -> bool)
  {
    forall ds :: Schedulable({ExecRequest(addr, seqNo)}, tails, ds) ==>
      |Network.Run(w, ds).server.log| <= |w.server.log| + 1
  }

  /** Everything that may lie behind the datagram gives the same sequence number. */
  ghost predicate OneNumber(seqNo: uint32, tails: bytes -> bool)
  {
    forall t, u :: tails(t) && tails(u) ==> FieldSeen(seqNo, t) == FieldSeen(seqNo, u)
  }

  lemma AtMostOnceIff(w: World, addr: uint64, seqNo: uint32, tails: bytes -> bool)
    ensures AtMostOnce(w, addr, seqNo, tails) <==> OneNumber(seqNo, tails)
  {
    hide FieldSeen, ExecRequest;
    var req := ExecRequest(addr, seqNo);
    if OneNumber(seqNo, tails) {
      forall ds | Schedulable({req}, tails, ds)
        ensures |Network.Run(w, ds).server.log| <= |w.server.log| + 1
      {
        LogIsCollapsed(w, ds);
        ExecsOfCopies(addr, seqNo, ds);
        CollapsedSame(w.server.lastSeq, Execs(ds));
      }
    } else {
      var t, u :| tails(t) && tails(u) && FieldSeen(seqNo, t) != FieldSeen(seqNo, u);
      var ds := ThreeCopies(w, addr, seqNo, t, u);
      assert Schedulable({req}, tails, ds);
    }
  }

  /** The deliveries of one request, as the server reads them. */
  lemma {:induction false} ExecsOfCopies(addr: uint64, seqNo: uint32, ds: seq<Delivery>)
    requires forall i :: 0 <= i < |ds| ==> ds[i].data == ExecRequest(addr, seqNo)
    ensures |Execs(ds)| == |ds|
    ensures forall i :: 0 <= i < |ds| ==> Execs(ds)[i] == (addr % TWO_32, FieldSeen(seqNo, ds[i].tail))
    decreases |ds|
  {
    hide Parse, FieldSeen, ExecRequest;
    if ds != [] {
      ExecRequestReads(addr, seqNo, ds[0].tail);
      ExecsOfCopies(addr, seqNo, ds[1..]);
    }
  }

  /** Equal numbers collapse to one execution, or to none when the server saw that number last. */
  lemma {:induction false} CollapsedSame(last: uint32, es: seq<(uint32, uint32)>)
    requires forall i, j :: 0 <= i < j < |es| ==> es[i].1 == es[j].1
    ensures |Collapsed(last, es)| <= 1
    ensures es != [] && es[0].1 == last ==> Collapsed(last, es) == []
    decreases |es|
  {
    if es != [] {
      CollapsedSame(es[0].1, es[1..]);
    }
  }

  /** Two tails that give different numbers: whatever the server saw last, delivering t, u, t runs the code twice. */
  lemma ThreeCopies(w: World, addr: uint64, seqNo: uint32, t: bytes, u: bytes) returns (ds: seq<Delivery>)
    requires FieldSeen(seqNo, t) != FieldSeen(seqNo, u)
    ensures forall i :: 0 <= i < |ds| ==> ds[i].data == ExecRequest(addr, seqNo) && |ds[i].data| <= MAX_PAYLOAD
    ensures forall i :: 0 <= i < |ds| ==> ds[i].tail == t || ds[i].tail == u
    ensures |Network.Run(w, ds).server.log| >= |w.server.log| + 2
  {
    hide FieldSeen, ExecRequest, Network.Run;
    var req, m := ExecRequest(addr, seqNo), w.server.mem;
    ExecRequestFits(addr, seqNo);
    ds := [Delivery(req, t, m), Delivery(req, u, m), Delivery(req, t, m)];
    LogIsCollapsed(w, ds);
    ExecsOfCopies(addr, seqNo, ds);
    var es := Execs(ds);
    var last := w.server.lastSeq;
    assert es[1..][0] == es[1] && es[1..][1..] == [es[2]];
    assert Collapsed(es[1].1, [es[2]]) == [es[2].0] + Collapsed(es[2].1, []);
    assert Collapsed(es[0].1, es[1..]) == [es[1].0] + Collapsed(es[1].1, [es[2]]);
    assert |Collapsed(last, es)| >= 2;
  }

  /** The condition can fail: the digits 0 and 1 behind the datagram give every request two numbers. */
  lemma DirtyTailsDiffer(seqNo: uint32, tails: bytes -> bool)
    requires tails([48]) && tails([49])
    ensures !OneNumber(seqNo, tails)
  {
    OneDigit(seqNo, 48);
    OneDigit(seqNo, 49);
    ShiftMod(seqNo, 0);
    ShiftMod(seqNo, 1);
  }

  /** Clean packet buffers meet it, and the server then knows the request by its own number. */
  lemma CleanTails(job: Job)
    requires job.seqNo != 0 && forall t :: job.tails(t) ==> !StartsHex(t)
    ensures OneNumber(job.seqNo, job.tails) && job.Seen() == job.seqNo
  {
    hide FieldSeen, ExecRequest, Parse;
    forall t | job.tails(t) ensures FieldSeen(job.seqNo, t) == job.seqNo { ExecRequestParses(job.addr, job.seqNo, t); }
  }

  // ---------- one call of remote_eth_exec ----------

  /** A call: the world it starts in, its arguments, and what may lie behind a datagram in a packet buffer. */
  datatype Job = Job(w0: World, addr: uint64, seqNo: uint32, tails: bytes -> bool)
  {
    function Req(): bytes { ExecRequest(addr, seqNo) }

    /** The number under which the server knows the request. */
    ghost function Seen(): uint32
    {
      if exists t :: tails(t) then (var t :| tails(t); FieldSeen(seqNo, t)) else seqNo
    }

    /** The log when the call has been served: nothing new when the server saw this sequence number last. */
    ghost function Served(): seq<uint32>
    {
      if Seen() == w0.server.lastSeq then w0.server.log else w0.server.log + [addr % TWO_32]
    }

    /** No EXEC was in flight before the call. */
    ghost predicate NoOlderExec()
    {
      forall d, tail :: d in w0.requests && |d| <= MAX_PAYLOAD && tails(tail) ==>
        var q := Parse(d, tail); !q.Exec? && !q.Overrun?
    }

    /** Nothing in flight before the call is, or causes, a reply that starts with "OK ". */
    ghost predicate NoOlderOk()
    {
      && (forall d, tail :: d in w0.requests && |d| <= MAX_PAYLOAD && tails(tail) ==> Parse(d, tail).Unknown?)
      && (forall r :: r in w0.replies ==> !Starts(r, OK))
    }

    ghost predicate Inv(w: World)
    {
      && (forall d :: d in w.requests ==> d in w0.requests || d == Req())
      && ((w.server.log == w0.server.log && w.server.lastSeq == w0.server.lastSeq)
          || (w.server.log == Served() && w.server.lastSeq == Seen()))
      && (NoOlderOk() ==> forall r :: r in w.replies && Starts(r, OK) ==> w.server.log == Served())
    }

    /** The world once the request is in flight. */
    function Sent(): World { w0.(requests := w0.requests + {Req()}) }

    /** In every run of the call, an answer the client takes for success means that the request was served. */
    ghost predicate AnswersMeanServed()
    {
      forall ds, r :: Schedulable(Sent().requests, tails, ds) && r in Network.Run(Sent(), ds).replies && Starts(r, OK) ==>
        Network.Run(Sent(), ds).server.log == Served()
    }
  }

  /** A reply that ends the retry loop. */
  predicate Heeded(r: bytes) { r == [] || Starts(r, OK) }

  /** The server's answer to the request is one the client takes, whether the code was run or not. */
  lemma OwnAnswerTaken(s: Server, addr: uint64, seqNo: uint32, tail: bytes)
    ensures var r := Reply(s, Parse(ExecRequest(addr, seqNo), tail));
            r.Some? && Starts(r.value, OK) && r.value == OK_COMPLETE + Hex8(FieldSeen(seqNo, tail))
  {
    hide Parse, ExecRequest, FieldSeen, Hex8;
    ExecRequestReads(addr, seqNo, tail);
    assert OK_COMPLETE[..3] == OK;
  }

  lemma InvStart(job: Job)
    ensures job.Inv(job.w0)
  {
  }

  lemma InvMeans(job: Job, w: World, r: bytes)
    requires job.Inv(w)
    ensures w.server.log == job.w0.server.log || w.server.log == job.Served()
    ensures job.NoOlderOk() && r in w.replies && Starts(r, OK) ==> w.server.log == job.Served()
  {
    hide job.NoOlderOk, job.Served, job.Seen;
  }

  lemma DeliverKeepsInv(job: Job, w: World, d: Delivery)
    requires OneNumber(job.seqNo, job.tails) && job.NoOlderExec() && job.Inv(w)
    requires d.data in w.requests && job.tails(d.tail) && |d.data| <= MAX_PAYLOAD
    ensures job.Inv(Deliver(w, d))
  {
    hide Parse, ExecRequest, FieldSeen;
    if d.data == job.Req() {
      ExecRequestReads(job.addr, job.seqNo, d.tail);
      assert FieldSeen(job.seqNo, d.tail) == job.Seen();
    } else {
      assert ERR_UNKNOWN[..3][0] == 69;
    }
  }

  lemma {:induction false} RunKeepsInv(job: Job, w: World, ds: seq<Delivery>)
    requires OneNumber(job.seqNo, job.tails) && job.NoOlderExec() && job.Inv(w)
    requires Schedulable(w.requests, job.tails, ds)
    ensures job.Inv(Network.Run(w, ds))
    decreases |ds|
  {
    if ds != [] {
      DeliverKeepsInv(job, w, ds[0]);
      RunKeepsInv(job, Deliver(w, ds[0]), ds[1..]);
    }
  }

  /** The client takes any "OK " for its answer. Exactly when nothing older in flight is or causes one does an answer
      mean that the code was run (or that there was nothing to run). */
  lemma AnswerMeansServedIff(job: Job)
    requires OneNumber(job.seqNo, job.tails) && job.NoOlderExec()
    ensures job.AnswersMeanServed() <==> job.Served() == job.w0.server.log || job.NoOlderOk()
  {
    hide Parse, ExecRequest, job.Served, OneNumber;
    var w := job.Sent();
    if job.Served() == job.w0.server.log || job.NoOlderOk() {
      assert job.Inv(w);
      forall ds | Schedulable(w.requests, job.tails, ds)
        ensures job.Inv(Network.Run(w, ds))
      {
        RunKeepsInv(job, w, ds);
      }
    } else if r :| r in job.w0.replies && Starts(r, OK) {
      assert Network.Run(w, []) == w && Schedulable(w.requests, job.tails, []);
    } else {
      var d, tail :| d in job.w0.requests && |d| <= MAX_PAYLOAD && job.tails(tail) && !Parse(d, tail).Unknown?;
      var ds := [Delivery(d, tail, w.server.mem)];
      OtherAnswersOk(w.server, Parse(d, tail));
      assert ds[1..] == [] && Network.Run(w, ds) == Network.Run(Deliver(w, ds[0]), []) == Deliver(w, ds[0]);
      assert Schedulable(w.requests, job.tails, ds);
    }
  }

  lemma OtherAnswersOk(s: Server, q: Request)
    requires q.Test? || q.Read? || q.Write? || q.Low?
    ensures Reply(s, q).Some? && Starts(Reply(s, q).value, OK)
  {
    hide Hex8, Load;
    assert OK_X86[..3] == OK;
  }

  /** Upload, then EXEC: a late copy of the acknowledgement of a block is such an "OK ", so remote_eth_exec can return 1
      with nothing run. */
  lemma UploadAckTakenForExec(w: World, addr: uint64, seqNo: uint32, data: bytes, d: Delivery, job: Job)
    requires d.data == WriteRequest(addr, seqNo, data) && |d.data| <= MAX_PAYLOAD
    requires job.w0 == Deliver(w, d)
    ensures var ack := WriteReply(addr % TWO_32, seqNo);
            ack in job.w0.replies && Starts(ack, OK) && !job.NoOlderOk() && job.w0.server.log == w.server.log
  {
    hide Parse, WriteRequest;
    WriteRequestParses(addr, seqNo, data, d.tail);
    OtherAnswersOk(w.server, Parse(d.data, d.tail));
  }
}
