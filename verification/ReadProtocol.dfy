/** remote_eth_read over a network that loses, duplicates and reorders. */
module ReadProtocol {
  import opened Words
  import opened Numerals
  import opened DebugServer
  import opened Network
  import opened WriteProtocol

  const READ_RECV_MAX: nat := 1999   // sizeof(recv_buf) - 1

  // ---------- the messages ----------

  function ReadRequest(addr: uint64, len: nat): bytes
  {
    READ + (Hex(addr) + ([SPACE] + Hex(len)))
  }

  /** The address always parses back; the size is the number that trailing hex digits make of it. */
  lemma ReadRequestParses(addr: uint64, len: nat, tail: bytes)
    ensures Parse(ReadRequest(addr, len), tail) == Read(addr % TWO_32, FieldSeen(len, tail))
  {
    hide HexField, SkipSpaces, Hex, FieldSeen;
    var req := ReadRequest(addr, len);
    var rest := [SPACE] + (Hex(len) + tail);
    assert req[..5] == READ && req[..4][0] == req[0] == 82;
    assert req[5..] + tail == Hex(addr) + rest by {
      assert req[5..] == Hex(addr) + ([SPACE] + Hex(len));
    }
    PrintedIsNoSpace(addr);
    PrintedIsNoSpace(len);
    SkipSpacesStops(Hex(addr) + rest);
    HexFieldOfPrinted(addr, rest);
    SkipSpacesStops(Hex(len) + tail);
    FieldSeenIsRead(len, tail);
  }

  /** The server's answer to the READ of a block is taken exactly when what lies behind the request did not make the size
      smaller, and then it is the block's bytes of memory. */
  lemma OwnAnswerTaken(s: Server, addr: uint64, len: nat, tail: bytes)
    requires len <= MAX_READ
    ensures var r := Reply(s, Parse(ReadRequest(addr, len), tail));
            && r.Some? && r.value != []
            && Judge(r.value, len) ==
                 if len <= FieldSeen(len, tail) then Accept(addr % TWO_32, Load(s.mem, addr % TWO_32, len)) else Reject
  {
    hide Parse, ReadRequest, FieldSeen, Judge, Load;
    ReadRequestParses(addr, len, tail);
    JudgeReadReply(s.mem, addr % TWO_32, FieldSeen(len, tail), len);
  }

  /** With nothing behind the request that continues the number the size is the client's, and its answer is taken. */
  lemma CleanReadAnswered(s: Server, addr: uint64, len: nat, tail: bytes)
    requires len <= MAX_READ && !StartsHex(tail) && (len == 0 ==> tail == [] || tail[0] != 120)
    ensures Parse(ReadRequest(addr, len), tail) == Read(addr % TWO_32, len)
    ensures Judge(Reply(s, Parse(ReadRequest(addr, len), tail)).value, len) ==
              Accept(addr % TWO_32, Load(s.mem, addr % TWO_32, len))
  {
    hide Parse, ReadRequest, Judge, Load, FieldSeen;
    FieldSeenClean(len, tail);
    ReadRequestParses(addr, len, tail);
    OwnAnswerTaken(s, addr, len, tail);
  }

  lemma ReadRequestFits(addr: uint64, len: nat)
    requires len <= MAX_READ
    ensures 20 + 8 + |ReadRequest(addr, len)| <= 1500
  {
    Pow16Eight();
    PrintShort(addr, 16, TWO_64);
    PrintShort(len, 8, TWO_32);
  }

  /** strchr(s, '\n'): a NUL ends the search. */
  function Strchr(s: bytes): (n: Option<nat>)
    ensures n.Some? ==> n.value < |s| && s[n.value] == LF
  {
    if s == [] || s[0] == 0 then None
    else if s[0] == LF then Some(0)
    else match Strchr(s[1..]) case None => None case Some(k) => Some(k + 1)
  }

  lemma StrchrFinds(s: bytes, n: nat)
    requires n < |s| && s[n] == LF
    requires forall i :: 0 <= i < n ==> s[i] != LF && s[i] != 0
    ensures Strchr(s) == Some(n)
  {
    if n > 0 {
      StrchrFinds(s[1..], n - 1);
    }
  }

  lemma StrchrFails(s: bytes)
    requires LF !in s
    ensures Strchr(s) == None
  {
  }

  /** What remote_eth_read_block makes of a reply: try again, give up, or an address and the bytes behind the newline. */
  datatype Verdict = Again | Reject | Accept(addr: uint64, data: bytes)

  function Judge(r: bytes, len: nat): (v: Verdict)
    ensures v.Accept? ==> |v.data| == len
  {
    var b := r[..Min(|r|, READ_RECV_MAX)];
    match Strchr(b)
    case None => Again
    case Some(n) =>
      if n + 1 + len > |b| || !Starts(b[..n], OK) then Reject
      else Accept(Strtoull(b[..n][3..]).0, b[n + 1..n + 1 + len])
  }

  /** Nothing but a line that begins with "OK " is accepted, and from it the bytes right behind its first newline. */
  lemma AcceptedShape(r: bytes, len: nat)
    requires Judge(r, len).Accept?
    ensures Starts(r, OK) && exists n :: 3 <= n && n + 1 + len <= |r| && r[n] == LF && LF !in r[..n]
                                         && Judge(r, len).data == r[n + 1..n + 1 + len]
  {
    hide Strchr, Strtoull;
    var b := r[..Min(|r|, READ_RECV_MAX)];
    StrchrFirst(b);
    var n := Strchr(b).value;
    assert b[..n][..3] == r[..3] && b[..n] == r[..n];
    assert b[n + 1..n + 1 + len] == r[n + 1..n + 1 + len];
  }

  lemma StrchrFirst(s: bytes)
    ensures Strchr(s).Some? ==> LF !in s[..Strchr(s).value]
  {
    if s != [] && s[0] != 0 && s[0] != LF && Strchr(s).Some? {
      StrchrFirst(s[1..]);
      assert s[..Strchr(s).value] == [s[0]] + s[1..][..Strchr(s[1..]).value];
    }
  }

  /** A reply that ends the retry loop. */
  predicate Heeded(r: bytes, len: nat) { r == [] || !Judge(r, len).Again? }

  /** The waits of one block. */
  ghost predicate Asked(heard: seq<Option<bytes>>, len: nat) { UpToThree(heard, Ends(len)) }

  function Ends(len: nat): bytes -> bool { r => Heeded(r, len) }

  /** The waits of one block ended with an answer for its address and of its length. */
  predicate Taken(heard: seq<Option<bytes>>, addr: uint64, len: nat)
  {
    && Last(heard).Some? && Last(heard).value != []
    && Judge(Last(heard).value, len).Accept? && Judge(Last(heard).value, len).addr == addr
  }

  lemma JudgeReadReply(mem: Memory, addr: uint32, size: nat, len: nat)
    ensures Judge(ReadReply(mem, addr, size), len) ==
              if len <= Min(size, MAX_READ) then Accept(addr, Load(mem, addr, len)) else Reject
  {
    hide Strtoull, Load, Fixed, Val, Pow16;
    var m := Min(size, MAX_READ);
    var r := ReadReply(mem, addr, size);
    var head := OK + Hex8(addr);
    Pow16Eight();
    FixedVal(addr, 8);
    assert r[..Min(|r|, READ_RECV_MAX)] == r;
    assert r == head + ([LF] + Load(mem, addr, m));
    assert forall i :: 3 <= i < 11 ==> r[i] == Hex8(addr)[i - 3];
    StrchrFinds(r, 11);
    assert r[..11] == head && head[3..] == Hex8(addr) + [] && head[..3] == OK;
    StrtoullOfHex8(addr, []);
    if len <= m {
      LoadPrefix(mem, addr, m, len);
      SliceBehind(head, Load(mem, addr, m), len);
    }
  }

  lemma SliceBehind(head: bytes, body: bytes, len: nat)
    requires |head| == 11 && len <= |body|
    ensures (head + ([LF] + body))[12..12 + len] == body[..len]
  {
    var s := head + ([LF] + body);
    assert s[12..] == body;
    assert s[12..12 + len] == s[12..][..len];
  }

  lemma LoadPrefix(mem: Memory, addr: nat, m: nat, len: nat)
    requires len <= m
    ensures Load(mem, addr, m)[..len] == Load(mem, addr, len)
  {
  }

  lemma JudgeOther(s: Server, q: Request, len: nat)
    requires q.Test? || q.Low? || q.Write? || q.Unknown?
    ensures Judge(Reply(s, q).value, len) == Again
  {
    ReplyNoNewline(s, q);
    JudgeNoNewline(Reply(s, q).value, len);
  }

  lemma JudgeNoNewline(r: bytes, len: nat)
    requires LF !in r
    ensures Judge(r, len) == Again
  {
    StrchrFails(r[..Min(|r|, READ_RECV_MAX)]);
  }

  // ---------- one call of remote_eth_read ----------

  /** The range a call asks for, block by block. */
  datatype Span = Span(addr: uint64, len: nat)
  {
    function Blocks(): nat { (len + BLOCK - 1) / BLOCK }

    function BlockAddr(j: nat): uint64 { (addr + BLOCK * j) % TWO_64 }

    function BlockLen(j: nat): nat
      requires j < Blocks()
    {
      Min(BLOCK, len - BLOCK * j)
    }

    /** The first k blocks were each asked for up to three times until an answer was taken. */
    ghost predicate AllTaken(heard: seq<seq<Option<bytes>>>, k: nat)
    {
      && |heard| == k <= Blocks()
      && forall j :: 0 <= j < k ==>
           Asked(heard[j], BlockLen(j)) && Taken(heard[j], BlockAddr(j), BlockLen(j))
    }

    /** What the answer of the call says about what was heard: all blocks answered, or all but the last one tried. */
    ghost predicate Outcome(ok: bool, heard: seq<seq<Option<bytes>>>)
    {
      if ok then AllTaken(heard, Blocks())
      else
        && 0 < |heard| <= Blocks()
        && var j := |heard| - 1;
           && AllTaken(heard[..j], j) && Asked(heard[j], BlockLen(j))
           && !Taken(heard[j], BlockAddr(j), BlockLen(j))
    }

    /** Everything sent and heard for the blocks tried. */
    ghost function Events(heard: seq<seq<Option<bytes>>>): seq<Event>
      requires |heard| <= Blocks()
      decreases |heard|
    {
      if heard == [] then []
      else var j := |heard| - 1; Events(heard[..j]) + Tries(ReadRequest(BlockAddr(j), BlockLen(j)), heard[j])
    }
  }

  /** A network that gets every request, or its third copy at the latest, to the server and the answer back makes the
      call succeed, when nothing behind a request makes its size smaller. */
  lemma AnsweredReadSucceeds(span: Span, ss: seq<Server>, tails: seq<bytes>, heard: seq<seq<Option<bytes>>>)
    requires span.addr + span.len <= TWO_32
    requires |ss| == |tails| == |heard| == span.Blocks()
    requires forall j :: 0 <= j < |heard| ==> span.BlockLen(j) <= FieldSeen(span.BlockLen(j), tails[j])
    requires forall j :: 0 <= j < |heard| ==>
               AtLast(heard[j], Reply(ss[j], Parse(ReadRequest(span.BlockAddr(j), span.BlockLen(j)), tails[j])))
    ensures span.Outcome(true, heard) && !span.Outcome(false, heard)
  {
    hide Parse, Judge, ReadRequest, FieldSeen, AtLast, UpToThree;
    forall j | 0 <= j < |heard|
      ensures Asked(heard[j], span.BlockLen(j)) && Taken(heard[j], span.BlockAddr(j), span.BlockLen(j))
    {
      var a, n := span.BlockAddr(j), span.BlockLen(j);
      var r := Reply(ss[j], Parse(ReadRequest(a, n), tails[j]));
      assert a < TWO_32 && a % TWO_32 == a;
      OwnAnswerTaken(ss[j], a, n, tails[j]);
      AtLastEnds(heard[j], Ends(n), r.value);
      AtLastIs(heard[j], r);
    }
  }

  /** A call: the world it starts in, its arguments, and what may lie behind a datagram in a packet buffer. */
  datatype Job = Job(w0: World, addr: uint64, len: nat, tails: bytes -> bool)
  {
    predicate Valid() { len < 0x8000_0000 }

    function Range(): Span { Span(addr, len) }

    /** m agrees, on the range of the call, with memory as it was. */
    ghost predicate Same(m: Memory)
    {
      forall a: uint32 :: Distance(addr, a) < len ==> m[a] == w0.server.mem[a]
    }

    /** A request in flight before the call: it may not change the range. A WRITE may store again what is there. */
    ghost predicate Compatible(q: Request)
    {
      && !q.Overrun? && !q.Exec?
      && (q.Write? ==> forall a: uint32 :: Distance(addr, a) < len && Distance(q.addr, a) < |q.data| ==>
                         q.data[Distance(q.addr, a)] == w0.server.mem[a])
    }

    /** The premises: nothing in flight changes the range, and no older READ reply is in flight. */
    ghost predicate Quiet()
    {
      && (forall r :: r in w0.replies ==> forall n :: Judge(r, n) == Again)
      && (forall d, tail :: d in w0.requests && |d| <= MAX_PAYLOAD && tails(tail) ==> Compatible(Parse(d, tail)))
    }

    /** A reply whose bytes, if the client takes them at all, are memory as it was. */
    ghost predicate Truthful(r: bytes)
    {
      || (forall n :: Judge(r, n) == Again)
      || (exists m: Memory, a: uint32, size: nat :: r == ReadReply(m, a, size) && Same(m))
    }

    ghost predicate Inv(w: World)
    {
      && (forall d :: d in w.requests ==> d in w0.requests || exists a: uint64, n: nat :: d == ReadRequest(a, n))
      && (forall r :: r in w.replies ==> Truthful(r))
      && Same(w.server.mem)
    }
  }

  /** After a WRITE call that began with nothing in flight, its own requests and replies do not disturb a READ of the
      same range: stale copies only store the same bytes again. */
  lemma QuietAfterWrite(write: WriteProtocol.Job, w: World)
    requires write.Valid() && write.w0.requests == {} && write.w0.replies == {}
    requires write.Inv(w, write.Blocks())
    requires write.Written(w.server.mem)
    ensures Job.Job(w, write.addr, |write.data|, write.tails).Quiet()
  {
    hide Judge, Parse, WriteRequest;
    var job := Job.Job(w, write.addr, |write.data|, write.tails);
    forall r, n: nat | r in w.replies
      ensures Judge(r, n) == Again
    {
      JudgeNoNewline(r, n);
    }
    forall d, tail | d in w.requests
      ensures job.Compatible(Parse(d, tail))
    {
      var j :| 0 <= j < write.Blocks() && d == write.Req(j);
      WriteRequestParses(write.BlockAddr(j), write.first + j, write.BlockData(j), tail);
      SameBytes(write, w, j);
    }
  }

  lemma SameBytes(write: WriteProtocol.Job, w: World, j: nat)
    requires write.Valid() && j < write.Blocks()
    requires write.Written(w.server.mem)
    ensures var b, block := write.BlockAddr(j) % TWO_32, write.BlockData(j);
            forall a: uint32 :: Distance(write.addr, a) < |write.data| && Distance(b, a) < |block| ==>
              block[Distance(b, a)] == w.server.mem[a]
  {
    var b, block := write.BlockAddr(j) % TWO_32, write.BlockData(j);
    forall a: uint32 | Distance(write.addr, a) < |write.data| && Distance(b, a) < |block|
      ensures block[Distance(b, a)] == w.server.mem[a]
    {
      BlockDistance(write.addr, BLOCK * j, a);
    }
  }

  lemma DeliverKeepsInv(job: Job, w: World, d: Delivery)
    requires job.Valid() && job.Quiet() && job.Inv(w)
    requires d.data in w.requests && job.tails(d.tail) && |d.data| <= MAX_PAYLOAD
    ensures job.Inv(Deliver(w, d))
  {
    hide Parse, Judge, ReadReply, ReadRequest;
    var q := Parse(d.data, d.tail);
    if d.data in job.w0.requests {
      assert job.Compatible(q);
    } else {
      var a: uint64, n: nat :| d.data == ReadRequest(a, n);
      ReadRequestParses(a, n, d.tail);
    }
    var r := Reply(w.server, q).value;
    if q.Read? {
      assert r == ReadReply(w.server.mem, q.addr, q.size);
    } else {
      forall n: nat ensures Judge(r, n) == Again { JudgeOther(w.server, q, n); }
    }
    assert job.Truthful(r);
  }

  lemma {:induction false} RunKeepsInv(job: Job, w: World, ds: seq<Delivery>)
    requires job.Valid() && job.Quiet() && job.Inv(w)
    requires Schedulable(w.requests, job.tails, ds)
    ensures job.Inv(Network.Run(w, ds))
    decreases |ds|
  {
    if ds != [] {
      DeliverKeepsInv(job, w, ds[0]);
      RunKeepsInv(job, Deliver(w, ds[0]), ds[1..]);
    }
  }

  /** Bytes the client accepts for the block at offset `off` are the bytes memory holds there. */
  lemma AcceptedIsMemory(job: Job, w: World, r: bytes, off: nat, n: nat)
    requires job.Valid() && job.Inv(w) && r in w.replies
    requires off + n <= job.len
    requires Judge(r, n).Accept? && Judge(r, n).addr == (job.addr + off) % TWO_64
    ensures Judge(r, n).data == Load(job.w0.server.mem, job.addr, job.len)[off..off + n]
  {
    hide Judge, ReadReply, Load;
    assert job.Truthful(r);
    var m: Memory, a: uint32, size: nat :| r == ReadReply(m, a, size) && job.Same(m);
    JudgeReadReply(m, a, size, n);
    BlockBytes(job, m, a, off, n);
  }

  /** Memory that agrees on the range loads the same block. */
  lemma BlockBytes(job: Job, m: Memory, a: uint32, off: nat, n: nat)
    requires job.Valid() && job.Same(m) && off + n <= job.len && a == (job.addr + off) % TWO_64
    ensures Load(m, a, n) == Load(job.w0.server.mem, job.addr, job.len)[off..off + n]
  {
    forall i | 0 <= i < n
      ensures Load(m, a, n)[i] == Load(job.w0.server.mem, job.addr, job.len)[off + i]
    {
      BlockByteAddress(job.addr, off, i);
      DistanceInverse(job.addr, off + i);
    }
  }
}
