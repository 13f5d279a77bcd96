/** The host library comm/e_lib.c: retransmitting block transfers and remote execution, run against every behaviour of
    the network and the server. */
module Client {
  import opened Words
  import opened DebugServer
  import opened Network
  import W = WriteProtocol
  import R = ReadProtocol
  import E = ExecProtocol

  class Connection {
    const link: Link
    var seqNo: uint32   // the static counter of remote_eth_write_block

    constructor (link: Link)
      ensures this.link == link && seqNo == 0
    {
      this.link := link;
      this.seqNo := 0;
    }

    /** The sequence number the next block will carry; `now` is time(NULL). */
    function NextSeq(now: uint32): uint32
      reads this
    {
      if seqNo == 0 then now else (seqNo + 1) % TWO_32
    }

    /** remote_eth_write_block for block j of a call. */
    method WriteBlock(addr: uint64, buf: bytes, len: int, now: uint32, ghost job: W.Job, ghost j: nat)
      returns (ok: bool, ghost heard: seq<Option<bytes>>)
      requires len == |buf|
      requires job.Valid() && job.Quiet() && job.tails == link.tails && job.Inv(link.w, j)
      requires len <= W.BLOCK ==> j < job.Blocks() && buf == job.BlockData(j)
      requires len <= W.BLOCK ==> addr == job.BlockAddr(j) && NextSeq(now) == job.first + j
      requires job.LandedTo(link.w.server.mem, j)
      modifies this`seqNo, link`w, link`events
      ensures job.Inv(link.w, j) || job.Inv(link.w, j + 1)
      ensures len <= W.BLOCK ==> seqNo == job.first + j
      ensures len > W.BLOCK ==> !ok && seqNo == old(seqNo) && link.w == old(link.w) && link.events == old(link.events)
      ensures len <= W.BLOCK ==> link.events == old(link.events) + Tries(job.Req(j), heard)
      ensures len <= W.BLOCK ==> W.Tried(heard) && (ok <==> W.Acked(heard, addr, seqNo))
      ensures ok ==> job.Inv(link.w, j + 1)
      ensures ok ==> job.LandedTo(link.w.server.mem, j + 1)
    {
      hide job.Inv, job.Landed, job.Quiet, W.WriteRequest, Tries, W.Tried, W.Acked;
      if len < 0 || len > 1400 { return false, []; }
      if seqNo == 0 {
        seqNo := now;
      } else {
        seqNo := (seqNo + 1) % TWO_32;
      }
      var request := W.WriteRequest(addr, seqNo, buf);
      assert request == job.Req(j);
      ok, heard := Retransmit(request, addr, job, j);
    }

    /** The retry loop of remote_eth_write_block. It answers true exactly when the first reply heard in at most three
        tries acknowledges the block. */
    method Retransmit(request: bytes, addr: uint64, ghost job: W.Job, ghost j: nat)
      returns (ok: bool, ghost heard: seq<Option<bytes>>)
      requires job.Valid() && job.Quiet() && job.tails == link.tails
      requires j < job.Blocks() && request == job.Req(j)
      requires addr == job.BlockAddr(j) && seqNo == job.first + j
      requires Pending(job, j)
      modifies link`w, link`events
      ensures Pending(job, j)
      ensures ok ==> job.Inv(link.w, j + 1) && job.Landed(link.w.server.mem, j)
      ensures link.events == old(link.events) + Tries(request, heard)
      ensures W.Tried(heard) && (ok <==> W.Acked(heard, addr, seqNo))
    {
      hide job.Inv, job.Landed, job.Quiet, job.Req, W.Accepts, Tries, Unheeded, UpToThree, Last;
      ok, heard := false, [];
      NoTries(request, W.Any);
      var retry := 3;
      while retry != 0
        invariant 0 <= retry <= 3 && |heard| == 3 - retry
        invariant Pending(job, j)
        invariant Unheeded(heard, W.Any)
        invariant link.events == old(link.events) + Tries(request, heard)
      {
        var reply := Attempt(request, job, j);
        TriesSnoc(request, heard, reply);
        OneMoreWait(heard, W.Any, reply);
        heard := heard + [reply];
        if reply.Some? {
          if !W.Accepts(reply.value, addr, seqNo) { return false, heard; }
          W.AckMeansLanded(job, link.w, j + 1, reply.value, j);
          return true, heard;
        }
        retry := retry - 1;
      }
      ThreeWaits(heard, W.Any);
    }

    /** Block j is under way: all blocks before it have landed. */
    ghost predicate Pending(job: W.Job, j: nat)
      requires job.Valid()
      reads link
    {
      && (job.Inv(link.w, j) || job.Inv(link.w, j + 1))
      && (job.LandedTo(link.w.server.mem, j))
    }

    /** One round of the retry loop: send, let the environment run, see whether a reply arrives. */
    method Attempt(request: bytes, ghost job: W.Job, ghost j: nat) returns (reply: Option<bytes>)
      requires job.Valid() && job.Quiet() && job.tails == link.tails
      requires j < job.Blocks() && request == job.Req(j)
      requires Pending(job, j)
      modifies link`w, link`events
      ensures Pending(job, j)
      ensures job.Inv(link.w, j + 1)
      ensures link.events == old(link.events) + [Sent(request), Heard(reply)]
      ensures reply.Some? ==> reply.value in link.w.replies
    {
      hide job.Inv, job.Landed, job.Quiet, job.Req, job.Valid, Network.Run, Schedulable;
      AddBlock(job, link.w, request, j);
      link.Send(request);
      ghost var w := link.w;
      ghost var ds := link.Idle();
      W.RunKeepsInv(job, w, j + 1, ds);
      forall i | 0 <= i < j
        ensures job.Landed(link.w.server.mem, i)
      {
        W.LandedStays(job, w, j + 1, ds, i);
      }
      reply := link.Receive();
    }

    /** The call remote_eth_write(addr, buf, len) as it starts. */
    ghost function WriteJob(addr: uint64, buf: bytes, len: int, now: uint32): W.Job
      requires len <= |buf|
      reads this, link
    {
      W.Job(link.w, addr, if len < 0 then [] else buf[..len], NextSeq(now), link.tails)
    }

    /** remote_eth_write. In every run, whatever the network loses, duplicates or reorders: on success the range
        holds the buffer; on success or failure no byte of the range holds anything but its old value or the buffer's,
        and a byte outside changes only through a WRITE that was in flight before the call. It succeeds exactly when
        every block hears its own acknowledgement first, in at most three tries. */
    method Write(addr: uint64, buf: bytes, len: int, now: uint32)
      returns (ok: bool, ghost heard: seq<seq<Option<bytes>>>)
      requires len <= |buf|
      requires WriteJob(addr, buf, len, now).Valid() && WriteJob(addr, buf, len, now).Quiet()
      modifies this`seqNo, link`w, link`events
      ensures var job := old(WriteJob(addr, buf, len, now));
              && job.BytesOk(link.w.server.mem)
              && (ok ==> Load(link.w.server.mem, addr, |job.data|) == job.data)
              && (ok && job.NoStray() ==> link.w.server.mem == Store(old(link.w.server.mem), addr, job.data))
              && (ok ==> job.Inv(link.w, job.Blocks()))
              && job.Outcome(ok, heard) && link.events == old(link.events) + job.Events(heard)
    {
      hide Writing, Stopped, W.Job.Valid, W.Job.Quiet, W.Job.Blocks, W.Job.BlockData, W.Job.BlockAddr;
      hide W.Job.Inv, W.Job.BytesOk, W.Job.NoStray, W.Job.Outcome, W.Job.Events, Store, Load, NextSeq;
      ghost var job := WriteJob(addr, buf, len, now);
      ghost var before := link.events;
      WriteStart(job, now);
      var cur, left, p := addr, len, 0;
      ghost var j := 0;
      heard := [];
      while left >= 1400
        invariant p == W.BLOCK * j && left == len - p && (len >= 0 ==> 0 <= left)
        invariant cur == job.BlockAddr(j)
        invariant Writing(job, j, now, heard, before)
        decreases left
      {
        var sz := 1400;
        BlockAt(job, buf, len, j);
        ok, heard := WriteNext(cur, buf[p..p + sz], now, job, j, heard, before);
        if !ok {
          WriteStopped(job, heard, before);
          return;
        }
        NextBlockAddr(job, j);
        cur, p, left := (cur + sz) % TWO_64, p + sz, left - sz;
        j := j + 1;
      }
      if left > 0 {
        BlockAt(job, buf, len, j);
        ok, heard := WriteNext(cur, buf[p..p + left], now, job, j, heard, before);
        if !ok {
          WriteStopped(job, heard, before);
          return;
        }
        j := j + 1;
      }
      ok := true;
      WriteDone(job, j, now, heard, before);
    }

    /** The first j blocks of a call are done. */
    ghost predicate Writing(job: W.Job, j: nat, now: uint32, heard: seq<seq<Option<bytes>>>, before: seq<Event>)
      requires job.Valid()
      reads this, link
    {
      && j <= job.Blocks() && job.tails == link.tails
      && job.Inv(link.w, j) && job.LandedTo(link.w.server.mem, j)
      && (j < job.Blocks() ==> NextSeq(now) == job.first + j)
      && job.AllAcked(heard, j) && link.events == before + job.Events(heard)
    }

    /** A block was not acknowledged. */
    ghost predicate Stopped(job: W.Job, heard: seq<seq<Option<bytes>>>, before: seq<Event>)
      requires job.Valid()
      reads link
    {
      job.BytesOk(link.w.server.mem) && job.Outcome(false, heard) && link.events == before + job.Events(heard)
    }

    lemma WriteStart(job: W.Job, now: uint32)
      requires job.Valid() && job.Quiet() && job.w0 == link.w && job.tails == link.tails && job.first == NextSeq(now)
      ensures Writing(job, 0, now, [], link.events) && job.BlockAddr(0) == job.addr
    {
      InvStart(job);
      NothingHeard(job);
    }

    lemma WriteStopped(job: W.Job, heard: seq<seq<Option<bytes>>>, before: seq<Event>)
      requires job.Valid() && Stopped(job, heard, before)
      ensures |heard| <= job.Blocks()
      ensures job.BytesOk(link.w.server.mem) && job.Outcome(false, heard) && link.events == before + job.Events(heard)
    {
      hide job.BytesOk, job.Events;
    }

    lemma WriteDone(job: W.Job, j: nat, now: uint32, heard: seq<seq<Option<bytes>>>, before: seq<Event>)
      requires job.Valid() && Writing(job, j, now, heard, before) && W.BLOCK * j >= |job.data|
      ensures j == job.Blocks() == |heard| && job.Inv(link.w, j) && job.BytesOk(link.w.server.mem)
      ensures Load(link.w.server.mem, job.addr, |job.data|) == job.data
      ensures job.NoStray() ==> link.w.server.mem == Store(job.w0.server.mem, job.addr, job.data)
      ensures job.Outcome(true, heard) && link.events == before + job.Events(heard)
    {
      NoBlockLeft(job, j);
      InvBytes(job, link.w, j);
      hide job.Inv, job.LandedTo, job.BytesOk, job.Written, job.NoStray, job.Events, Load, Store;
      W.AllLanded(job, link.w.server.mem);
      Whole(job, link.w.server.mem);
    }

    /** One turn of the loop of remote_eth_write. */
    method WriteNext(cur: uint64, block: bytes, now: uint32, ghost job: W.Job, ghost j: nat,
                     ghost heard: seq<seq<Option<bytes>>>, ghost before: seq<Event>)
      returns (ok: bool, ghost heard': seq<seq<Option<bytes>>>)
      requires job.Valid() && job.Quiet() && j < job.Blocks() && Writing(job, j, now, heard, before)
      requires cur == job.BlockAddr(j) && block == job.BlockData(j)
      modifies this`seqNo, link`w, link`events
      ensures ok ==> Writing(job, j + 1, now, heard', before)
      ensures !ok ==> Stopped(job, heard', before)
    {
      hide job.Inv, job.Landed, job.LandedTo, job.Quiet, job.BytesOk, job.Req, job.BlockData;
      hide job.AllAcked, job.Outcome, job.Events, job.Blocks, job.BlockAddr, job.Valid, W.Tried, W.Acked, Tries, NextSeq;
      BlockFits(job, j);
      ghost var h;
      ok, h := WriteBlock(cur, block, |block|, now, job, j);
      InvBytesEither(job, link.w, j);
      OneMoreBlock(job, heard, j, h, ok, before);
      heard' := heard + [h];
      NextSeqOk(job, j, now);
    }

    /** Behind block j the next sequence number is that of block j + 1. */
    lemma NextSeqOk(job: W.Job, j: nat, now: uint32)
      requires job.Valid() && seqNo == job.first + j
      ensures j + 1 < job.Blocks() ==> NextSeq(now) == job.first + (j + 1)
    {
    }

    /** remote_eth_read_block: the bytes go to buf[p..p + len]. */
    method ReadBlock(addr: uint64, buf: array<byte>, p: nat, len: int, ghost job: R.Job, ghost off: nat)
      returns (ok: bool, ghost heard: seq<Option<bytes>>)
      requires job.Valid() && job.Quiet() && job.tails == link.tails && job.Inv(link.w)
      requires 0 <= len && p + len <= buf.Length
      requires off + len <= job.len && addr == (job.addr + off) % TWO_64
      modifies buf, link`w, link`events
      ensures job.Inv(link.w)
      ensures ok ==> buf[p..p + len] == Load(job.w0.server.mem, job.addr, job.len)[off..off + len]
      ensures buf[..p] == old(buf[..p]) && buf[p + len..] == old(buf[p + len..])
      ensures len > W.BLOCK ==> !ok && link.events == old(link.events)
      ensures len <= W.BLOCK ==> link.events == old(link.events) + Tries(R.ReadRequest(addr, len), heard)
      ensures len <= W.BLOCK ==> R.Asked(heard, len) && (ok <==> R.Taken(heard, addr, len))
    {
      hide job.Inv, job.Quiet, Tries, R.Judge, R.ReadRequest, Unheeded, UpToThree, Last, Load;
      if len < 0 || len > 1400 { return false, []; }
      var request := R.ReadRequest(addr, len);
      ok, heard := false, [];
      NoTries(request, R.Ends(len));
      var retry := 3;
      while retry != 0
        invariant 0 <= retry <= 3 && |heard| == 3 - retry
        invariant job.Inv(link.w)
        invariant buf[..] == old(buf[..])
        invariant Unheeded(heard, R.Ends(len))
        invariant link.events == old(link.events) + Tries(request, heard)
      {
        retry := retry - 1;
        var reply := ReadAttempt(request, addr, len, job);
        TriesSnoc(request, heard, reply);
        OneMoreWait(heard, R.Ends(len), reply);
        heard := heard + [reply];
        if reply.Some? {
          if |reply.value| == 0 { return false, heard; }
          var v := R.Judge(reply.value, len);
          if v.Again? { continue; }
          if v.Reject? || v.addr != addr { return false, heard; }
          R.AcceptedIsMemory(job, link.w, reply.value, off, len);
          CopyInto(buf, p, v.data);
          return true, heard;
        }
      }
      ThreeWaits(heard, R.Ends(len));
    }

    /** One round: send, let the environment run, see whether a reply arrives. */
    method ReadAttempt(request: bytes, addr: uint64, len: nat, ghost job: R.Job) returns (reply: Option<bytes>)
      requires job.Valid() && job.Quiet() && job.tails == link.tails && job.Inv(link.w)
      requires request == R.ReadRequest(addr, len)
      modifies link`w, link`events
      ensures job.Inv(link.w)
      ensures link.events == old(link.events) + [Sent(request), Heard(reply)]
      ensures reply.Some? ==> reply.value in link.w.replies
    {
      link.Send(request);
      ghost var w := link.w;
      ghost var ds := link.Idle();
      R.RunKeepsInv(job, w, ds);
      reply := link.Receive();
    }

    /** remote_eth_read. In every run, if it succeeds the buffer holds memory [addr, addr + len), wrapping at 4 GiB,
        for every len; nothing else in the buffer changes. It succeeds exactly when every block hears an answer for its
        address and of its length before any other reply that ends its at most three tries. */
    method Read(addr: uint64, buf: array<byte>, len: int) returns (ok: bool, ghost heard: seq<seq<Option<bytes>>>)
      requires len <= buf.Length && len < 0x8000_0000
      requires ReadJob(addr, len).Quiet()
      modifies buf, link`w, link`events
      ensures ok && len >= 0 ==> buf[..len] == Load(link.w.server.mem, addr, len) == old(Load(link.w.server.mem, addr, len))
      ensures len >= 0 ==> buf[len..] == old(buf[len..])
      ensures len < 0 ==> buf[..] == old(buf[..])
      ensures var span := R.Span(addr, if len < 0 then 0 else len);
              span.Outcome(ok, heard) && link.events == old(link.events) + span.Events(heard)
    {
      hide Reading, ReadFailed, R.Job.Quiet, R.Job.Inv, Load;
      hide R.Span.Outcome, R.Span.Events, R.Span.Blocks, R.Span.BlockLen, R.Span.BlockAddr, R.Span.AllTaken;
      ghost var n: nat := if len < 0 then 0 else len;
      ghost var job := ReadJob(addr, len);
      ghost var before := link.events;
      ReadBegin(job);
      ghost var all := Load(link.w.server.mem, addr, n);
      ghost var was := buf[..];
      var cur, left, p := addr, len, 0;
      ghost var j := 0;
      heard := [];
      while left >= 1400
        invariant 0 <= p == W.BLOCK * j && left == len - p && (len >= 0 ==> 0 <= left)
        invariant len < 0 ==> p == 0
        invariant cur == job.Range().BlockAddr(j)
        invariant p <= n && buf[..p] == all[..p]
        invariant buf[n..] == was[n..]
        invariant Reading(job, j, heard, before)
        decreases left
      {
        var sz := 1400;
        ReadBlockAt(job.Range(), j);
        ok, heard := ReadNext(cur, buf, p, sz, job, j, heard, before, all);
        if !ok {
          ReadStopped(job, heard, before);
          return;
        }
        cur, p, left := (cur + sz) % TWO_64, p + sz, left - sz;
        j := j + 1;
      }
      if left > 0 {
        ReadBlockAt(job.Range(), j);
        ok, heard := ReadNext(cur, buf, p, left, job, j, heard, before, all);
        if !ok {
          ReadStopped(job, heard, before);
          return;
        }
        j := j + 1;
      }
      ok := true;
      ReadDone(job, j, heard, before);
    }

    /** The first j blocks of a call are done. */
    ghost predicate Reading(job: R.Job, j: nat, heard: seq<seq<Option<bytes>>>, before: seq<Event>)
      reads link
    {
      && j <= job.Range().Blocks() && job.Valid() && job.Quiet() && job.tails == link.tails && job.Inv(link.w)
      && job.Range().AllTaken(heard, j) && link.events == before + job.Range().Events(heard)
    }

    ghost predicate ReadFailed(job: R.Job, heard: seq<seq<Option<bytes>>>, before: seq<Event>)
      reads link
    {
      job.Range().Outcome(false, heard) && link.events == before + job.Range().Events(heard)
    }

    lemma ReadBegin(job: R.Job)
      requires job.Valid() && job.Quiet() && job.w0 == link.w && job.tails == link.tails
      ensures Reading(job, 0, [], link.events) && job.Range().BlockAddr(0) == job.addr
    {
      ReadStart(job);
    }

    lemma ReadStopped(job: R.Job, heard: seq<seq<Option<bytes>>>, before: seq<Event>)
      requires ReadFailed(job, heard, before)
      ensures |heard| <= job.Range().Blocks() && job.Range().Outcome(false, heard) && link.events == before + job.Range().Events(heard)
    {
    }

    lemma ReadDone(job: R.Job, j: nat, heard: seq<seq<Option<bytes>>>, before: seq<Event>)
      requires Reading(job, j, heard, before) && W.BLOCK * j >= job.len
      ensures |heard| <= job.Range().Blocks() && job.Range().Outcome(true, heard) && link.events == before + job.Range().Events(heard)
      ensures Load(link.w.server.mem, job.addr, job.len) == Load(job.w0.server.mem, job.addr, job.len)
    {
      AllRead(job.Range(), heard, j);
      ReadSame(job, link.w);
      SameLoad(job, link.w.server.mem);
    }

    /** One turn of the loop of remote_eth_read. */
    method ReadNext(cur: uint64, buf: array<byte>, p: nat, len: nat, ghost job: R.Job, ghost j: nat,
                    ghost heard: seq<seq<Option<bytes>>>, ghost before: seq<Event>, ghost all: bytes)
      returns (ok: bool, ghost heard': seq<seq<Option<bytes>>>)
      requires j < job.Range().Blocks() && Reading(job, j, heard, before)
      requires p == W.BLOCK * j && len == job.Range().BlockLen(j) && cur == job.Range().BlockAddr(j)
      requires p + len <= job.len <= buf.Length
      requires all == Load(job.w0.server.mem, job.addr, job.len) && buf[..p] == all[..p]
      modifies buf, link`w, link`events
      ensures buf[job.len..] == old(buf[job.len..])
      ensures ok ==> Reading(job, j + 1, heard', before) && buf[..p + len] == all[..p + len]
      ensures !ok ==> ReadFailed(job, heard', before)
    {
      ReadBlockAt(job.Range(), j);
      hide job.Inv, job.Quiet, R.Span.AllTaken, R.Span.Outcome, R.Span.Events, R.Span.Blocks, R.Span.BlockLen, Load;
      hide R.Asked, R.Taken, R.ReadRequest, Tries;
      ghost var h;
      ghost var pre := buf[..];
      ok, h := ReadBlock(cur, buf, p, len, job, p);
      Tail(buf[..], pre, p + len, job.len);
      OneMoreRead(job.Range(), heard, j, h, ok, before);
      heard' := heard + [h];
      if ok {
        assert buf[..p + len] == buf[..p] + buf[p..p + len];
        assert all[..p + len] == all[..p] + all[p..p + len];
      }
    }

    /** The call remote_eth_read(addr, buf, len) as it starts. */
    ghost function ReadJob(addr: uint64, len: int): R.Job
      reads this, link
    {
      R.Job(link.w, addr, if len < 0 then 0 else len, link.tails)
    }

    /** What is written is what is read back, over any network that held nothing before, however many stale copies of
        the WRITE requests are still delivered during the READ. */
    method WriteThenRead(addr: uint64, buf: bytes, out: array<byte>, now: uint32)
      returns (ok: bool, ghost acks: seq<seq<Option<bytes>>>, ghost answers: seq<seq<Option<bytes>>>)
      requires |buf| == out.Length
      requires link.w.requests == {} && link.w.replies == {}
      requires WriteJob(addr, buf, |buf|, now).Valid()
      modifies this`seqNo, link`w, link`events, out
      ensures ok ==> out[..] == buf
      ensures var write, read := old(WriteJob(addr, buf, |buf|, now)), R.Span(addr, |buf|);
              && (ok <==> write.Outcome(true, acks) && read.Outcome(true, answers))
              && |acks| <= write.Blocks() && |answers| <= read.Blocks()
              && link.events == old(link.events) + write.Events(acks) + read.Events(answers)
    {
      ghost var job := WriteJob(addr, buf, |buf|, now);
      ghost var read := R.Span(addr, |buf|);
      assert buf[..|buf|] == buf;
      answers := [];
      ok, acks := Write(addr, buf, |buf|, now);
      if !ok {
        NotBoth(job, acks);
        assert read.Events([]) == [];
        return;
      }
      InRange(job, link.w.server.mem);
      R.QuietAfterWrite(job, link.w);
      ok, answers := Read(addr, out, |buf|);
      if !ok { NotBothRead(read, answers); }
      assert out[..] == out[..|buf|];
    }

    /** remote_eth_exec. With no older EXEC in flight, and whatever may lie behind its datagram giving one sequence
        number, the code runs at most once in every run; when also nothing else in flight answers "OK", success means it
        was served. Both conditions are exact: E.AtMostOnceIff and E.AnswerMeansServedIff. */
    method Exec(addr: uint64, now: uint32) returns (ok: bool, ghost heard: seq<Option<bytes>>)
      requires E.OneNumber(now, link.tails)
      requires E.Job(link.w, addr, now, link.tails).NoOlderExec()
      modifies link`w, link`events
      ensures var job := old(E.Job(link.w, addr, now, link.tails));
              && (link.w.server.log == old(link.w.server.log) || link.w.server.log == job.Served())
              && (ok && job.NoOlderOk() ==> link.w.server.log == job.Served())
      ensures link.events == old(link.events) + Tries(E.ExecRequest(addr, now), heard)
      ensures UpToThree(heard, E.Heeded) && (ok <==> Last(heard).Some? && Starts(Last(heard).value, OK))
    {
      ghost var job := E.Job(link.w, addr, now, link.tails);
      var request := E.ExecRequest(addr, now);
      E.InvStart(job);
      hide Tries, job.Inv, E.ExecRequest, Unheeded, UpToThree, Last, E.OneNumber, job.NoOlderExec, job.NoOlderOk, job.Served;
      ok, heard := false, [];
      NoTries(request, E.Heeded);
      var retry := 3;
      while retry != 0
        invariant 0 <= retry <= 3 && |heard| == 3 - retry
        invariant job.Inv(link.w)
        invariant Unheeded(heard, E.Heeded)
        invariant link.events == old(link.events) + Tries(request, heard)
      {
        retry := retry - 1;
        var reply := ExecAttempt(request, job);
        TriesSnoc(request, heard, reply);
        OneMoreWait(heard, E.Heeded, reply);
        heard := heard + [reply];
        if reply.Some? {
          E.InvMeans(job, link.w, reply.value);
          if |reply.value| == 0 { return false, heard; }
          if Starts(reply.value, OK) { return true, heard; }
        }
      }
      ThreeWaits(heard, E.Heeded);
      E.InvMeans(job, link.w, []);
    }

    /** One round: send, let the environment run, see whether a reply arrives. */
    method ExecAttempt(request: bytes, ghost job: E.Job) returns (reply: Option<bytes>)
      requires E.OneNumber(job.seqNo, job.tails) && job.NoOlderExec() && job.tails == link.tails && job.Inv(link.w)
      requires request == job.Req()
      modifies link`w, link`events
      ensures job.Inv(link.w)
      ensures link.events == old(link.events) + [Sent(request), Heard(reply)]
      ensures reply.Some? ==> reply.value in link.w.replies
    {
      hide Network.Run, E.ExecRequest, E.OneNumber, job.NoOlderExec, job.NoOlderOk, job.Served, job.Seen;
      link.Send(request);
      ghost var w := link.w;
      ghost var ds := link.Idle();
      E.RunKeepsInv(job, w, ds);
      reply := link.Receive();
    }
  }

  lemma NoTries(request: bytes, ends: bytes -> bool)
    ensures Tries(request, []) == [] && Unheeded([], ends)
  {
  }

  lemma NextBlockAddr(job: W.Job, j: nat)
    ensures (job.BlockAddr(j) + 1400) % TWO_64 == job.BlockAddr(j + 1)
  {
    WrapAdd(job.addr, W.BLOCK * j, 1400);
  }

  lemma BlockFits(job: W.Job, j: nat)
    requires j < job.Blocks()
    ensures 0 <= |job.BlockData(j)| <= W.BLOCK
  {
  }

  lemma NothingHeard(job: W.Job)
    requires job.Valid()
    ensures job.AllAcked([], 0) && job.Events([]) == []
  {
  }

  /** Block j has been tried, and is acknowledged or ends the call. */
  lemma OneMoreBlock(job: W.Job, heard: seq<seq<Option<bytes>>>, j: nat, h: seq<Option<bytes>>, ok: bool, before: seq<Event>)
    requires job.Valid() && j < job.Blocks() && job.AllAcked(heard, j)
    requires W.Tried(h) && (ok <==> W.Acked(h, job.BlockAddr(j), job.first + j))
    ensures |heard + [h]| <= job.Blocks()
    ensures (before + job.Events(heard)) + Tries(job.Req(j), h) == before + job.Events(heard + [h])
    ensures ok ==> job.AllAcked(heard + [h], j + 1)
    ensures !ok ==> job.Outcome(false, heard + [h])
  {
    hide W.Tried, W.Acked, Tries, job.Req;
    assert (heard + [h])[..j] == heard;
  }

  /** A call does not both fail and succeed on what it heard. */
  lemma NotBoth(job: W.Job, heard: seq<seq<Option<bytes>>>)
    requires job.Valid() && job.Outcome(false, heard)
    ensures !job.Outcome(true, heard)
  {
    hide W.Tried, W.Acked, W.Job.BlockAddr, W.Job.Blocks;
  }

  lemma NotBothRead(span: R.Span, heard: seq<seq<Option<bytes>>>)
    requires span.Outcome(false, heard)
    ensures !span.Outcome(true, heard)
  {
    hide R.Asked, R.Taken, R.Span.BlockAddr, R.Span.BlockLen, R.Span.Blocks;
  }

  lemma AllHeard(job: W.Job, heard: seq<seq<Option<bytes>>>)
    requires job.Valid() && job.AllAcked(heard, job.Blocks())
    ensures job.Outcome(true, heard)
  {
  }

  lemma InvStart(job: W.Job)
    requires job.Valid() && job.Quiet()
    ensures job.Inv(job.w0, 0) && job.BytesOk(job.w0.server.mem) && job.LandedTo(job.w0.server.mem, 0)
    ensures job.BlockAddr(0) == job.addr
  {
    hide job.Harmless;
  }

  /** The bytes from offset BLOCK * j on are block j, the last one when they fit it. */
  lemma BlockAt(job: W.Job, buf: bytes, len: int, j: nat)
    requires 0 <= len <= |buf| && job.data == buf[..len] && W.BLOCK * j < len
    ensures j < job.Blocks()
    ensures var n := if len - W.BLOCK * j > W.BLOCK then W.BLOCK else len - W.BLOCK * j;
            buf[W.BLOCK * j..W.BLOCK * j + n] == job.BlockData(j)
  {
  }

  lemma NoBlockLeft(job: W.Job, j: nat)
    requires j <= job.Blocks() && W.BLOCK * j >= |job.data|
    ensures j == job.Blocks()
  {
  }

  lemma InvBytes(job: W.Job, w: World, k: nat)
    requires job.Valid() && job.Inv(w, k)
    ensures job.BytesOk(w.server.mem)
  {
    hide job.BytesOk;
  }

  lemma InvBytesEither(job: W.Job, w: World, j: nat)
    requires job.Valid() && (job.Inv(w, j) || job.Inv(w, j + 1))
    ensures job.BytesOk(w.server.mem)
  {
    hide job.BytesOk;
  }

  /** Sending block j, or failing to, extends the invariant to j + 1 blocks. */
  lemma AddBlock(job: W.Job, w: World, request: bytes, j: nat)
    requires job.Valid() && j < job.Blocks() && request == job.Req(j)
    requires job.Inv(w, j) || job.Inv(w, j + 1)
    ensures job.Inv(w, j + 1) && job.Inv(w.(requests := w.requests + {request}), j + 1)
  {
    hide W.Echo, W.WriteRequest;
  }

  lemma WrapAdd(a: nat, b: nat, c: nat)
    ensures ((a + b) % TWO_64 + c) % TWO_64 == (a + (b + c)) % TWO_64
  {
    var q := (a + b) / TWO_64;
    var r := (a + b) % TWO_64;
    assert a + (b + c) == TWO_64 * q + (r + c);
    var s := (r + c) / TWO_64;
    assert r + c == TWO_64 * s + (r + c) % TWO_64;
    assert a + (b + c) == TWO_64 * (q + s) + (r + c) % TWO_64;
  }

  /** With every byte of the range written, memory loads back as the buffer; with no stray WRITE it is the store. */
  lemma Whole(job: W.Job, m: Memory)
    requires job.Valid() && job.BytesOk(m) && job.Written(m)
    ensures Load(m, job.addr, |job.data|) == job.data
    ensures job.NoStray() ==> m == Store(job.w0.server.mem, job.addr, job.data)
  {
    hide Load, Store, job.NoStray, job.BytesOk, job.Written;
    LoadsBack(job, m);
    if job.NoStray() { IsStore(job, m); }
  }

  lemma LoadsBack(job: W.Job, m: Memory)
    requires job.Valid() && job.Written(m)
    ensures Load(m, job.addr, |job.data|) == job.data
  {
    forall i | 0 <= i < |job.data|
      ensures m[(job.addr + i) % TWO_32] == job.data[i]
    {
      DistanceInverse(job.addr, i);
    }
  }

  lemma IsStore(job: W.Job, m: Memory)
    requires job.Valid() && job.BytesOk(m) && job.Written(m) && job.NoStray()
    ensures m == Store(job.w0.server.mem, job.addr, job.data)
  {
    hide job.Stray;
    var s := Store(job.w0.server.mem, job.addr, job.data);
    forall a | 0 <= a < TWO_32
      ensures m[a] == s[a]
    {
      assert job.ByteOk(m, a);
    }
  }

  lemma InRange(job: W.Job, m: Memory)
    requires job.Valid() && Load(m, job.addr, |job.data|) == job.data
    ensures job.Written(m)
  {
    forall a: uint32 | Distance(job.addr, a) < |job.data|
      ensures m[a] == job.data[Distance(job.addr, a)]
    {
      var i := Distance(job.addr, a);
      DistanceInverse(job.addr, i);
      DistanceInjective(job.addr, a, (job.addr + i) % TWO_32);
      assert Load(m, job.addr, |job.data|)[i] == m[(job.addr + i) % TWO_32];
    }
  }

  /** The bytes from offset BLOCK * j on are block j. */
  lemma ReadBlockAt(span: R.Span, j: nat)
    ensures span.BlockAddr(j) == (span.addr + W.BLOCK * j) % TWO_64
    ensures (span.BlockAddr(j) + 1400) % TWO_64 == span.BlockAddr(j + 1)
    ensures W.BLOCK * j < span.len <==> j < span.Blocks()
    ensures W.BLOCK * j < span.len ==> span.BlockLen(j) == Min(W.BLOCK, span.len - W.BLOCK * j)
  {
    WrapAdd(span.addr, W.BLOCK * j, 1400);
  }

  lemma OneMoreRead(span: R.Span, heard: seq<seq<Option<bytes>>>, j: nat, h: seq<Option<bytes>>, ok: bool, before: seq<Event>)
    requires j < span.Blocks() && span.AllTaken(heard, j)
    requires R.Asked(h, span.BlockLen(j))
    requires ok <==> R.Taken(h, span.BlockAddr(j), span.BlockLen(j))
    ensures |heard + [h]| <= span.Blocks()
    ensures (before + span.Events(heard)) + Tries(R.ReadRequest(span.BlockAddr(j), span.BlockLen(j)), h) ==
              before + span.Events(heard + [h])
    ensures ok ==> span.AllTaken(heard + [h], j + 1)
    ensures !ok ==> span.Outcome(false, heard + [h])
  {
    hide R.Asked, R.Taken, Tries, R.ReadRequest;
    assert (heard + [h])[..j] == heard;
  }

  lemma AllRead(span: R.Span, heard: seq<seq<Option<bytes>>>, j: nat)
    requires span.AllTaken(heard, j) && W.BLOCK * j >= span.len
    ensures span.Outcome(true, heard)
  {
    assert j == span.Blocks();
  }

  lemma ReadStart(job: R.Job)
    requires job.Quiet()
    ensures job.Inv(job.w0) && job.Range().AllTaken([], 0) && job.Range().Events([]) == [] && job.Range().BlockAddr(0) == job.addr
  {
  }

  lemma ReadSame(job: R.Job, w: World)
    requires job.Inv(w)
    ensures job.Same(w.server.mem)
  {
  }

  lemma SameLoad(job: R.Job, m: Memory)
    requires job.Valid() && job.Same(m)
    ensures Load(m, job.addr, job.len) == Load(job.w0.server.mem, job.addr, job.len)
  {
    forall i | 0 <= i < job.len
      ensures Load(m, job.addr, job.len)[i] == Load(job.w0.server.mem, job.addr, job.len)[i]
      ensures m[(job.addr + i) % TWO_32] == job.w0.server.mem[(job.addr + i) % TWO_32]
    {
      DistanceInverse(job.addr, i);
    }
  }

  lemma Tail(now: bytes, before: bytes, from: nat, n: nat)
    requires |now| == |before| && from <= n <= |now|
    ensures now[from..] == before[from..] ==> now[n..] == before[n..]
  {
    if now[from..] == before[from..] {
      assert now[n..] == now[from..][n - from..];
      assert before[n..] == before[from..][n - from..];
    }
  }

  /** memcpy(buf, data, len) into the caller's buffer. */
  method CopyInto(buf: array<byte>, p: nat, data: bytes)
    requires p + |data| <= buf.Length
    modifies buf
    ensures buf[..] == old(buf[..p]) + data + old(buf[p + |data|..])
  {
    for i := 0 to |data|
      invariant forall k :: 0 <= k < i ==> buf[p + k] == data[k]
      invariant forall k :: 0 <= k < buf.Length && !(p <= k < p + i) ==> buf[k] == old(buf[k])
    {
      buf[p + i] := data[i];
    }
    assert buf[p..p + |data|] == data;
    assert buf[..] == buf[..p] + buf[p..p + |data|] + buf[p + |data|..];
  }
}
