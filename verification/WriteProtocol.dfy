/** remote_eth_write over a network that loses, duplicates and reorders: the messages, the invariant every delivery
    keeps, and what an acknowledgement proves about target memory. */
module WriteProtocol {
  import opened Words
  import opened Numerals
  import opened DebugServer
  import opened Network

  const BLOCK: nat := 1400
  const RECV_MAX: nat := 2199   // sizeof(recv_buf) - 1

  // ---------- the messages ----------

  function WriteRequest(addr: uint64, seqNo: uint32, data: bytes): bytes
  {
    WRITE + (Hex(addr) + ([SPACE] + (Hex(seqNo) + ([LF] + data))))
  }

  /** The server reads back exactly what the client meant, whatever lies behind the datagram. */
  lemma WriteRequestParses(addr: uint64, seqNo: uint32, data: bytes, tail: bytes)
    ensures Parse(WriteRequest(addr, seqNo, data), tail) == Write(addr % TWO_32, seqNo, data)
  {
    hide TwoFields, Hex;
    var req := WriteRequest(addr, seqNo, data);
    var s3 := [LF] + data;
    WriteRequestStarts(addr, seqNo, data);
    FieldsOfPrinted(addr, seqNo, s3 + tail);
    assert req[5..] + tail == [SPACE] + (Hex(addr) + ([SPACE] + (Hex(seqNo) + (s3 + tail)))) by {
      hide Hex;
      assert req[5..] == [SPACE] + (Hex(addr) + ([SPACE] + (Hex(seqNo) + s3)));
    }
    assert (s3 + tail)[..|s3 + tail| - |tail|] == s3;
    assert s3[1..] == data;
  }

  /** Two printed numbers, a space in front of each, parse back modulo 2^32. */
  lemma FieldsOfPrinted(x: nat, y: nat, rest: bytes)
    requires !StartsHex(rest)
    requires y == 0 ==> rest == [] || rest[0] != 120
    ensures var s := Hex(x) + ([SPACE] + (Hex(y) + rest));
            TwoFields(s) == (x % TWO_32, y % TWO_32, rest) && TwoFields([SPACE] + s) == TwoFields(s)
  {
    hide HexField, SkipSpaces, Hex;
    var s1 := [SPACE] + (Hex(y) + rest);
    PrintedIsNoSpace(x);
    PrintedIsNoSpace(y);
    SkipSpacesStops(Hex(x) + s1);
    HexFieldOfPrinted(x, s1);
    SkipSpacesStops(Hex(y) + rest);
    HexFieldOfPrinted(y, rest);
  }

  /** A WRITE without its newline stores nothing; but when a hex digit lies behind it the number parser runs past the end
      of the datagram, and the byte count wraps. */
  lemma BareWriteOverrunsIff(addr: uint64, seqNo: uint32, tail: bytes)
    requires seqNo != 0
    ensures var q := Parse(WRITE + (Hex(addr) + ([SPACE] + Hex(seqNo))), tail);
            if StartsHex(tail) then q.Overrun? else q == Write(addr % TWO_32, seqNo, [])
  {
    hide HexField, SkipSpaces, Hex;
    var req := WRITE + (Hex(addr) + ([SPACE] + Hex(seqNo)));
    var rest := [SPACE] + (Hex(seqNo) + tail);
    assert req[..6] == WRITE && req[..4][0] == req[0] == 87 && req[..5][0] == req[0];
    assert req[5..] + tail == [SPACE] + (Hex(addr) + rest) by {
      assert req[5..] == [SPACE] + (Hex(addr) + ([SPACE] + Hex(seqNo)));
    }
    PrintedIsNoSpace(addr);
    PrintedIsNoSpace(seqNo);
    SkipSpacesStops(Hex(addr) + rest);
    HexFieldOfPrinted(addr, rest);
    SkipSpacesStops(Hex(seqNo) + tail);
    if StartsHex(tail) {
      FieldRunsOn(seqNo, tail);
    } else {
      HexFieldOfPrinted(seqNo, tail);
      assert tail[..|tail| - |tail|] == [];
    }
  }

  /** Hex digits behind a number are consumed with it. */
  lemma FieldRunsOn(x: nat, tail: bytes)
    requires x != 0 && StartsHex(tail)
    ensures |HexField(Hex(x) + tail).1| < |tail|
  {
    hide Print, Val;
    PrintHead(x);
    PrintVal(Sixteen, x);
    var n := DigitRun(Sixteen, tail);
    var digits := Hex(x) + tail[..n];
    assert digits + tail[n..] == Hex(x) + tail;
    assert AllHex(digits) && digits[0] == Hex(x)[0];
    HexFieldOf(digits, tail[n..]);
  }

  lemma WriteRequestStarts(addr: uint64, seqNo: uint32, data: bytes)
    ensures var req := WriteRequest(addr, seqNo, data);
            Starts(req, WRITE) && !Starts(req, TEST) && !Starts(req, READ)
  {
    var req := WriteRequest(addr, seqNo, data);
    assert req[0] == WRITE[0] && req[..4][0] == req[0] && req[..5][0] == req[0];
  }

  /** A request of a block fits one UDP datagram of at most 1500 bytes of IP. */
  lemma WriteRequestFits(addr: uint64, seqNo: uint32, data: bytes)
    requires |data| <= BLOCK
    ensures 20 + 8 + |WriteRequest(addr, seqNo, data)| <= 1500
  {
    Pow16Eight();
    PrintShort(addr, 16, TWO_64);
    PrintShort(seqNo, 8, TWO_32);
  }

  /** The address and the sequence number remote_eth_write_block reads from a reply; None when it does not start
      with "OK ". */
  function Echo(r: bytes): Option<(uint64, uint64)>
  {
    var b := r[..Min(|r|, RECV_MAX)];
    if !Starts(b, OK) then None
    else
      var (a, p) := Strtoull(b[3..]);
      Some((a, Strtoull(SkipSpaces(p)).0))
  }

  lemma EchoOfWriteReply(addr: uint32, seqNo: uint32)
    ensures Echo(WriteReply(addr, seqNo)) == Some((addr, seqNo))
  {
    var r := WriteReply(addr, seqNo);
    var rest := [SPACE] + Hex8(seqNo);
    assert r == OK + (Hex8(addr) + rest);
    assert r[..Min(|r|, RECV_MAX)] == r && r[3..] == Hex8(addr) + rest;
    StrtoullOfHex8(addr, rest);
    Hex8Head(seqNo);
    SkipSpacesStops(Hex8(seqNo));
    StrtoullOfHex8(seqNo, []);
    assert Hex8(seqNo) + [] == Hex8(seqNo);
  }

  lemma Hex8Length(x: uint32)
    ensures |Hex8(x)| == 8
  {
  }

  lemma Hex8Head(x: uint32)
    ensures IsHex(Hex8(x)[0]) && Hex8(x)[0] != SPACE
  {
    Pow16Eight();
    FixedVal(x, 8);
  }

  /** No other kind of reply carries a sequence number the client could take for one of its own: LOW, TEST and EXEC
      replies read as sequence number 0, an error reply does not read at all. */
  lemma EchoOfOtherReply(s: Server, q: Request)
    requires q.Test? || q.Low? || q.Exec? || q.Unknown?
    ensures var r := Reply(s, q).value; Echo(r).None? || Echo(r).value.1 == 0
  {
    hide Echo, Hex8;
    match q
    case Test => EchoOfTest();
    case Low => EchoOfLow(s.low);
    case Exec(_, seqNo) => EchoOfComplete(seqNo);
    case Unknown => EchoOfUnknown();
  }

  lemma EchoOfTest()
    ensures Echo(OK_X86).Some? && Echo(OK_X86).value.1 == 0
  {
    hide Echo, SkipSpaces, Strtoull;
    var text: bytes := [120, 56, 54, 45, 51, 50];
    assert OK_X86 == OK + text;
    StrtoullOfNoNumber(text);
    EchoOf(text);
    SkipSpacesStops(text);
  }

  lemma EchoOfLow(low: uint32)
    ensures Echo(OK + Hex8(low)) == Some((low, 0))
  {
    hide Echo, SkipSpaces, Strtoull, Hex8;
    Hex8Length(low);
    StrtoullOfHex8(low, []);
    assert Hex8(low) + [] == Hex8(low);
    EchoOf(Hex8(low));
    SkipSpacesStops([]);
    StrtoullOfNoNumber([]);
  }

  /** LOW reports the end of the debugger's memory. */
  lemma LowIsReported(s: Server, rest: bytes, tail: bytes)
    ensures var r := Reply(s, Parse(LOW + rest, tail)); r.Some? && Echo(r.value) == Some((s.low, 0))
  {
    hide Parse, Echo;
    ShortCommands(rest, tail);
    EchoOfLow(s.low);
  }

  lemma EchoOfUnknown()
    ensures Echo(ERR_UNKNOWN).None?
  {
    assert ERR_UNKNOWN[..Min(|ERR_UNKNOWN|, RECV_MAX)] == ERR_UNKNOWN;
    assert ERR_UNKNOWN[..3][0] == 69;
  }

  lemma EchoOf(text: bytes)
    requires |text| + 3 <= RECV_MAX
    ensures Echo(OK + text) == Some((Strtoull(text).0, Strtoull(SkipSpaces(Strtoull(text).1)).0))
  {
    hide Strtoull, SkipSpaces;
    var r := OK + text;
    assert r[..Min(|r|, RECV_MAX)] == r && r[..3] == OK && r[3..] == text;
  }

  /** "Complete" begins with a hex digit, C, and goes on with a letter that is none. */
  lemma EchoOfComplete(seqNo: uint32)
    ensures Echo(OK_COMPLETE + Hex8(seqNo)) == Some((12, 0))
  {
    hide Echo, SkipSpaces, Strtoull, Hex8;
    assert |Hex8(seqNo)| == 8 by { Hex8Length(seqNo); }
    var omplete := [111, 109, 112, 108, 101, 116, 101, 32] + Hex8(seqNo);
    var text := [67] + omplete;
    assert OK_COMPLETE == OK + ([67] + [111, 109, 112, 108, 101, 116, 101, 32]);
    assert OK_COMPLETE + Hex8(seqNo) == OK + text;
    StrtoullOfDigit(67, omplete);
    EchoOf(text);
    SkipSpacesStops(omplete);
    StrtoullOfNoNumber(omplete);
  }

  /** strtoul skips the newline of a READ reply: the memory bytes behind it are read as the sequence number. */
  lemma EchoOfReadReply(mem: Memory, addr: uint32, size: nat)
    ensures Echo(ReadReply(mem, addr, size)) == Some((addr, SpelledBy(mem, addr, size)))
  {
    hide Strtoull, Fixed, SkipSpaces, Load;
    var body := Load(mem, addr, Min(size, MAX_READ));
    var rest := [LF] + body;
    assert ReadReply(mem, addr, size) == OK + (Hex8(addr) + rest);
    EchoOf(Hex8(addr) + rest);
    StrtoullOfHex8(addr, rest);
    SkipSpacesStops(rest);
    StrtoullSkipsNewline(body);
  }

  /** The number that the bytes of a READ reply spell. */
  function SpelledBy(mem: Memory, addr: uint32, size: nat): uint64
  {
    Strtoull(Load(mem, addr, Min(size, MAX_READ))).0
  }

  /** The test remote_eth_write_block puts a reply to. */
  predicate Accepts(r: bytes, addr: uint64, seqNo: uint32)
  {
    r != [] && Echo(r) == Some((addr, seqNo))
  }

  /** The waits of one block: any reply ends them. */
  ghost predicate Tried(heard: seq<Option<bytes>>) { UpToThree(heard, Any) }

  predicate Any(r: bytes) { true }

  /** The waits of one block ended with a reply that passes it. */
  predicate Acked(heard: seq<Option<bytes>>, addr: uint64, seqNo: uint32)
  {
    Last(heard).Some? && Accepts(Last(heard).value, addr, seqNo)
  }

  /** The server's answer to a block passes the client's test exactly when the address of the block is below 4 GiB: the
      server echoes 32 bits of it. */
  lemma OwnAnswerAccepted(s: Server, addr: uint64, seqNo: uint32, data: bytes, tail: bytes)
    ensures var r := Reply(s, Parse(WriteRequest(addr, seqNo, data), tail));
            r.Some? && (Accepts(r.value, addr, seqNo) <==> addr < TWO_32)
  {
    hide Parse, WriteRequest, Echo;
    WriteRequestParses(addr, seqNo, data, tail);
    EchoOfWriteReply(addr % TWO_32, seqNo);
  }

  /** Why no READ may be in flight during a WRITE: exactly when a READ reply cannot be mistaken for an acknowledgement. */
  lemma ReadReplyHarmlessIff(job: Job, mem: Memory, addr: uint32, size: nat)
    ensures job.Harmless(ReadReply(mem, addr, size)) <==>
              !(job.first <= SpelledBy(mem, addr, size) < job.first + job.Blocks())
  {
    hide Echo, ReadReply, SpelledBy;
    EchoOfReadReply(mem, addr, size);
  }

  /** A READ reply is taken for the acknowledgement of block j exactly when it comes from the block's address and the
      bytes there spell the block's sequence number. */
  lemma ReadReplyForgesIff(job: Job, mem: Memory, addr: uint32, size: nat, j: nat)
    requires job.Valid() && j < job.Blocks()
    ensures Accepts(ReadReply(mem, addr, size), job.BlockAddr(j), job.first + j) <==>
              addr == job.BlockAddr(j) && SpelledBy(mem, addr, size) == job.first + j
  {
    hide Echo, SpelledBy;
    EchoOfReadReply(mem, addr, size);
  }

  /** A false acknowledgement for every call: put the sequence number of block j, spelled in hex, where the block is to
      go, and READ it. The reply passes the client's test, and unless the block itself begins with those characters it
      is not in memory. */
  lemma ForgedAck(job: Job, m: Memory, j: nat)
    requires job.Valid() && j < job.Blocks() && job.BlockAddr(j) < TWO_32
    ensures var spelled := Hex8(job.first + j);
            var mem := Store(m, job.BlockAddr(j), spelled);
            && Accepts(ReadReply(mem, job.BlockAddr(j), 8), job.BlockAddr(j), job.first + j)
            && var n := Min(8, |job.BlockData(j)|);
               job.BlockData(j)[..n] != spelled[..n] ==> !job.Landed(mem, j)
  {
    hide Echo, Store, Load, Fixed, Strtoull;
    var a := job.BlockAddr(j);
    var spelled := Hex8(job.first + j);
    var mem := Store(m, a, spelled);
    LoadStore(m, a, spelled);
    StrtoullOfHex8(job.first + j, []);
    assert spelled + [] == spelled;
    ReadReplyForgesIff(job, mem, a, 8, j);
    var n := Min(8, |job.BlockData(j)|);
    if job.BlockData(j)[..n] != spelled[..n] {
      var i :| 0 <= i < n && job.BlockData(j)[i] != spelled[i];
      StoreAt(m, a, spelled, i);
      NotLanded(job, mem, j, i);
    }
  }

  /** One byte out of place is enough. */
  lemma NotLanded(job: Job, m: Memory, j: nat, i: nat)
    requires job.Valid() && j < job.Blocks() && i < |job.BlockData(j)|
    requires m[(job.BlockAddr(j) + i) % TWO_32] != job.BlockData(j)[i]
    ensures !job.Landed(m, j)
  {
    var a := (job.BlockAddr(j) + i) % TWO_32;
    BlockDistance(job.addr, BLOCK * j, a);
    BlockByteAddress(job.addr, BLOCK * j, i);
    DistanceInverse(job.addr, BLOCK * j + i);
    assert Distance(job.addr, a) == BLOCK * j + i;
  }

  lemma BlockByteAddress(addr: uint64, off: nat, i: nat)
    ensures ((addr + off) % TWO_64 + i) % TWO_32 == (addr + (off + i)) % TWO_32
  {
    var h := (addr + off) / TWO_64;
    var t := (addr + off) % TWO_64;
    assert addr + (off + i) == (t + i) + TWO_32 * (TWO_32 * h);
    WrapMany(t + i, TWO_32 * h);
  }

  lemma WrapMany(x: nat, k: nat)
    ensures (x + TWO_32 * k) % TWO_32 == x % TWO_32
  {
    assert x == TWO_32 * (x / TWO_32) + x % TWO_32;
    assert x + TWO_32 * k == TWO_32 * (x / TWO_32 + k) + x % TWO_32;
  }

  /** No reply of the server exceeds 1500 bytes of IP. */
  lemma ReplyFits(s: Server, q: Request)
    ensures Reply(s, q).Some? ==> 20 + 8 + |Reply(s, q).value| <= 1500
  {
  }

  lemma Hex8NoNewline(x: uint32)
    ensures LF !in Hex8(x)
  {
    Pow16Eight();
    FixedVal(x, 8);
  }

  /** Only a READ reply contains a newline. */
  lemma ReplyNoNewline(s: Server, q: Request)
    requires q.Test? || q.Low? || q.Write? || q.Exec? || q.Unknown?
    ensures LF !in Reply(s, q).value
  {
    hide Fixed;
    if q.Write? { Hex8NoNewline(q.addr); }
    if q.Write? || q.Exec? { Hex8NoNewline(q.seqNo); }
    Hex8NoNewline(s.low);
  }

  // ---------- one call of remote_eth_write ----------

  /** A call: the world it starts in, its arguments, the sequence number of its first block, and what may lie behind a
      datagram in a packet buffer. */
  datatype Job = Job(w0: World, addr: uint64, data: bytes, first: nat, tails: bytes -> bool)
  {
    predicate Valid()
    {
      |data| < 0x8000_0000 && 1 <= first && first + Blocks() <= TWO_32
    }

    function Blocks(): nat { (|data| + BLOCK - 1) / BLOCK }

    function BlockAddr(j: nat): uint64 { (addr + BLOCK * j) % TWO_64 }

    function BlockEnd(j: nat): nat { Min(BLOCK * j + BLOCK, |data|) }

    function BlockData(j: nat): bytes
      requires j < Blocks()
    {
      data[BLOCK * j..BlockEnd(j)]
    }

    function Req(j: nat): bytes
      requires Valid() && j < Blocks()
    {
      WriteRequest(BlockAddr(j), first + j, BlockData(j))
    }

    /** Block j is in memory. */
    ghost predicate Landed(m: Memory, j: nat)
    {
      forall a: uint32 :: BLOCK * j <= Distance(addr, a) < BlockEnd(j) ==> m[a] == data[Distance(addr, a)]
    }

    /** A reply the client cannot take for the acknowledgement of any block of this call. */
    ghost predicate Harmless(r: bytes)
    {
      Echo(r).None? || !(first <= Echo(r).value.1 < first + Blocks())
    }

    /** A request in flight before the call: it may neither READ nor run code, and a WRITE must stay clear of this
        call's range and of its sequence numbers. */
    ghost predicate Compatible(q: Request)
    {
      && !q.Read? && !q.Overrun? && !q.Exec?
      && (q.Write? ==> !(first <= q.seqNo < first + Blocks()))
      && (q.Write? ==> forall a: uint32 :: Distance(addr, a) < |data| ==> Distance(q.addr, a) >= |q.data|)
    }

    /** The premises on what is in flight when the call starts. */
    ghost predicate Quiet()
    {
      && (forall r :: r in w0.replies ==> Harmless(r))
      && (forall d, tail :: d in w0.requests && |d| <= MAX_PAYLOAD && tails(tail) ==> Compatible(Parse(d, tail)))
    }

    /** A WRITE in flight before the call may change the byte at a. */
    ghost predicate Stray(a: uint32)
    {
      exists d, tail :: d in w0.requests && tails(tail) && StrayBy(d, tail, a)
    }

    ghost predicate StrayBy(d: bytes, tail: bytes, a: uint32)
    {
      Parse(d, tail).Write? && Distance(Parse(d, tail).addr, a) < |Parse(d, tail).data|
    }

    /** What may have happened to the byte at a: inside the range it is the old byte or the byte of the buffer;
        outside only an older WRITE can have changed it. */
    ghost predicate ByteOk(m: Memory, a: uint32)
    {
      if Distance(addr, a) < |data|
      then m[a] == w0.server.mem[a] || m[a] == data[Distance(addr, a)]
      else m[a] == w0.server.mem[a] || Stray(a)
    }

    ghost predicate BytesOk(m: Memory) { forall a: uint32 :: ByteOk(m, a) }

    /** Every byte of the range holds the buffer's. */
    ghost predicate Written(m: Memory)
    {
      forall a: uint32 :: Distance(addr, a) < |data| ==> m[a] == data[Distance(addr, a)]
    }

    ghost predicate NoStray() { forall a: uint32 :: !Stray(a) }

    /** The first k blocks are in memory. */
    ghost predicate LandedTo(m: Memory, k: nat) { forall j :: 0 <= j < k ==> Landed(m, j) }

    /** The invariant of the call when its first k blocks have been sent. */
    ghost predicate Inv(w: World, k: nat)
      requires Valid()
    {
      && k <= Blocks()
      && (forall d :: d in w.requests ==> d in w0.requests || exists j :: 0 <= j < k && d == Req(j))
      && (forall r :: r in w.replies ==> Harmless(r) || exists j :: 0 <= j < k && Acks(r, j) && Landed(w.server.mem, j))
      && (forall r :: r in w.replies ==> r in w0.replies || LF !in r)
      && BytesOk(w.server.mem)
    }

    /** The first k blocks were each sent up to three times until an acknowledgement of their own was heard. */
    ghost predicate AllAcked(heard: seq<seq<Option<bytes>>>, k: nat)
      requires Valid()
    {
      && |heard| == k <= Blocks()
      && forall j :: 0 <= j < k ==> Tried(heard[j]) && Acked(heard[j], BlockAddr(j), first + j)
    }

    /** What the answer of the call says about what was heard: all blocks acknowledged, or all but the last one tried. */
    ghost predicate Outcome(ok: bool, heard: seq<seq<Option<bytes>>>)
      requires Valid()
    {
      if ok then AllAcked(heard, Blocks())
      else
        && 0 < |heard| <= Blocks()
        && var j := |heard| - 1;
           AllAcked(heard[..j], j) && Tried(heard[j]) && !Acked(heard[j], BlockAddr(j), first + j)
    }

    /** Everything sent and heard for the blocks tried. */
    ghost function Events(heard: seq<seq<Option<bytes>>>): seq<Event>
      requires Valid() && |heard| <= Blocks()
      decreases |heard|
    {
      if heard == [] then []
      else var j := |heard| - 1; Events(heard[..j]) + Tries(Req(j), heard[j])
    }

    predicate Acks(r: bytes, j: nat)
    {
      Echo(r) == Some((BlockAddr(j) % TWO_32, first + j))
    }
  }

  /** A network that gets every request, or its third copy at the latest, to the server and the answer back makes the
      call succeed: what it then hears is not the hearing of a failed call. */
  lemma AnsweredCallSucceeds(job: Job, ss: seq<Server>, tails: seq<bytes>, heard: seq<seq<Option<bytes>>>)
    requires job.Valid() && job.addr + |job.data| <= TWO_32
    requires |ss| == |tails| == |heard| == job.Blocks()
    requires forall j :: 0 <= j < |heard| ==> AtLast(heard[j], Reply(ss[j], Parse(job.Req(j), tails[j])))
    ensures job.Outcome(true, heard) && !job.Outcome(false, heard)
  {
    hide Tried, Acked, AtLast, Reply, Parse, job.Req;
    forall j | 0 <= j < |heard|
      ensures Tried(heard[j]) && Acked(heard[j], job.BlockAddr(j), job.first + j)
    {
      AnsweredBlock(job, ss[j], tails[j], j, heard[j]);
    }
  }

  lemma AnsweredBlock(job: Job, s: Server, tail: bytes, j: nat, heard: seq<Option<bytes>>)
    requires job.Valid() && job.addr + |job.data| <= TWO_32 && j < job.Blocks()
    requires AtLast(heard, Reply(s, Parse(job.Req(j), tail)))
    ensures Tried(heard) && Acked(heard, job.BlockAddr(j), job.first + j)
  {
    hide Parse, Accepts, AtLast, UpToThree, Reply, Last, WriteRequest;
    var r := Reply(s, Parse(job.Req(j), tail));
    assert job.BlockAddr(j) < TWO_32;
    OwnAnswerAccepted(s, job.BlockAddr(j), job.first + j, job.BlockData(j), tail);
    AtLastEnds(heard, Any, r.value);
    AtLastIs(heard, r);
  }

  lemma AtLastIs(heard: seq<Option<bytes>>, reply: Option<bytes>)
    requires AtLast(heard, reply)
    ensures Last(heard) == reply
  {
  }

  // ---------- address arithmetic ----------

  /** Seen from a block's own address, a byte of the range lies its offset nearer. */
  lemma BlockDistance(addr: uint64, off: nat, a: uint32)
    requires off < TWO_32
    ensures var d := Distance(addr, a);
            Distance(((addr + off) % TWO_64) % TWO_32, a) == if d >= off then d - off else d - off + TWO_32
  {
    var d := Distance(addr, a);
    var k := (a - addr) / TWO_32;
    assert a == addr + TWO_32 * k + d;
    var t := (addr + off) % TWO_64;
    var h := (addr + off) / TWO_64;
    assert addr + off == TWO_64 * h + t;
    var l := t / TWO_32;
    var b := t % TWO_32;
    assert t == TWO_32 * l + b;
    assert a - b == TWO_32 * (k + l + TWO_32 * h) + (d - off);
    ModShift(d - off, k + l + TWO_32 * h);
  }

  lemma ModShift(x: int, k: int)
    requires 0 - TWO_32 < x < TWO_32
    ensures (TWO_32 * k + x) % TWO_32 == if x >= 0 then x else x + TWO_32
  {
  }

  /** What delivering block j does to the byte at a. */
  lemma BlockStore(job: Job, m: Memory, j: nat, a: uint32)
    requires job.Valid() && j < job.Blocks()
    ensures |job.BlockData(j)| <= BLOCK
    ensures var d := Distance(job.addr, a);
            Store(m, job.BlockAddr(j) % TWO_32, job.BlockData(j))[a] ==
            if BLOCK * j <= d < job.BlockEnd(j) then job.data[d] else m[a]
  {
    BlockDistance(job.addr, BLOCK * j, a);
  }

  // ---------- every delivery keeps the invariant ----------

  lemma DeliverOwnBlock(job: Job, w: World, k: nat, d: Delivery, i: nat)
    requires job.Valid() && job.Quiet() && job.Inv(w, k)
    requires i < k && d.data == job.Req(i) && |d.data| <= MAX_PAYLOAD
    ensures job.Inv(Deliver(w, d), k)
    ensures job.Landed(Deliver(w, d).server.mem, i)
  {
    hide Store, Echo, WriteRequest, Parse;
    var w' := Deliver(w, d);
    var m, m' := w.server.mem, w'.server.mem;
    WriteRequestParses(job.BlockAddr(i), job.first + i, job.BlockData(i), d.tail);
    EchoOfWriteReply(job.BlockAddr(i) % TWO_32, job.first + i);
    ReplyNoNewline(w.server, Parse(d.data, d.tail));
    forall a: uint32
      ensures m'[a] == if BLOCK * i <= Distance(job.addr, a) < job.BlockEnd(i) then job.data[Distance(job.addr, a)] else m[a]
    {
      BlockStore(job, m, i, a);
    }
    assert forall a: uint32 :: job.ByteOk(m, a) ==> job.ByteOk(m', a);
    assert job.Landed(m', i);
    assert forall j :: 0 <= j < k && job.Landed(m, j) ==> job.Landed(m', j);
    assert job.Acks(WriteReply(job.BlockAddr(i) % TWO_32, job.first + i), i);
    forall r | r in w'.replies
      ensures job.Harmless(r) || exists j :: 0 <= j < k && job.Acks(r, j) && job.Landed(m', j)
    {
      if r in w.replies && !job.Harmless(r) {
        var j :| 0 <= j < k && job.Acks(r, j) && job.Landed(m, j);
        assert job.Landed(m', j);
      }
    }
  }

  lemma DeliverOlder(job: Job, w: World, k: nat, d: Delivery)
    requires job.Valid() && job.Quiet() && job.Inv(w, k)
    requires d.data in job.w0.requests && job.tails(d.tail) && |d.data| <= MAX_PAYLOAD
    ensures job.Inv(Deliver(w, d), k)
  {
    hide Echo, Parse;
    var q := Parse(d.data, d.tail);
    var w' := Deliver(w, d);
    var m, m' := w.server.mem, w'.server.mem;
    assert job.Compatible(q);
    ParseFits(d.data, d.tail);
    var r := Reply(w.server, q).value;
    ReplyNoNewline(w.server, q);
    if q.Write? {
      EchoOfWriteReply(q.addr, q.seqNo);
      forall a: uint32
        ensures Distance(job.addr, a) < |job.data| ==> m'[a] == m[a]
        ensures job.ByteOk(m', a)
      {
        assert job.ByteOk(m, a);
        if Distance(q.addr, a) < |q.data| {
          assert job.StrayBy(d.data, d.tail, a);
        }
      }
      assert forall j :: 0 <= j < k && job.Landed(m, j) ==> job.Landed(m', j);
    } else {
      EchoOfOtherReply(w.server, q);
    }
    assert job.Harmless(r);
    assert w'.replies == w.replies + {r};
    forall x | x in w'.replies
      ensures job.Harmless(x) || exists j :: 0 <= j < k && job.Acks(x, j) && job.Landed(m', j)
    {
      if x in w.replies && !job.Harmless(x) {
        var j :| 0 <= j < k && job.Acks(x, j) && job.Landed(m, j);
        assert job.Landed(m', j);
      }
    }
  }

  /** Safety over whole runs: any schedule of deliveries keeps the invariant of the call. */
  lemma {:induction false} RunKeepsInv(job: Job, w: World, k: nat, ds: seq<Delivery>)
    requires job.Valid() && job.Quiet() && job.Inv(w, k)
    requires Schedulable(w.requests, job.tails, ds)
    ensures job.Inv(Run(w, ds), k)
    decreases |ds|
  {
    if ds != [] {
      var d := ds[0];
      if d.data in job.w0.requests {
        DeliverOlder(job, w, k, d);
      } else {
        var i :| 0 <= i < k && d.data == job.Req(i);
        DeliverOwnBlock(job, w, k, d, i);
      }
      RunKeepsInv(job, Deliver(w, d), k, ds[1..]);
    }
  }

  /** A reply that the client accepts for block j proves that the block is in memory. */
  lemma AckMeansLanded(job: Job, w: World, k: nat, r: bytes, j: nat)
    requires job.Valid() && job.Inv(w, k) && j < job.Blocks()
    requires r in w.replies && Accepts(r, job.BlockAddr(j), job.first + j)
    ensures job.Landed(w.server.mem, j)
  {
    hide Echo;
    assert !job.Harmless(r);
  }

  /** A block that landed stays landed in every later state of the call. */
  lemma {:induction false} LandedStays(job: Job, w: World, k: nat, ds: seq<Delivery>, j: nat)
    requires job.Valid() && job.Quiet() && job.Inv(w, k)
    requires Schedulable(w.requests, job.tails, ds)
    requires job.Landed(w.server.mem, j)
    ensures job.Landed(Run(w, ds).server.mem, j)
    decreases |ds|
  {
    if ds != [] {
      var d := ds[0];
      var m, m' := w.server.mem, Deliver(w, d).server.mem;
      if d.data in job.w0.requests {
        DeliverOlder(job, w, k, d);
        OlderLeavesRange(job, w, d);
      } else {
        var i :| 0 <= i < k && d.data == job.Req(i);
        DeliverOwnBlock(job, w, k, d, i);
        OwnBlockLeavesOthers(job, w, d, i);
      }
      LandedStays(job, Deliver(w, d), k, ds[1..], j);
    }
  }

  lemma OlderLeavesRange(job: Job, w: World, d: Delivery)
    requires job.Valid() && job.Quiet()
    requires d.data in job.w0.requests && job.tails(d.tail) && |d.data| <= MAX_PAYLOAD
    ensures forall a: uint32 :: Distance(job.addr, a) < |job.data| ==> Deliver(w, d).server.mem[a] == w.server.mem[a]
  {
    hide Parse;
    assert job.Compatible(Parse(d.data, d.tail));
  }

  lemma OwnBlockLeavesOthers(job: Job, w: World, d: Delivery, i: nat)
    requires job.Valid() && i < job.Blocks() && d.data == job.Req(i) && |d.data| <= MAX_PAYLOAD
    ensures forall a: uint32 :: var m, m' := w.server.mem, Deliver(w, d).server.mem;
      m'[a] == m[a] || (Distance(job.addr, a) < |job.data| && m'[a] == job.data[Distance(job.addr, a)])
  {
    hide Parse, WriteRequest, Store;
    WriteRequestParses(job.BlockAddr(i), job.first + i, job.BlockData(i), d.tail);
    forall a: uint32
      ensures var m, m' := w.server.mem, Deliver(w, d).server.mem;
        m'[a] == m[a] || (Distance(job.addr, a) < |job.data| && m'[a] == job.data[Distance(job.addr, a)])
    {
      BlockStore(job, w.server.mem, i, a);
    }
  }

  /** When every block has landed, the range holds the buffer. */
  lemma AllLanded(job: Job, m: Memory)
    requires job.Valid()
    requires job.LandedTo(m, job.Blocks())
    ensures job.Written(m)
  {
    forall a: uint32 | Distance(job.addr, a) < |job.data|
      ensures m[a] == job.data[Distance(job.addr, a)]
    {
      var d := Distance(job.addr, a);
      assert job.Landed(m, d / BLOCK);
    }
  }
}
