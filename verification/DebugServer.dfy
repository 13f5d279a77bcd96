/** The UDP command server of the Ethernet build: TEST, READ, WRITE, LOW and EXEC on port 777. */
module DebugServer {
  import opened Words
  import opened Numerals

  const TEST: bytes := [84, 69, 83, 84]
  const READ: bytes := [82, 69, 65, 68, 32]
  const WRITE: bytes := [87, 82, 73, 84, 69, 32]
  const LOW: bytes := [76, 79, 87]
  const EXEC: bytes := [69, 88, 69, 67, 32]
  const OK: bytes := [79, 75, 32]
  const OK_X86: bytes := OK + [120, 56, 54, 45, 51, 50]
  const OK_COMPLETE: bytes := OK + [67, 111, 109, 112, 108, 101, 116, 101, 32]
  const ERR_UNKNOWN: bytes :=
    [69, 82, 82, 32, 85, 110, 107, 110, 111, 119, 110, 32, 99, 111, 109, 109, 97, 110, 100]

  const MAX_READ: nat := 1400

  /** What a datagram asks for. */
  datatype Request =
    | Test
    | Read(addr: uint32, size: uint32)
    | Write(addr: uint32, seqNo: uint32, data: bytes)
    | Overrun        // a WRITE whose numbers run past the end of the datagram: the byte count wraps to almost 4 GiB
    | Low
    | Exec(addr: uint32, seqNo: uint32)
    | Unknown

  /** Target state: memory, exec_last_seq, the addresses called so far and the end of the debugger's own memory. */
  datatype Server = Server(mem: Memory, lastSeq: uint32, log: seq<uint32>, low: uint32)

  predicate Starts(data: bytes, word: bytes)
  {
    |data| >= |word| && data[..|word|] == word
  }

  /** The two hexadecimal fields of a command and what follows them. */
  function TwoFields(s: bytes): (uint32, uint32, bytes)
  {
    var (a, s1) := HexField(SkipSpaces(s));
    var (b, s2) := HexField(SkipSpaces(s1));
    (a, b, s2)
  }

  /** Everything after the first newline, or nothing when there is none. */
  function AfterNewline(s: bytes): (r: bytes)
    ensures |r| <= |s|
  {
    if s == [] then [] else if s[0] == LF then s[1..] else AfterNewline(s[1..])
  }

  /** How the server reads a datagram. `tail` is whatever lies behind it in the packet buffer: the number parsers
      stop at a character, not at the end of the datagram. */
  function Parse(data: bytes, tail: bytes): Request
  {
    if Starts(data, TEST) then Test
    else if Starts(data, READ) then
      var (a, n, _) := TwoFields(data[5..] + tail);
      Read(a, n)
    else if Starts(data, WRITE) then
      var (a, n, rest) := TwoFields(data[5..] + tail);
      if |rest| < |tail| then Overrun else Write(a, n, AfterNewline(rest[..|rest| - |tail|]))
    else if Starts(data, LOW) then Low
    else if Starts(data, EXEC) then
      var (a, n, _) := TwoFields(data[5..] + tail);
      Exec(a, n)
    else Unknown
  }

  function Min(a: nat, b: nat): nat { if a <= b then a else b }

  function WriteReply(addr: uint32, seqNo: uint32): bytes { OK + Hex8(addr) + [SPACE] + Hex8(seqNo) }

  function ReadReply(mem: Memory, addr: uint32, size: nat): bytes
  {
    OK + Hex8(addr) + [LF] + Load(mem, addr, Min(size, MAX_READ))
  }

  /** The state after a request. `after` is the memory that code called by EXEC, or a runaway copy, leaves behind. */
  function Effect(s: Server, r: Request, after: Memory): Server
    requires r.Write? ==> |r.data| <= TWO_32
  {
    match r
    case Write(addr, _, data) => s.(mem := Store(s.mem, addr, data))
    case Overrun => s.(mem := after)
    case Exec(addr, seqNo) =>
      if seqNo != s.lastSeq then s.(mem := after, lastSeq := seqNo, log := s.log + [addr]) else s
    case _ => s
  }

  /** The datagram sent back; a runaway copy does not come back. */
  function Reply(s: Server, r: Request): Option<bytes>
  {
    match r
    case Test => Some(OK_X86)
    case Read(addr, size) => Some(ReadReply(s.mem, addr, size))
    case Write(addr, seqNo, _) => Some(WriteReply(addr, seqNo))
    case Overrun => None
    case Low => Some(OK + Hex8(s.low))
    case Exec(_, seqNo) => Some(OK_COMPLETE + Hex8(seqNo))
    case Unknown => Some(ERR_UNKNOWN)
  }

  /** Largest UDP payload the stack can be handed; also keeps every WRITE far below 4 GiB. */
  const MAX_PAYLOAD: nat := 65535

  /** net_on_ipv4_udp as the imperative program it is: pointers move through the packet buffer, memory and
      exec_last_seq change in place. */
  class Target {
    var mem: Memory
    var lastSeq: uint32
    var log: seq<uint32>
    const low: uint32

    ghost function State(): Server
      reads this
    {
      Server(mem, lastSeq, log, low)
    }

    constructor (mem: Memory, low: uint32)
      ensures State() == Server(mem, 0xFFFF_FFFF, [], low)
    {
      this.mem, this.lastSeq, this.log, this.low := mem, 0xFFFF_FFFF, [], low;
    }

    /** memcpy((void*)address, p, n), byte by byte through the flat address space. */
    method Memcpy(address: uint32, data: bytes)
      requires |data| <= MAX_PAYLOAD
      modifies this`mem
      ensures mem == Store(old(mem), address, data)
    {
      ghost var m0 := mem;
      for i := 0 to |data|
        invariant mem == Store(m0, address, data[..i])
      {
        StoreSnoc(m0, address, data[..i], data[i]);
        assert data[..i] + [data[i]] == data[..i + 1];
        mem := mem[(address + i) % TWO_32 := data[i]];
      }
      assert data[..|data|] == data;
    }

    /** memcpy(data, (void*)address, n). */
    method Fetch(address: uint32, n: nat) returns (data: bytes)
      ensures data == Load(mem, address, n)
    {
      data := [];
      for i := 0 to n
        invariant data == Load(mem, address, i)
      {
        data := data + [mem[(address + i) % TWO_32]];
      }
    }

    /** Two numbers, as READ, WRITE and EXEC all parse them. */
    method Fields(packet: bytes, start: nat) returns (a: uint32, b: uint32, p: nat)
      requires start <= |packet|
      ensures start <= p <= |packet|
      ensures (a, b, packet[p..]) == TwoFields(packet[start..])
    {
      hide HexField, SkipSpaces;
      p := SkipWhitespace(packet, start);
      a, p := StrtoulHex(packet, p);
      p := SkipWhitespace(packet, p);
      b, p := StrtoulHex(packet, p);
    }

    /** One datagram for port 777, `tail` lying behind it in the packet buffer. */
    method OnUdp(data: bytes, tail: bytes, after: Memory) returns (reply: Option<bytes>)
      requires |data| <= MAX_PAYLOAD
      modifies this
      ensures ParsedWriteFits(data, tail)
      ensures State() == Effect(old(State()), Parse(data, tail), after)
      ensures reply == Reply(old(State()), Parse(data, tail))
    {
      hide TwoFields, Store, Load, AfterNewline;
      ParseFits(data, tail);
      var packet := data + tail;
      if Starts(data, TEST) {
        reply := Some(OK_X86);
      } else if Starts(data, READ) {
        assert packet[5..] == data[5..] + tail;
        var address, size, p := Fields(packet, 5);
        var n := if size > MAX_READ then MAX_READ else size;
        var hex := HexToStr(address);
        var body := Fetch(address, n);
        reply := Some(OK + hex + [LF] + body);
      } else if Starts(data, WRITE) {
        assert packet[5..] == data[5..] + tail;
        var address, seqNo, p := Fields(packet, 5);
        var fence := |data|;
        if p > fence {
          mem := after;
          reply := None;
        } else {
          assert packet[p..][..fence - p] == data[p..];
          p := SkipLine(data, p);
          Memcpy(address, data[p..]);
          var hex := HexToStr(address);
          var hexSeq := HexToStr(seqNo);
          reply := Some(OK + hex + [SPACE] + hexSeq);
        }
      } else if Starts(data, LOW) {
        var hex := HexToStr(low);
        reply := Some(OK + hex);
      } else if Starts(data, EXEC) {
        assert packet[5..] == data[5..] + tail;
        var address, seqNo, p := Fields(packet, 5);
        if seqNo != lastSeq {
          log, mem := log + [address], after;   // pusha; call *%eax; popa
          lastSeq := seqNo;
        }
        var hex := HexToStr(seqNo);
        reply := Some(OK_COMPLETE + hex);
      } else {
        reply := Some(ERR_UNKNOWN);
      }
    }

    /** The user's data begins after the first newline before the fence. */
    method SkipLine(data: bytes, start: nat) returns (p: nat)
      requires start <= |data|
      ensures start <= p <= |data|
      ensures data[p..] == AfterNewline(data[start..])
    {
      p := start;
      while p < |data| && data[p] != LF
        invariant start <= p <= |data|
        invariant AfterNewline(data[p..]) == AfterNewline(data[start..])
      {
        assert data[p..][1..] == data[p + 1..];
        p := p + 1;
      }
      if p < |data| && data[p] == LF {
        assert data[p..][1..] == data[p + 1..];
        p := p + 1;
      }
    }
  }

  /** What stands between the numbers and the newline is skipped; without a newline there is no data. */
  lemma {:induction false} AfterNewlineIs(junk: bytes, data: bytes)
    requires LF !in junk
    ensures AfterNewline(junk + ([LF] + data)) == data && AfterNewline(junk) == []
    decreases |junk|
  {
    var s := junk + ([LF] + data);
    if junk == [] {
      assert s[1..] == data;
    } else {
      assert s[1..] == junk[1..] + ([LF] + data);
      AfterNewlineIs(junk[1..], data);
    }
  }

  /** TEST and LOW are known by their first letters alone. */
  lemma ShortCommands(rest: bytes, tail: bytes)
    ensures Parse(TEST + rest, tail) == Test && Parse(LOW + rest, tail) == Low
  {
    assert (TEST + rest)[..4] == TEST;
    var s := LOW + rest;
    assert s[..3] == LOW && s[0] == 76;
    assert |s| >= 4 ==> s[..4][0] == s[0];
    assert |s| >= 5 ==> s[..5][0] == s[0];
    assert |s| >= 6 ==> s[..6][0] == s[0];
  }

  ghost predicate ParsedWriteFits(data: bytes, tail: bytes)
  {
    Parse(data, tail).Write? ==> |Parse(data, tail).data| <= |data|
  }

  lemma SkipSpacesShrinks(s: bytes)
    ensures |SkipSpaces(s)| <= |s|
  {
  }

  lemma FieldsShrink(s: bytes)
    ensures |TwoFields(s).2| <= |s|
  {
    SkipSpacesShrinks(s);
    SkipSpacesShrinks(HexField(SkipSpaces(s)).1);
  }

  lemma ParseFits(data: bytes, tail: bytes)
    ensures ParsedWriteFits(data, tail)
  {
    hide TwoFields, AfterNewline;
    if Starts(data, WRITE) {
      FieldsShrink(data[5..] + tail);
    }
  }
}
