/** The host library comm/s_lib.c on one end of the serial line and the stub on the other. The stub runs whenever it
    likes, and every write and read may move fewer bytes than asked for. */
module SerialHost {
  import opened Words
  import opened Numerals
  import opened Segments
  import opened SerialTarget

  /** The two byte streams and the stub behind them. */
  class Wire {
    var target: Target
    var toTarget: bytes
    var toHost: bytes
    ghost var fed: nat        // bytes of the current transaction the stub has consumed
    ghost var gaveUp: bool    // some read returned nothing

    constructor (target: Target)
      requires target.phase == START
      ensures this.target == target && InStep() && !gaveUp
    {
      this.target, toTarget, toHost, fed, gaveUp := target, [], [], 0, false;
    }

    /** Both streams are empty and the stub waits at the start of a line. */
    predicate InStep()
      reads this
    {
      toTarget == [] && toHost == [] && target.phase == START
    }

    /** Of the transaction c that began in state t0, w bytes are written and `got` of the answer is read. */
    ghost predicate Flow(t0: Target, c: bytes, w: nat, got: bytes)
      reads this
    {
      && fed <= w <= |c|
      && toTarget == c[fed..w]
      && target == FeedAll(t0, c[..fed]).0
      && got + toHost == FeedAll(t0, c[..fed]).1
    }

    /** The stub consumes some of the bytes that are on their way to it. */
    method Pump(ghost t0: Target, ghost c: bytes, ghost w: nat, ghost got: bytes)
      requires Flow(t0, c, w, got)
      modifies this
      ensures Flow(t0, c, w, got) && gaveUp == old(gaveUp)
    {
      hide FeedAll;
      var k: int := *;
      if k < 0 || k > |toTarget| { k := 0; }
      var (t1, out) := FeedAll(target, toTarget[..k]);
      FeedAppend(t0, c[..fed], toTarget[..k]);
      assert c[..fed] + toTarget[..k] == c[..fed + k];
      assert got + (toHost + out) == (got + toHost) + out;
      target, toHost, toTarget := t1, toHost + out, toTarget[k..];
      fed := fed + k;
    }

    /** write(fd, p, n): at least one byte is taken. */
    method Write(data: bytes, ghost t0: Target, ghost c: bytes, ghost w: nat, ghost got: bytes) returns (wd: nat)
      requires data != [] && Flow(t0, c, w, got) && w + |data| <= |c| && data == c[w..w + |data|]
      modifies this
      ensures 1 <= wd <= |data| && Flow(t0, c, w + wd, got) && gaveUp == old(gaveUp)
    {
      hide FeedAll;
      var k: int := *;
      wd := if k < 1 || k > |data| then 1 else k;
      toTarget := toTarget + data[..wd];
      Slices(c, fed, w, data, wd);
      Pump(t0, c, w + wd, got);
    }

    /** read(fd, p, n): some of the bytes that have arrived, or nothing when the host gives up waiting. */
    method Read(max: nat, ghost t0: Target, ghost c: bytes, ghost w: nat, ghost got: bytes) returns (data: bytes)
      requires max >= 1 && Flow(t0, c, w, got)
      modifies this
      ensures |data| <= max && Flow(t0, c, w, got + data)
      ensures gaveUp == (old(gaveUp) || data == [])
    {
      Pump(t0, c, w, got);
      var k: int := *;
      if k < 0 || k > max || k > |toHost| { k := 0; }
      data := toHost[..k];
      assert (got + data) + toHost[k..] == got + toHost;
      toHost := toHost[k..];
      gaveUp := gaveUp || data == [];
    }

    /** remote_rs232_send_command. */
    method SendCommand(cmd: bytes, ghost t0: Target, ghost c: bytes)
      requires Flow(t0, c, 0, []) && cmd + [LF] <= c
      modifies this
      ensures Flow(t0, c, |cmd| + 1, []) && gaveUp == old(gaveUp)
    {
      hide Flow;
      var p := 0;
      while p < |cmd|
        invariant 0 <= p <= |cmd| && Flow(t0, c, p, []) && gaveUp == old(gaveUp)
        decreases |cmd| - p
      {
        PrefixSlice(cmd, c, p);
        var wd := Write(cmd[p..], t0, c, p, []);
        p := p + wd;
      }
      assert (cmd + [LF])[p] == LF;
      assert [LF] == c[p..p + 1];
      var wd := Write([LF], t0, c, p, []);
    }

    /** read_forced: n bytes, fewer only when a read came back empty. */
    method ReadForced(n: nat, ghost t0: Target, ghost c: bytes, ghost w: nat, ghost got: bytes) returns (r: bytes)
      requires Flow(t0, c, w, got)
      modifies this
      ensures |r| <= n && Flow(t0, c, w, got + r)
      ensures |r| < n ==> gaveUp
      ensures |r| == n ==> gaveUp == old(gaveUp)
    {
      r := [];
      assert got + r == got;
      while |r| < n
        invariant |r| <= n && Flow(t0, c, w, got + r) && gaveUp == old(gaveUp)
        decreases n - |r|
      {
        var data := Read(n - |r|, t0, c, w, got + r);
        assert (got + r) + data == got + (r + data);
        r := r + data;
        if data == [] { return; }
      }
    }

    /** remote_rs232_get_response: characters up to the newline, control characters dropped; -1 when a read comes back
        empty, 1 when the text starts with "OK", else 0. */
    method GetResponse(ghost t0: Target, ghost c: bytes, ghost got: bytes, ghost r: bytes)
      returns (ret: int, line: bytes)
      requires r <= FeedAll(t0, c).1 && Flow(t0, c, |c|, got)
      requires |got| < |r| < 128 && EndsInNewline(r, |got|)
      modifies this
      ensures ret == -1 ==> gaveUp
      ensures ret != -1 ==> gaveUp == old(gaveUp) && Flow(t0, c, |c|, r)
      ensures ret != -1 ==> line == Printable(r[|got|..]) && ret == if StartsOk(line) then 1 else 0
    {
      hide FeedAll, Flow;
      line := [];
      GotIsPrefix(t0, c, got);
      ghost var n := |got|;
      assert r[..n] == got;
      var ch: byte := 0;
      while true
        invariant |got| <= n < |r| && Flow(t0, c, |c|, r[..n]) && gaveUp == old(gaveUp)
        invariant line == Printable(r[|got|..n])
        decreases |r| - n
      {
        hide Printable;
        var data := Read(1, t0, c, |c|, r[..n]);
        if data == [] { return -1, line; }
        NextByte(t0, c, n, data, r);
        ch := data[0];
        PrintableNext(r, |got|, n);
        if ch >= 32 && |line| < 127 { line := line + [ch]; }
        n := n + 1;
        if ch == LF { break; }
      }
      assert n == |r| && r[..n] == r;
      assert r[|got|..n] == r[|got|..];
      ret := if StartsOk(line) then 1 else 0;
    }

    /** What has been read is a prefix of all the stub has to say. */
    lemma GotIsPrefix(t0: Target, c: bytes, got: bytes)
      requires Flow(t0, c, |c|, got)
      ensures got <= FeedAll(t0, c).1
    {
      hide FeedAll;
      FeedAppend(t0, c[..fed], c[fed..]);
      assert c == c[..fed] + c[fed..];
    }

    lemma NextByte(t0: Target, c: bytes, n: nat, data: bytes, r: bytes)
      requires r <= FeedAll(t0, c).1 && n < |r| && |data| == 1 && Flow(t0, c, |c|, r[..n] + data)
      ensures data[0] == r[n] && r[..n] + data == r[..n + 1]
    {
      hide Flow, FeedAll;
      GotIsPrefix(t0, c, r[..n] + data);
    }

    /** When the whole answer has been read the stub has consumed the whole request: both ends are in step. */
    lemma Finished(t0: Target, c: bytes, got: bytes, t1: Target, r: bytes)
      requires Transaction(t0, c, t1, r) && Flow(t0, c, |c|, got) && |got| == |r|
      ensures got == r && toTarget == [] && toHost == [] && target == t1
    {
      GotIsPrefix(t0, c, got);
      assert c[..|c|] == c;
    }

    /** A new call: nothing of its transaction has moved yet. */
    ghost method Begin(c: bytes)
      requires InStep()
      modifies `fed
      ensures Flow(target, c, 0, [])
    {
      fed := 0;
      assert c[..0] == [];
    }

    /** remote_rs232_test. */
    method Test() returns (ret: int)
      requires InStep()
      modifies this
      ensures ret == 1 ==> InStep() && target == old(target) && gaveUp == old(gaveUp)
      ensures ret != 1 ==> gaveUp
    {
      ghost var t0 := target;
      ghost var c := TEST + [LF];
      ghost var r := OK + TEST_SUCCESSFUL + CRLF;
      TestTransaction(t0);
      Begin(c);
      SendCommand(TEST, t0, c);
      assert c[..|c|] == c;
      TestAnswer(r);
      var line;
      ret, line := GetResponse(t0, c, [], r);
      if ret != 1 { return 0; }
      if StartsFunction(line) {
        assert false;   // only an EXEC answered late brings this line and a second read; in step none is under way
      }
      Finished(t0, c, r, t0, r);
    }

    /** remote_rs232_read. 1: the buffer holds what READB fetched; 0: the stub refused the address; -1: the host gave up.
        Except when the host gives up, both ends are in step again and memory is as it was. */
    method ReadMemory(addr: uint64, count: nat) returns (ret: int, buf: bytes)
      requires InStep() && count < CountLimit(target.mode)
      modifies this
      ensures ret == 1 || ret == 0 || ret == -1
      ensures ret == -1 ==> gaveUp
      ensures ret != -1 ==> InStep() && target == old(target) && gaveUp == old(gaveUp)
      ensures ret != -1 ==> (ret == 1 <==> addr % TWO_32 < Limit(target.mode))
      ensures ret == 1 ==> buf == Fetched(target.mode, target.mem, addr % TWO_32, count)
      ensures ret == 1 && FlatRange(target.mode, addr % TWO_32, count) ==> buf == Load(target.mem, addr % TWO_32, count)
    {
      hide Flow, FeedAll, Transaction, Fetched, FlatRange, Load;
      buf := [];
      ghost var t0 := target;
      var cmd := ReadbLine(addr, count);
      ghost var c := cmd + [LF];
      ghost var data := Fetched(t0.mode, t0.mem, addr % TWO_32, count);
      ghost var bad := addr % TWO_32 >= Limit(t0.mode);
      ghost var r := if bad then ERR + INVALID_ADDRESS + CRLF else OK + data + CRLF;
      ReadbTransaction(t0, addr, count);
      WholeAnswer(t0, c, t0, r);
      Begin(c);
      SendCommand(cmd, t0, c);
      var head := ReadForced(3, t0, c, |c|, []);
      if |head| != 3 { return -1, buf; }
      assert [] + head == head;
      GotIsPrefix(t0, c, head);
      assert head == r[..3];
      AnswerHeads(data);
      if head != OK {
        ErrorAnswer();
        var line;
        ret, line := GetResponse(t0, c, head, r);
        if ret == -1 { return; }
        Finished(t0, c, r, t0, r);
        return;
      }
      buf := ReadForced(count, t0, c, |c|, head);
      if |buf| != count { return -1, buf; }
      var end := ReadForced(2, t0, c, |c|, head + buf);
      if |end| != 2 { return -1, buf; }
      Finished(t0, c, head + buf + end, t0, r);
      SplitAnswer(head, buf, end, data);
      if FlatRange(t0.mode, addr % TWO_32, count) { ReadIsFlat(t0, addr, count); }
      ret := if end == CRLF then 1 else -1;
    }

    /** Once the stub has read what is on its way to it, it stands, and has said, as if it had read `rest` in state t1. */
    ghost predicate Pending(t1: Target, rest: bytes)
      reads this
    {
      var (t2, o) := FeedAll(target, toTarget);
      (t2, toHost + o) == FeedAll(t1, rest)
    }

    /** Then both ends are in step exactly when nothing but line ends is left over. */
    lemma InStepIff(t1: Target, rest: bytes)
      requires Pending(t1, rest) && t1.phase == START
      ensures var (t2, o) := FeedAll(target, toTarget);
              t2.phase == START && toHost + o == [] <==> OnlyLineEnds(rest)
    {
      hide FeedAll;
      SilentIffLineEnds(t1, rest);
    }

    /** remote_rs232_write, any payload bytes, line ends and ESC included. Unless the host gives up, 1 when the stub took
        the address and 0 when it refused it; what the stub did not take for payload is then under way as commands. */
    method WriteMemory(addr: uint64, data: bytes) returns (ret: int)
      requires InStep() && |data| < TWO_32
      modifies this
      ensures ret == 1 ==> gaveUp == old(gaveUp) && !Refused(old(target).mode, addr)
      ensures ret != 1 ==> ret == 0 && (gaveUp || Refused(old(target).mode, addr))
      ensures ret == 1 || !gaveUp ==> Pending(AfterWriteb(old(target), addr, data), Excess(old(target).mode, addr, data))
      ensures ret == 1 && |data| < CountLimit(old(target).mode) ==> InStep() && target == AfterWriteb(old(target), addr, data)
      ensures ret == 1 && FlatRange(old(target).mode, addr % TWO_32, |data|) ==>
                InStep() && target == old(target).(mem := Store(old(target).mem, addr % TWO_32, data))
    {
      hide Flow, FeedAll, Transaction, Poked, Pending, FlatRange, Store;
      ghost var t0 := target;
      var cmd := WritebLine(addr, |data|);
      ghost var c := WritebBytes(addr, data);
      ghost var r := WritebAnswer(t0.mode, addr);
      Begin(c);
      SendCommand(cmd, t0, c);
      var p := 0;
      while p < |data|
        invariant 0 <= p <= |data| && Flow(t0, c, |cmd| + 1 + p, []) && gaveUp == old(gaveUp)
        decreases |data| - p
      {
        assert data[p..] == c[|cmd| + 1 + p..|cmd| + 1 + p + |data[p..]|];
        var wd := Write(data[p..], t0, c, |cmd| + 1 + p, []);
        p := p + wd;
      }
      WritebFeeds(t0, addr, data);
      WritebAnswerLine(t0.mode, addr);
      var line;
      ret, line := GetResponse(t0, c, [], r);
      if ret == -1 { return 0; }
      WhatIsLeft(t0, addr, data);
      if ret == 1 && |data| < CountLimit(t0.mode) { WholePayload(t0, addr, data); }
      if ret == 1 && FlatRange(t0.mode, addr % TWO_32, |data|) { WriteIsFlat(t0, addr, data); }
    }

    /** What the stub still has to read and the host to hear when the answer has been read. */
    lemma WhatIsLeft(t0: Target, addr: uint64, data: bytes)
      requires t0.phase == START && |data| < TWO_32
      requires var c := WritebBytes(addr, data); Flow(t0, c, |c|, WritebAnswer(t0.mode, addr))
      ensures Pending(AfterWriteb(t0, addr, data), Excess(t0.mode, addr, data))
    {
      hide FeedAll, Poked, WritebBytes, WritebAnswer;
      var c, r := WritebBytes(addr, data), WritebAnswer(t0.mode, addr);
      WritebFeeds(t0, addr, data);
      FeedAppend(t0, c[..fed], c[fed..]);
      assert c == c[..fed] + c[fed..] && c[fed..|c|] == c[fed..];
      var o := FeedAll(target, toTarget).1;
      assert r + (toHost + o) == (r + toHost) + o;
      SameTail(r, toHost + o, FeedAll(AfterWriteb(t0, addr, data), Excess(t0.mode, addr, data)).1);
    }

    /** A payload that the stub took whole leaves both ends in step. */
    lemma WholePayload(t0: Target, addr: uint64, data: bytes)
      requires t0.phase == START && |data| < CountLimit(t0.mode) && !Refused(t0.mode, addr)
      requires var c := WritebBytes(addr, data); Flow(t0, c, |c|, WritebAnswer(t0.mode, addr))
      ensures InStep() && target == AfterWriteb(t0, addr, data)
    {
      hide FeedAll, Flow, Poked, Transaction;
      assert |data| % CountLimit(t0.mode) == |data| && data[..|data|] == data;
      WritebTransaction(t0, addr, |data|, data);
      Finished(t0, WritebBytes(addr, data), WritebAnswer(t0.mode, addr), AfterWriteb(t0, addr, data), OK + ACCEPTED + CRLF);
    }
  }

  // ---------- any list of calls ----------

  datatype Call = Test | Read(addr: uint64, count: nat) | Write(addr: uint64, data: bytes)
  {
    /** The count fits the stub's counter register, and a WRITEB address is one the stub accepts. */
    predicate Valid(mode: Mode)
    {
      match this
      case Test => true
      case Read(_, count) => count < CountLimit(mode)
      case Write(addr, data) => |data| < CountLimit(mode) && !Refused(mode, addr)
    }

    /** The call stays within what its mode addresses flat. */
    predicate Flat(mode: Mode)
    {
      match this
      case Test => true
      case Read(addr, count) => !Refused(mode, addr) && FlatRange(mode, addr % TWO_32, count)
      case Write(addr, data) => !Refused(mode, addr) && FlatRange(mode, addr % TWO_32, |data|)
    }

    /** The payload of a WRITEB has a count. */
    predicate Counted() { Write? ==> |data| < TWO_32 }
  }

  /** What the calls mean with no wire at all: reads of memory, None for a refused address, and writes to it. */
  function Replay(t: Target, calls: seq<Call>): (Target, seq<Option<bytes>>)
    decreases |calls|
  {
    if calls == [] then (t, [])
    else
      var last := calls[|calls| - 1];
      var (t1, rs) := Replay(t, calls[..|calls| - 1]);
      match last
      case Test => (t1, rs)
      case Read(addr, count) =>
        (t1, rs + [if !Refused(t1.mode, addr) then Some(Fetched(t1.mode, t1.mem, addr % TWO_32, count)) else None])
      case Write(addr, data) => (AfterWriteb(t1, addr, data), rs)
  }

  /** The calls on flat memory, with no CPU mode at all. */
  function FlatReplay(m: Memory, calls: seq<Call>): (Memory, seq<Option<bytes>>)
    requires forall i :: 0 <= i < |calls| ==> calls[i].Counted()
    decreases |calls|
  {
    if calls == [] then (m, [])
    else
      var last := calls[|calls| - 1];
      assert last.Counted();
      var (m1, rs) := FlatReplay(m, calls[..|calls| - 1]);
      match last
      case Test => (m1, rs)
      case Read(addr, count) => (m1, rs + [Some(Load(m1, addr % TWO_32, count))])
      case Write(addr, data) => (Store(m1, addr % TWO_32, data), rs)
  }

  lemma FlatIsCounted(mode: Mode, calls: seq<Call>)
    requires forall i :: 0 <= i < |calls| ==> calls[i].Flat(mode)
    ensures forall i :: 0 <= i < |calls| ==> calls[i].Counted()
  {
  }

  /** Whatever mode the stub runs in, a list of calls that stay flat in it does to memory, and returns, the same. */
  lemma {:induction false} ReplayIsFlat(t: Target, calls: seq<Call>)
    requires t.phase == START && forall i :: 0 <= i < |calls| ==> calls[i].Flat(t.mode)
    ensures forall i :: 0 <= i < |calls| ==> calls[i].Valid(t.mode) && calls[i].Counted()
    ensures var (m, rs) := FlatReplay(t.mem, calls); Replay(t, calls) == (t.(mem := m), rs)
    decreases |calls|
  {
    hide Poked, Fetched, Store, Load, FlatRange, Refused, CountLimit, Limit;
    FlatIsCounted(t.mode, calls);
    if calls != [] {
      var n := |calls| - 1;
      ReplayIsFlat(t, calls[..n]);
      assert forall i :: 0 <= i < n ==> calls[..n][i] == calls[i];
      var t1 := t.(mem := FlatReplay(t.mem, calls[..n]).0);
      assert calls[n].Flat(t.mode);
      match calls[n] {
        case Test =>
        case Read(addr, count) => ReadIsFlat(t1, addr, count);
        case Write(addr, data) => WriteIsFlat(t1, addr, data);
      }
    }
  }

  lemma FlatIsAccepted(mode: Mode, addr: uint64, n: nat)
    requires FlatRange(mode, addr % TWO_32, n)
    ensures n < CountLimit(mode) && n % CountLimit(mode) == n
  {
  }

  lemma ReadIsFlat(t: Target, addr: uint64, count: nat)
    requires FlatRange(t.mode, addr % TWO_32, count)
    ensures count < CountLimit(t.mode)
    ensures Fetched(t.mode, t.mem, addr % TWO_32, count) == Load(t.mem, addr % TWO_32, count)
  {
    hide Fetched, Load, Limit, CountLimit, FlatRange;
    FlatIsAccepted(t.mode, addr, count);
    var zeros := seq(count, _ => 0);
    TransfersAreFlat(t.mode, t.mem, addr % TWO_32, zeros);
    assert |zeros| == count;
  }

  lemma WriteIsFlat(t: Target, addr: uint64, data: bytes)
    requires t.phase == START && !Refused(t.mode, addr) && FlatRange(t.mode, addr % TWO_32, |data|)
    ensures |data| < CountLimit(t.mode) && |data| < TWO_32
    ensures AfterWriteb(t, addr, data) == t.(mem := Store(t.mem, addr % TWO_32, data))
  {
    hide Poked, Store, Limit, Refused, FlatRange;
    FlatIsAccepted(t.mode, addr, |data|);
    TransfersAreFlat(t.mode, t.mem, addr % TWO_32, data);
    assert data[..|data|] == data && t == Target(t.mode, t.mem, START);
  }

  /** Any list of calls: as long as the host never gives up, both ends are in step after every call and the results are
      those of the calls run one after the other on memory; calls that stay flat in the mode of the stub are loads and stores. */
  method Session(wire: Wire, calls: seq<Call>) returns (ok: bool, results: seq<Option<bytes>>)
    requires wire.InStep() && forall i :: 0 <= i < |calls| ==> calls[i].Valid(wire.target.mode)
    modifies wire
    ensures ok ==> wire.InStep() && (wire.target, results) == Replay(old(wire.target), calls)
    ensures (forall i :: 0 <= i < |calls| ==> calls[i].Counted())
    ensures ok && (forall i :: 0 <= i < |calls| ==> calls[i].Flat(old(wire.target).mode)) ==>
              (wire.target.mem, results) == FlatReplay(old(wire.target.mem), calls)
    ensures !ok ==> wire.gaveUp
  {
    hide Poked, Fetched;
    ghost var t0 := wire.target;
    results := [];
    for k := 0 to |calls|
      invariant wire.InStep() && wire.target.mode == t0.mode
      invariant (wire.target, results) == Replay(t0, calls[..k])
    {
      assert calls[..k + 1][..k] == calls[..k];
      match calls[k]
      case Test =>
        var ret := wire.Test();
        if ret != 1 { return false, results; }
      case Read(addr, count) =>
        var ret, buf := wire.ReadMemory(addr, count);
        if ret == -1 { return false, results; }
        results := results + [if ret == 1 then Some(buf) else None];
      case Write(addr, data) =>
        var ret := wire.WriteMemory(addr, data);
        if ret != 1 { return false, results; }
    }
    assert calls[..|calls|] == calls;
    if forall i :: 0 <= i < |calls| ==> calls[i].Flat(t0.mode) { ReplayIsFlat(t0, calls); }
    ok := true;
  }

  lemma PrefixSlice(cmd: bytes, c: bytes, p: nat)
    requires cmd + [LF] <= c && p <= |cmd|
    ensures cmd[p..] == c[p..p + |cmd[p..]|]
  {
    forall i | p <= i < |cmd| ensures cmd[i] == c[i] { assert (cmd + [LF])[i] == c[i]; }
  }

  lemma Slices(c: bytes, a: nat, b: nat, data: bytes, k: nat)
    requires a <= b && b + |data| <= |c| && k <= |data| && data == c[b..b + |data|]
    ensures c[a..b] + data[..k] == c[a..b + k]
  {
    forall i | 0 <= i < k ensures data[i] == c[b + i] { }
  }

  /** The only newline at or after `from` is the last byte. */
  predicate EndsInNewline(r: bytes, from: nat)
  {
    from < |r| && r[|r| - 1] == LF && forall i :: from <= i < |r| - 1 ==> r[i] != LF
  }

  /** The characters get_response keeps. */
  function Printable(s: bytes): bytes
  {
    if s == [] then []
    else Printable(s[..|s| - 1]) + (if s[|s| - 1] >= 32 then [s[|s| - 1]] else [])
  }

  predicate StartsOk(line: bytes) { |line| >= 2 && line[0] == 79 && line[1] == 75 }

  const OK_FUNCTION: bytes := [111, 107, 32, 102, 117, 110, 99, 116, 105, 111, 110]

  function Lower(c: byte): byte { if 65 <= c <= 90 then c + 32 else c }

  /** strncasecmp(line, "OK Function", 11) == 0. */
  predicate StartsFunction(line: bytes)
  {
    |line| >= 11 && forall i :: 0 <= i < 11 ==> Lower(line[i]) == OK_FUNCTION[i]
  }

  lemma PrintableSnoc(s: bytes, b: byte)
    ensures Printable(s + [b]) == Printable(s) + (if b >= 32 then [b] else [])
  {
    assert (s + [b])[..|s|] == s;
  }

  lemma PrintableNext(r: bytes, from: nat, n: nat)
    requires from <= n < |r|
    ensures Printable(r[from..n + 1]) == Printable(r[from..n]) + (if r[n] >= 32 then [r[n]] else [])
    ensures |Printable(r[from..n])| <= n - from
  {
    assert r[from..n + 1] == r[from..n] + [r[n]];
    PrintableSnoc(r[from..n], r[n]);
    PrintableShrinks(r[from..n]);
  }

  lemma PrintableShrinks(s: bytes)
    ensures |Printable(s)| <= |s|
  {
  }

  /** Of an answer the host keeps the text, without the line end or any other control character. */
  lemma {:induction false} PrintableText(text: bytes)
    requires forall i :: 0 <= i < |text| ==> text[i] >= 32
    ensures Printable(text + CRLF) == text
  {
    hide Printable;
    PrintableHead(text, |text|);
    PrintableShrinks(text);
    assert text[..|text|] == text;
    assert text + CRLF == (text + [CR]) + [LF];
    PrintableSnoc(text, CR);
    PrintableSnoc(text + [CR], LF);
  }

  /** The first printable characters of a text stay first. */
  lemma {:induction false} PrintableHead(s: bytes, n: nat)
    requires n <= |s| && forall i :: 0 <= i < n ==> s[i] >= 32
    ensures n <= |Printable(s)| && Printable(s)[..n] == s[..n]
    decreases |s|
  {
    if s != [] {
      var k := |s| - 1;
      if n <= k {
        PrintableHead(s[..k], n);
        assert s[..k][..n] == s[..n] && Printable(s)[..n] == Printable(s[..k])[..n];
      } else {
        PrintableHead(s[..k], k);
        PrintableShrinks(s[..k]);
        assert s[..k][..k] == s[..k] && s == s[..k] + [s[k]];
      }
    }
  }

  lemma TestAnswer(r: bytes)
    requires r == OK + TEST_SUCCESSFUL + CRLF
    ensures EndsInNewline(r, 0) && StartsOk(Printable(r[0..])) && !StartsFunction(Printable(r[0..]))
  {
    assert r[0..] == r;
    PrintableHead(r, 4);
    var p := Printable(r);
    assert p[..4][0] == p[0] == 79 && p[..4][1] == p[1] == 75 && p[..4][3] == p[3] == 84;
    assert Lower(p[3]) != OK_FUNCTION[3];
  }

  lemma WritebAnswerLine(mode: Mode, addr: uint64)
    ensures var r := WritebAnswer(mode, addr);
            0 < |r| < 128 && EndsInNewline(r, 0) && (StartsOk(Printable(r[0..])) <==> !Refused(mode, addr))
  {
    var r := WritebAnswer(mode, addr);
    assert r[0..] == r;
    PrintableHead(r, 2);
    var p := Printable(r);
    assert p[..2][0] == p[0] == r[0] && p[..2][1] == p[1] == r[1];
  }

  lemma WholeAnswer(t0: Target, c: bytes, t1: Target, r: bytes)
    requires Transaction(t0, c, t1, r)
    ensures FeedAll(t0, c) == (t1, r)
  {
  }

  lemma SameTail(r: bytes, a: bytes, b: bytes)
    requires r + a == r + b
    ensures a == b
  {
    assert (r + a)[|r|..] == a && (r + b)[|r|..] == b;
  }

  lemma ErrorAnswer()
    ensures var r := ERR + INVALID_ADDRESS + CRLF; EndsInNewline(r, 3) && !StartsOk(Printable(r[3..]))
  {
    var r := ERR + INVALID_ADDRESS + CRLF;
    var s := r[3..];
    assert s[0] == 32 && s[1] == 73;
    PrintableHead(s, 2);
    assert Printable(s)[..2][0] == Printable(s)[0] == 32;
  }

  lemma AnswerHeads(data: bytes)
    ensures (ERR + INVALID_ADDRESS + CRLF)[..3] != OK && (OK + data + CRLF)[..3] == OK
  {
    assert (ERR + INVALID_ADDRESS + CRLF)[..3][0] == 69;
  }

  lemma SplitAnswer(head: bytes, buf: bytes, end: bytes, data: bytes)
    requires |head| == 3 && |buf| == |data| && head + buf + end == OK + data + CRLF
    ensures buf == data && end == CRLF
  {
    var s := head + buf + end;
    assert buf == s[3..3 + |data|] == data;
    assert end == s[3 + |data|..] == CRLF;
  }
}
