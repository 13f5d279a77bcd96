/** The serial debugger stub as a machine that consumes one byte at a time: the line reader, TEST, READB and WRITEB. */
module SerialTarget {
  import opened Words
  import opened Numerals
  import opened Segments

  const IN_BUF_SIZE: nat := 256

  const TEST: bytes := [84, 69, 83, 84]
  const READB: bytes := [82, 69, 65, 68, 66, 32]
  const WRITEB: bytes := [87, 82, 73, 84, 69, 66, 32]
  const OK: bytes := [79, 75, 32]
  const ERR: bytes := [69, 82, 82, 32]
  const CRLF: bytes := [13, 10]
  const TEST_SUCCESSFUL: bytes := [84, 101, 115, 116, 32, 115, 117, 99, 99, 101, 115, 115, 102, 117, 108]
  const INVALID_ADDRESS: bytes := [73, 110, 118, 97, 108, 105, 100, 32, 97, 100, 100, 114, 101, 115, 115]
  const ACCEPTED: bytes := [65, 99, 99, 101, 112, 116, 101, 100]

  /** Reading a command line (with or without an ESC just seen), inside WRITEB's payload, or in a command that this
      model does not cover. */
  datatype Phase = Line(buf: bytes, esc: bool) | Payload(addr: uint32, done: nat, left: nat) | Elsewhere

  datatype Target = Target(mode: Mode, mem: Memory, phase: Phase)

  const START: Phase := Line([], false)

  /** in_buf after the line: zero from the end of the text on. */
  function InBuf(line: bytes): (b: bytes)
    requires |line| < IN_BUF_SIZE
    ensures |b| == IN_BUF_SIZE
  {
    line + seq(IN_BUF_SIZE - |line|, _ => 0)
  }

  /** Addresses at or above this are answered with an error; the 386 stub checks nothing. */
  function Limit(mode: Mode): nat
  {
    match mode case Real86 => 0x10_0000 case Prot286 => 0x100_0000 case Flat386 => TWO_32
  }

  predicate Refused(mode: Mode, addr: uint64) { addr % TWO_32 >= Limit(mode) }

  /** The byte count is kept in CX, or in ECX. */
  function CountLimit(mode: Mode): nat { if mode.Flat386? then TWO_32 else TWO_16 }

  function HexVal(s: bytes): nat { Val(Sixteen, s[..DigitRun(Sixteen, s)]) }

  /** What strtohex leaves behind the number: the first character that is not a digit is consumed too. */
  function HexRest(s: bytes): bytes
  {
    var n := DigitRun(Sixteen, s);
    if n < |s| then s[n + 1..] else []
  }

  /** The address and the count of READB and WRITEB. */
  function Arguments(mode: Mode, s: bytes): (uint32, nat)
  {
    (HexVal(s) % TWO_32, HexVal(SkipSpaces(HexRest(s))) % CountLimit(mode))
  }

  /** The bytes READB sends. */
  function Fetched(mode: Mode, mem: Memory, addr: uint32, count: nat): (d: bytes)
    ensures |d| == count
  {
    seq(count, i requires 0 <= i < count => mem[Touched(mode, addr, i)])
  }

  /** A complete line: the new state and the bytes sent. */
  function Command(t: Target, line: bytes): (Target, bytes)
    requires |line| < IN_BUF_SIZE
  {
    var b := InBuf(line);
    var idle := t.(phase := START);
    if line == [] then (idle, [])
    else if b[..4] == TEST && b[4] == 0 then (idle, OK + TEST_SUCCESSFUL + CRLF)
    else if b[..6] == READB then
      var (addr, count) := Arguments(t.mode, b[6..]);
      if addr >= Limit(t.mode) then (idle, ERR + INVALID_ADDRESS + CRLF)
      else (idle, OK + Fetched(t.mode, t.mem, addr, count) + CRLF)
    else if b[..7] == WRITEB then
      var (addr, count) := Arguments(t.mode, b[7..]);
      if addr >= Limit(t.mode) then (idle, ERR + INVALID_ADDRESS + CRLF)
      else if count == 0 then (idle, OK + ACCEPTED + CRLF)
      else (t.(phase := Payload(addr, 0, count)), [])
    else (t.(phase := Elsewhere), [])
  }

  /** One byte from the wire. */
  function Feed(t: Target, b: byte): (Target, bytes)
  {
    match t.phase
    case Line(buf, esc) =>
      if !esc && (b == LF || b == CR) then
        Command(t, if |buf| < IN_BUF_SIZE then buf else buf[..IN_BUF_SIZE - 1])
      else if !esc && b == ESC then (t.(phase := Line(buf, true)), [])
      else (t.(phase := Line(if |buf| < IN_BUF_SIZE - 1 then buf + [b] else buf, false)), [])
    case Payload(addr, done, left) =>
      var mem: Memory := t.mem[Touched(t.mode, addr, done) := b];
      if left <= 1 then (t.(mem := mem, phase := START), OK + ACCEPTED + CRLF)
      else (t.(mem := mem, phase := Payload(addr, done + 1, left - 1)), [])
    case Elsewhere => (t, [])
  }

  function FeedAll(t: Target, bs: bytes): (Target, bytes)
    decreases |bs|
  {
    if bs == [] then (t, [])
    else
      var (t1, o1) := Feed(t, bs[0]);
      var (t2, o2) := FeedAll(t1, bs[1..]);
      (t2, o1 + o2)
  }

  lemma {:induction false} FeedAppend(t: Target, a: bytes, b: bytes)
    ensures var (t1, o1) := FeedAll(t, a);
            && FeedAll(t, a + b) == (FeedAll(t1, b).0, o1 + FeedAll(t1, b).1)
            && (o1 == [] ==> FeedAll(t, a + b) == FeedAll(t1, b))
    decreases |a|
  {
    hide Feed;
    assert [] + FeedAll(FeedAll(t, a).0, b).1 == FeedAll(FeedAll(t, a).0, b).1;
    if a == [] {
      assert a + b == b;
    } else {
      assert (a + b)[1..] == a[1..] + b;
      var (t0, o0) := Feed(t, a[0]);
      FeedAppend(t0, a[1..], b);
      var o1 := FeedAll(t0, a[1..]).1;
      var o2 := FeedAll(FeedAll(t, a).0, b).1;
      assert o0 + (o1 + o2) == (o0 + o1) + o2;
    }
  }

  lemma FeedSnoc(t: Target, a: bytes, x: byte)
    ensures var (t1, o1) := FeedAll(t, a);
            && FeedAll(t, a + [x]) == (Feed(t1, x).0, o1 + Feed(t1, x).1)
            && (o1 == [] ==> FeedAll(t, a + [x]) == Feed(t1, x))
  {
    var t1 := FeedAll(t, a).0;
    FeedAppend(t, a, [x]);
    assert [x][1..] == [];
    assert Feed(t1, x).1 + [] == Feed(t1, x).1;
    assert FeedAll(t1, [x]) == (Feed(t1, x).0, Feed(t1, x).1 + []);
  }

  // ---------- transactions ----------

  /** Feeding c answers r, all of it after the last byte of c and nothing before. */
  ghost predicate Transaction(t: Target, c: bytes, t': Target, r: bytes)
  {
    && c != [] && r != []
    && FeedAll(t, c) == (t', r)
    && forall k :: 0 <= k < |c| ==> FeedAll(t, c[..k]).1 == []
  }

  ghost predicate Plain(line: bytes)
  {
    |line| < IN_BUF_SIZE - 1 && forall i :: 0 <= i < |line| ==> line[i] != LF && line[i] != CR && line[i] != ESC
  }

  /** An ordinary line collects in the buffer and answers nothing. */
  lemma {:induction false} FeedLine(t: Target, line: bytes)
    requires t.phase == START && Plain(line)
    ensures FeedAll(t, line) == (t.(phase := Line(line, false)), [])
    decreases |line|
  {
    if line != [] {
      var n := |line| - 1;
      assert line == line[..n] + [line[n]];
      FeedLine(t, line[..n]);
      FeedSnoc(t, line[..n], line[n]);
    }
  }

  /** Every byte with an ESC in front of it. */
  function Quoted(line: bytes): bytes
  {
    if line == [] then [] else Quoted(line[..|line| - 1]) + [ESC, line[|line| - 1]]
  }

  /** What fits the line buffer. */
  function Kept(line: bytes): bytes { if |line| < IN_BUF_SIZE then line else line[..IN_BUF_SIZE - 1] }

  lemma FeedEscaped(t: Target, line: bytes, b: byte)
    requires t.phase == Line(Kept(line), false)
    ensures Feed(t, ESC) == (t.(phase := Line(Kept(line), true)), [])
    ensures Feed(t.(phase := Line(Kept(line), true)), b) == (t.(phase := Line(Kept(line + [b]), false)), [])
  {
    if |line| >= IN_BUF_SIZE - 1 {
      assert (line + [b])[..IN_BUF_SIZE - 1] == line[..IN_BUF_SIZE - 1];
      assert |line| == IN_BUF_SIZE - 1 ==> line[..IN_BUF_SIZE - 1] == line;
    }
  }

  /** Behind ESC any byte at all, a line end or another ESC included, goes into the buffer; what does not fit is dropped. */
  lemma {:induction false} FeedQuoted(t: Target, line: bytes)
    requires t.phase == START
    ensures FeedAll(t, Quoted(line)) == (t.(phase := Line(Kept(line), false)), [])
    decreases |line|
  {
    hide Feed, FeedAll, Kept, Quoted;
    if line == [] {
      NothingQuoted(t);
    } else {
      var n := |line| - 1;
      var q, t1 := Quoted(line[..n]), t.(phase := Line(Kept(line[..n]), false));
      FeedQuoted(t, line[..n]);
      FeedEscaped(t1, line[..n], line[n]);
      FeedSnoc(t, q, ESC);
      FeedSnoc(t, q + [ESC], line[n]);
      QuotedLast(line);
    }
  }

  lemma {:induction false} QuotedLast(line: bytes)
    requires line != []
    ensures var n := |line| - 1;
            Quoted(line) == (Quoted(line[..n]) + [ESC]) + [line[n]] && line == line[..n] + [line[n]]
  {
    var n := |line| - 1;
    var q, two := Quoted(line[..n]), [ESC, line[n]];
    assert Quoted(line) == q + two;
    hide Quoted;
    assert two == [ESC] + [line[n]];
  }

  lemma NothingQuoted(t: Target)
    requires t.phase == START
    ensures FeedAll(t, Quoted([])) == (t.(phase := Line(Kept([]), false)), [])
  {
  }

  lemma LineIsTransaction(t: Target, line: bytes)
    requires t.phase == START && Plain(line) && Command(t, line).1 != []
    ensures Transaction(t, line + [LF], Command(t, line).0, Command(t, line).1)
  {
    hide Command;
    var c := line + [LF];
    FeedLine(t, line);
    FeedSnoc(t, line, LF);
    FeedEnd(t.(phase := Line(line, false)), line);
    forall k | 0 <= k < |c|
      ensures FeedAll(t, c[..k]).1 == []
    {
      assert c[..k] == line[..k];
      FeedLine(t, line[..k]);
    }
  }

  lemma FeedEnd(t: Target, line: bytes)
    requires t.phase == Line(line, false) && |line| < IN_BUF_SIZE
    ensures Feed(t, LF) == Command(t, line) == Command(t.(phase := START), line)
  {
    hide InBuf, Arguments, Fetched;
  }

  /** Memory after the first k payload bytes. */
  function Poked(t: Target, addr: uint32, data: bytes): Memory
    decreases |data|
  {
    if data == [] then t.mem
    else
      var n := |data| - 1;
      Poked(t, addr, data[..n])[Touched(t.mode, addr, n) := data[n]]
  }

  /** Inside the payload every byte goes to memory, whatever its value, and the answer comes with the last one. */
  lemma {:induction false} FeedPayload(t: Target, addr: uint32, count: nat, data: bytes)
    requires t.phase == Payload(addr, 0, count) && 0 < |data| + 1 && |data| <= count && count > 0
    ensures FeedAll(t, data) ==
              if |data| == count then (t.(mem := Poked(t, addr, data), phase := START), OK + ACCEPTED + CRLF)
              else (t.(mem := Poked(t, addr, data), phase := Payload(addr, |data|, count - |data|)), [])
    decreases |data|
  {
    if data != [] {
      var n := |data| - 1;
      assert data == data[..n] + [data[n]];
      FeedPayload(t, addr, count, data[..n]);
      FeedSnoc(t, data[..n], data[n]);
    }
  }

  // ---------- the commands the host sends ----------

  function ReadbLine(addr: uint64, count: nat): bytes { READB + (Hex(addr) + ([SPACE] + Hex(count))) }

  function WritebLine(addr: uint64, count: nat): bytes { WRITEB + (Hex(addr) + ([SPACE] + Hex(count))) }

  /** The stub reads back the numbers the host printed. */
  lemma ArgumentsOfPrinted(mode: Mode, addr: uint64, count: nat, zeros: bytes)
    requires zeros != [] && zeros[0] == 0
    ensures Arguments(mode, Hex(addr) + ([SPACE] + (Hex(count) + zeros))) == (addr % TWO_32, count % CountLimit(mode))
  {
    hide SkipSpaces, Hex, HexVal, HexRest;
    var rest := [SPACE] + (Hex(count) + zeros);
    HexValOfPrinted(addr, rest);
    assert rest[1..] == Hex(count) + zeros;
    HexValOfPrinted(count, zeros);
    PrintedIsNoSpace(count);
    SkipSpacesStops(Hex(count) + zeros);
  }

  lemma HexValOfPrinted(x: nat, rest: bytes)
    requires rest != [] && !IsHex(rest[0])
    ensures HexVal(Hex(x) + rest) == x && HexRest(Hex(x) + rest) == rest[1..]
  {
    PrintVal(Sixteen, x);
    FieldOf(Sixteen, Hex(x), rest);
    assert (Hex(x) + rest)[|Hex(x)| + 1..] == rest[1..];
  }

  /** Printed command lines hold no line end and no ESC, and fit the buffer. */
  lemma PrintedLineIsPlain(word: bytes, addr: uint64, count: nat)
    requires word == READB || word == WRITEB
    requires count < TWO_32
    ensures Plain(word + (Hex(addr) + ([SPACE] + Hex(count))))
  {
    hide Hex;
    HexIsPlain(addr);
    HexIsPlain(count);
    Pow16Eight();
    HexFits(addr, 16, TWO_64);
    HexFits(count, 8, TWO_32);
    var line := word + (Hex(addr) + ([SPACE] + Hex(count)));
    forall i | 0 <= i < |line|
      ensures line[i] != LF && line[i] != CR && line[i] != ESC
    {
    }
  }

  lemma HexFits(x: nat, d: nat, bound: nat)
    requires d >= 1 && bound == Pow16(d) && x < bound
    ensures |Hex(x)| <= d
  {
    PrintShort(x, d, bound);
  }

  lemma HexIsPlain(x: nat)
    ensures forall i :: 0 <= i < |Hex(x)| ==> Hex(x)[i] != LF && Hex(x)[i] != CR && Hex(x)[i] != ESC
  {
    PrintVal(Sixteen, x);
  }

  lemma TestCommand(t: Target)
    ensures Command(t, TEST) == (t.(phase := START), OK + TEST_SUCCESSFUL + CRLF)
  {
    var b := InBuf(TEST);
    assert b[..4] == TEST && b[4] == 0;
  }

  /** A longer word that begins with TEST is another command. */
  lemma OnlyTestIsTest(t: Target, line: bytes)
    requires 4 < |line| < IN_BUF_SIZE && line[..4] == TEST && line[4] != 0
    ensures Command(t, line).0.phase == Elsewhere
  {
    var b := InBuf(line);
    assert b[..4] == TEST && b[4] == line[4] && b[0] == 84;
    assert b[..6][0] == b[0] && b[..7][0] == b[0];
  }

  /** A printed command in the cleared buffer: the word, the arguments, then zeroes. */
  lemma InBufOf(word: bytes, addr: uint64, count: nat) returns (zeros: bytes)
    requires word != [] && |word + (Hex(addr) + ([SPACE] + Hex(count)))| < IN_BUF_SIZE
    ensures zeros != [] && zeros[0] == 0
    ensures var b := InBuf(word + (Hex(addr) + ([SPACE] + Hex(count))));
            && b[..|word|] == word && b[0] == word[0]
            && b[|word|..] == Hex(addr) + ([SPACE] + (Hex(count) + zeros))
  {
    hide Hex;
    var line := word + (Hex(addr) + ([SPACE] + Hex(count)));
    zeros := seq(IN_BUF_SIZE - |line|, _ => 0);
    assert InBuf(line) == word + (Hex(addr) + ([SPACE] + (Hex(count) + zeros)));
  }

  lemma ReadbCommand(t: Target, addr: uint64, count: nat)
    requires count < CountLimit(t.mode)
    ensures |ReadbLine(addr, count)| < IN_BUF_SIZE
    ensures Command(t, ReadbLine(addr, count)) ==
              (t.(phase := START),
               if addr % TWO_32 >= Limit(t.mode) then ERR + INVALID_ADDRESS + CRLF
               else OK + Fetched(t.mode, t.mem, addr % TWO_32, count) + CRLF)
  {
    var line := ReadbLine(addr, count);
    assert count % CountLimit(t.mode) == count;
    PrintedLineIsPlain(READB, addr, count);
    hide Arguments, Hex, InBuf, Fetched;
    var zeros := InBufOf(READB, addr, count);
    ReadbHandler(t, line);
    hide Command;
    ArgumentsOfPrinted(t.mode, addr, count, zeros);
  }

  /** Of the handlers only that of READB takes a line that begins with the word. */
  lemma ReadbHandler(t: Target, line: bytes)
    requires |line| < IN_BUF_SIZE && line != [] && InBuf(line)[..6] == READB
    ensures var (a, n) := Arguments(t.mode, InBuf(line)[6..]);
            Command(t, line) ==
              (t.(phase := START),
               if a >= Limit(t.mode) then ERR + INVALID_ADDRESS + CRLF
               else OK + Fetched(t.mode, t.mem, a, n) + CRLF)
  {
    hide Arguments, InBuf, Fetched;
    var b := InBuf(line);
    assert b[..6][0] == b[0] == 82;
    assert b[..4][0] == b[0];
  }

  lemma WritebCommand(t: Target, addr: uint64, count: uint32)
    ensures |WritebLine(addr, count)| < IN_BUF_SIZE
    ensures var n := count % CountLimit(t.mode);
            Command(t, WritebLine(addr, count)) ==
              if Refused(t.mode, addr) then (t.(phase := START), ERR + INVALID_ADDRESS + CRLF)
              else if n == 0 then (t.(phase := START), OK + ACCEPTED + CRLF)
              else (t.(phase := Payload(addr % TWO_32, 0, n)), [])
  {
    var line := WritebLine(addr, count);
    PrintedLineIsPlain(WRITEB, addr, count);
    hide Arguments, Hex, InBuf, Fetched;
    var zeros := InBufOf(WRITEB, addr, count);
    WritebHandler(t, line);
    hide Command;
    ArgumentsOfPrinted(t.mode, addr, count, zeros);
  }

  /** Of the handlers only that of WRITEB takes a line that begins with the word. */
  lemma WritebHandler(t: Target, line: bytes)
    requires |line| < IN_BUF_SIZE && line != [] && InBuf(line)[..7] == WRITEB
    ensures var (a, n) := Arguments(t.mode, InBuf(line)[7..]);
            Command(t, line) ==
              if a >= Limit(t.mode) then (t.(phase := START), ERR + INVALID_ADDRESS + CRLF)
              else if n == 0 then (t.(phase := START), OK + ACCEPTED + CRLF)
              else (t.(phase := Payload(a, 0, n)), [])
  {
    hide Arguments, InBuf, Fetched;
    var b := InBuf(line);
    assert b[..7][0] == b[0] == 87;
    assert b[..4][0] == b[0] && b[..6][0] == b[0];
  }

  lemma TestTransaction(t: Target)
    requires t.phase == START
    ensures Transaction(t, TEST + [LF], t, OK + TEST_SUCCESSFUL + CRLF)
  {
    TestCommand(t);
    LineIsTransaction(t, TEST);
  }

  /** READB is one transaction in every mode; an address out of range is answered with an error, in step. */
  lemma ReadbTransaction(t: Target, addr: uint64, count: nat)
    requires t.phase == START && count < CountLimit(t.mode)
    ensures Transaction(t, ReadbLine(addr, count) + [LF], t,
              if addr % TWO_32 >= Limit(t.mode) then ERR + INVALID_ADDRESS + CRLF
              else OK + Fetched(t.mode, t.mem, addr % TWO_32, count) + CRLF)
  {
    hide Command;
    ReadbCommand(t, addr, count);
    PrintedLineIsPlain(READB, addr, count);
    LineIsTransaction(t, ReadbLine(addr, count));
  }

  /** The payload the stub counts off for a WRITEB whose printed count is `count`, any bytes at all, is one transaction
      with it when the address is in range. */
  lemma WritebTransaction(t: Target, addr: uint64, count: uint32, data: bytes)
    requires t.phase == START && |data| == count % CountLimit(t.mode) && !Refused(t.mode, addr)
    ensures Transaction(t, WritebLine(addr, count) + [LF] + data,
              t.(mem := Poked(t, addr % TWO_32, data)), OK + ACCEPTED + CRLF)
  {
    hide Command, Feed, Poked;
    var line := WritebLine(addr, count);
    var head := line + [LF];
    WritebCommand(t, addr, count);
    PrintedLineIsPlain(WRITEB, addr, count);
    if data == [] {
      assert head + data == head;
      assert Poked(t, addr % TWO_32, []) == t.mem by { PokedNothing(t, addr % TWO_32); }
      LineIsTransaction(t, line);
    } else {
      var t1 := t.(phase := Payload(addr % TWO_32, 0, |data|));
      FeedLine(t, line);
      FeedSnoc(t, line, LF);
      FeedEnd(t.(phase := Line(line, false)), line);
      assert FeedAll(t, head) == (t1, []);
      PokedPhase(t, t1.phase, addr % TWO_32, data);
      FeedAppend(t, head, data);
      FeedPayload(t1, addr % TWO_32, |data|, data);
      var c := head + data;
      forall k | 0 <= k < |c|
        ensures FeedAll(t, c[..k]).1 == []
      {
        if k <= |line| {
          assert c[..k] == line[..k];
          FeedLine(t, line[..k]);
        } else {
          var m := k - |head|;
          assert c[..k] == head + data[..m];
          FeedAppend(t, head, data[..m]);
          FeedPayload(t1, addr % TWO_32, |data|, data[..m]);
        }
      }
    }
  }

  lemma PokedNothing(t: Target, addr: uint32)
    ensures Poked(t, addr, []) == t.mem
  {
  }

  lemma PokedPhase(t: Target, p: Phase, addr: uint32, data: bytes)
    ensures Poked(t.(phase := p), addr, data) == Poked(t, addr, data)
  {
  }

  // ---------- exactly when a WRITEB leaves both ends in step ----------

  /** What the host puts on the wire. */
  function WritebBytes(addr: uint64, data: bytes): bytes
    requires |data| < TWO_32
  {
    WritebLine(addr, |data|) + [LF] + data
  }

  /** The one answer the host waits for. */
  function WritebAnswer(mode: Mode, addr: uint64): bytes
  {
    (if Refused(mode, addr) then ERR + INVALID_ADDRESS else OK + ACCEPTED) + CRLF
  }

  /** What the stub does not take for payload: all of it when it refuses the address, and in the 16-bit modes whatever
      exceeds the count as CX holds it. */
  function Excess(mode: Mode, addr: uint64, data: bytes): bytes
  {
    if Refused(mode, addr) then data else data[|data| % CountLimit(mode)..]
  }

  /** The stub when it has answered. */
  function AfterWriteb(t: Target, addr: uint64, data: bytes): Target
  {
    if Refused(t.mode, addr) then t
    else t.(mem := Poked(t, addr % TWO_32, data[..|data| % CountLimit(t.mode)]))
  }

  /** Every WRITEB is answered once, and then what the stub did not take for payload is read as command lines. */
  lemma WritebFeeds(t: Target, addr: uint64, data: bytes)
    requires t.phase == START && |data| < TWO_32
    ensures var (t', o) := FeedAll(AfterWriteb(t, addr, data), Excess(t.mode, addr, data));
            FeedAll(t, WritebBytes(addr, data)) == (t', WritebAnswer(t.mode, addr) + o)
  {
    hide Command, Feed, FeedAll, Poked;
    var line := WritebLine(addr, |data|);
    var n := |data| % CountLimit(t.mode);
    if Refused(t.mode, addr) {
      WritebCommand(t, addr, |data|);
      PrintedLineIsPlain(WRITEB, addr, |data|);
      LineIsTransaction(t, line);
      FeedAppend(t, line + [LF], data);
    } else {
      WritebTransaction(t, addr, |data|, data[..n]);
      assert WritebBytes(addr, data) == (line + [LF] + data[..n]) + data[n..];
      FeedAppend(t, line + [LF] + data[..n], data[n..]);
    }
  }

  predicate OnlyLineEnds(s: bytes) { forall i :: 0 <= i < |s| ==> s[i] == LF || s[i] == CR }

  /** Away from the start of a line there is no way back to it without an answer. */
  lemma FeedAnswers(t: Target, b: byte)
    requires t.phase != START
    ensures Feed(t, b).0.phase != START || Feed(t, b).1 != []
  {
    hide InBuf, Arguments, Fetched;
  }

  lemma {:induction false} FeedAllAnswers(t: Target, s: bytes)
    requires t.phase != START
    ensures FeedAll(t, s).0.phase != START || FeedAll(t, s).1 != []
    decreases |s|
  {
    hide Feed;
    if s != [] {
      FeedAnswers(t, s[0]);
      var t1 := Feed(t, s[0]).0;
      if t1.phase != START { FeedAllAnswers(t1, s[1..]); }
    }
  }

  /** At the start of a line the stub comes back there without an answer exactly on line ends. */
  lemma {:induction false} SilentIffLineEnds(t: Target, s: bytes)
    requires t.phase == START
    ensures FeedAll(t, s).0.phase == START && FeedAll(t, s).1 == [] <==> OnlyLineEnds(s)
    ensures OnlyLineEnds(s) ==> FeedAll(t, s) == (t, [])
    decreases |s|
  {
    if s != [] {
      FeedAtStart(t, s[0]);
      hide Feed;
      var t1 := Feed(t, s[0]).0;
      if s[0] == LF || s[0] == CR {
        SilentIffLineEnds(t, s[1..]);
        assert OnlyLineEnds(s) <==> OnlyLineEnds(s[1..]) by {
          assert s == [s[0]] + s[1..];
        }
      } else {
        FeedAllAnswers(t1, s[1..]);
      }
    }
  }

  lemma FeedAtStart(t: Target, b: byte)
    requires t.phase == START
    ensures b == LF || b == CR ==> Feed(t, b) == (t, [])
    ensures b != LF && b != CR ==> Feed(t, b).0.phase != START
  {
  }

  /** The exact condition for both ends to be in step after a WRITEB, that is for the stub to be at the start of a line
      and to have sent the one answer the host reads: the stub took the whole payload, or the rest is line ends. */
  lemma WritebInStepIff(t: Target, addr: uint64, data: bytes)
    requires t.phase == START && |data| < TWO_32
    ensures var (t', o) := FeedAll(t, WritebBytes(addr, data));
            t'.phase == START && o == WritebAnswer(t.mode, addr) <==> OnlyLineEnds(Excess(t.mode, addr, data))
  {
    hide FeedAll, Poked;
    WritebFeeds(t, addr, data);
    SilentIffLineEnds(AfterWriteb(t, addr, data), Excess(t.mode, addr, data));
    var answer := WritebAnswer(t.mode, addr);
    var o := FeedAll(AfterWriteb(t, addr, data), Excess(t.mode, addr, data)).1;
    assert answer + o == answer <==> o == [] by {
      assert |answer + o| == |answer| + |o|;
    }
  }

  /** For counts the stub's register holds: in step exactly when the address is accepted or the payload is line ends. */
  lemma RefusedWritebLosesStep(t: Target, addr: uint64, data: bytes)
    requires t.phase == START && |data| < CountLimit(t.mode)
    ensures var (t', o) := FeedAll(t, WritebBytes(addr, data));
            t'.phase == START && o == WritebAnswer(t.mode, addr) <==> !Refused(t.mode, addr) || OnlyLineEnds(data)
  {
    hide FeedAll, WritebBytes, WritebAnswer, Limit;
    assert |data| % CountLimit(t.mode) == |data|;
    hide CountLimit;
    assert OnlyLineEnds(data[|data|..]);
    WritebInStepIff(t, addr, data);
  }

  // ---------- what the transfers mean for flat memory ----------

  /** When every touched address is addr + i, a WRITEB is a plain store and a READB a plain load. */
  lemma {:induction false} PokedIsStore(t: Target, addr: uint32, data: bytes)
    requires |data| < TWO_32
    requires forall i :: 0 <= i < |data| ==> Touched(t.mode, addr, i) == (addr + i) % TWO_32
    ensures Poked(t, addr, data) == Store(t.mem, addr, data)
    decreases |data|
  {
    if data == [] {
      assert Store(t.mem, addr, data) == t.mem;
    } else {
      var n := |data| - 1;
      PokedIsStore(t, addr, data[..n]);
      assert data[..n] + [data[n]] == data;
      StoreSnoc(t.mem, addr, data[..n], data[n]);
    }
  }

  /** READB and WRITEB in each mode are flat transfers over the whole range of that mode. */
  lemma TransfersAreFlat(mode: Mode, m: Memory, addr: uint32, data: bytes)
    requires FlatRange(mode, addr, |data|)
    ensures Poked(Target(mode, m, START), addr, data) == Store(m, addr, data)
    ensures Fetched(mode, m, addr, |data|) == Load(m, addr, |data|)
  {
    hide Touched, Store, Load, Fetched, Poked;
    assert |data| > 0 ==> FlatRange(mode, addr, 1);
    if |data| > 0 { FlatIff(mode, addr, |data|); }
    PokedIsStore(Target(mode, m, START), addr, data);
    FetchedIsLoad(mode, m, addr, |data|);
  }

  /** So they mean the same in all three modes wherever all three accept them. */
  lemma TransfersAgreeAcrossModes(m: Memory, addr: uint32, data: bytes)
    requires addr < 0x10_0000 && |data| <= 0xFFFF && addr % 16 + |data| <= 65536
    ensures forall mode :: Poked(Target(mode, m, START), addr, data) == Store(m, addr, data)
    ensures forall mode :: Fetched(mode, m, addr, |data|) == Load(m, addr, |data|)
  {
    hide Store, Load, Fetched, Poked;
    forall mode: Mode
      ensures Poked(Target(mode, m, START), addr, data) == Store(m, addr, data)
      ensures Fetched(mode, m, addr, |data|) == Load(m, addr, |data|)
    {
      TransfersAreFlat(mode, m, addr, data);
    }
  }

  /** The stub refuses exactly the addresses that its mode cannot form. */
  lemma RefusedIffOutOfReach(mode: Mode, addr: uint64)
    ensures Refused(mode, addr) <==> Touched(mode, addr % TWO_32, 0) != addr % TWO_32
  {
    var a := addr % TWO_32;
    if Refused(mode, addr) {
      TouchedBelow(mode, a);
    } else {
      hide Touched;
      TouchedFlat(mode, a, 0);
    }
  }

  /** No mode forms an address at or above its limit. */
  lemma TouchedBelow(mode: Mode, addr: uint32)
    ensures Touched(mode, addr, 0) < Limit(mode)
  {
    if mode.Real86? {
      assert RealSegment(addr) * 16 <= 0xFFFF0 && RealOffset(addr) % TWO_16 < 16;
    }
  }

  lemma FetchedIsLoad(mode: Mode, m: Memory, addr: uint32, count: nat)
    requires forall i :: 0 <= i < count ==> Touched(mode, addr, i) == (addr + i) % TWO_32
    ensures Fetched(mode, m, addr, count) == Load(m, addr, count)
  {
  }
}
