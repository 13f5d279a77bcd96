/** The command loop of the serial stubs as the register program it is: in_buf filled and cleared in place, memory read
    and written through ES:BX, one byte of the port at a time. */
module SerialStub {
  import opened Words
  import opened Numerals
  import opened Segments
  import opened SerialTarget

  class Stub {
    const mode: Mode
    const inBuf: array<byte>
    var mem: Memory
    var si: nat             // characters in in_buf
    var escSeen: bool
    var elsewhere: bool
    // inside WRITEB: where the next payload byte goes
    var addr: uint32
    var bx: nat
    var cx: nat

    constructor (mode: Mode, mem: Memory)
      ensures Valid() && State() == Target(mode, mem, START) && fresh(inBuf)
    {
      this.mode, this.mem := mode, mem;
      inBuf := new byte[256];
      si, escSeen, elsewhere, addr, bx, cx := 0, false, false, 0, 0, 0;
    }

    predicate Valid()
      reads this
    {
      inBuf.Length == 256 && si < 256
    }

    ghost function State(): Target
      requires Valid()
      reads this, inBuf
    {
      Target(mode, mem,
             if elsewhere then Elsewhere
             else if cx > 0 then Payload(addr, bx, cx)
             else Line(inBuf[..si], escSeen))
    }

    /** _main_loop_read, or the payload loop of WRITEB, for the byte com_char_in returned. */
    method CharIn(al: byte) returns (out: bytes)
      requires Valid()
      modifies this, inBuf
      ensures Valid() && (State(), out) == Feed(old(State()), al)
    {
      hide Command;
      out := [];
      if elsewhere { return; }
      if cx > 0 {
        cx := cx - 1;
        mem := mem[Touched(mode, addr, bx) := al];
        bx := bx + 1;
        if cx == 0 {
          si, escSeen := 0, false;
          out := OK + ACCEPTED + CRLF;
        }
        return;
      }
      if !escSeen && (al == LF || al == CR) {
        ghost var line := inBuf[..si];
        ghost var t := State();
        ClearRest();
        out := Process(line);
        return;
      }
      if !escSeen && al == ESC {
        escSeen := true;
        return;
      }
      escSeen := false;
      if si >= 256 - 1 { return; }
      ghost var before := inBuf[..si];
      inBuf[si] := al;
      si := si + 1;
      assert inBuf[..si] == before + [al];
    }

    /** _main_loop_process_clr: stosb at least once, up to the end of the buffer. */
    method ClearRest()
      requires Valid()
      modifies inBuf
      ensures inBuf[..] == InBuf(old(inBuf[..si]))
    {
      var di := si;
      ghost var line := inBuf[..si];
      inBuf[di] := 0;
      di := di + 1;
      while di < 256
        invariant si < di <= 256
        invariant inBuf[..si] == line
        invariant forall k :: si <= k < di ==> inBuf[k] == 0
      {
        inBuf[di] := 0;
        di := di + 1;
      }
    }

    /** The command handlers on a complete line. */
    method Process(ghost line: bytes) returns (out: bytes)
      requires Valid() && !elsewhere && cx == 0 && |line| == si && inBuf[..] == InBuf(line)
      modifies this
      ensures Valid() && (State(), out) == Command(Target(mode, old(mem), Line(line, false)), line)
    {
      hide Arguments, Fetched;
      ghost var t := Target(mode, mem, Line(line, false));
      out := [];
      var text := inBuf[..];
      var empty := si == 0;
      si, escSeen := 0, false;
      if empty { return; }
      if text[..4] == TEST && text[4] == 0 {
        out := OK + TEST_SUCCESSFUL + CRLF;
      } else if text[..6] == READB {
        var a, count := ParseArguments(text, 6);
        if a >= Limit(mode) { out := ERR + INVALID_ADDRESS + CRLF; return; }
        var data := ReadLoop(a, count);
        out := OK + data + CRLF;
      } else if text[..7] == WRITEB {
        var a, count := ParseArguments(text, 7);
        if a >= Limit(mode) { out := ERR + INVALID_ADDRESS + CRLF; return; }
        if count == 0 { out := OK + ACCEPTED + CRLF; return; }
        addr, bx, cx := a, 0, count;
      } else {
        elsewhere := true;
      }
    }

    /** strtohex_32 for the address, str_skip_whitespace, strtohex for the count (16 bits, or 32 in the 386 stub). */
    method ParseArguments(text: bytes, start: nat) returns (a: uint32, count: nat)
      requires start <= |text|
      ensures (a, count) == Arguments(mode, text[start..])
    {
      hide DigitRun, Val, SkipSpaces;
      var dx, ax, p := Strtohex32(text, start);
      a := dx * TWO_16 + ax;
      var q := if p <= |text| then p else |text|;
      ghost var s := text[start..];
      assert HexRest(s) == text[q..] by {
        var n := DigitRun(Sixteen, s);
        assert n <= |s|;
      }
      q := SkipWhitespace(text, q);
      var dx2, ax2, p2 := Strtohex32(text, q);
      count := if mode.Flat386? then dx2 * TWO_16 + ax2 else ax2;
    }

    /** The READB loop: CX counts down, BX walks up. */
    method ReadLoop(a: uint32, count: nat) returns (out: bytes)
      ensures out == Fetched(mode, mem, a, count)
    {
      out := [];
      var left, b := count, 0;
      while left != 0
        invariant 0 <= left && b + left == count
        invariant out == Fetched(mode, mem, a, b)
      {
        left := left - 1;
        out := out + [mem[Touched(mode, a, b)]];
        b := b + 1;
      }
    }
  }
}
