/** The number printers and parsers of both ends: printf("%X"), hex_to_str, vga_write_dec, s_strtoul_hex,
    s_strtoul_dec, the strtohex routines of the serial stub and the host's strtoul. */
module Numerals {
  import opened Words

  // ---------- digits ----------

  /** chartohex: the value of a hex digit, or -1. */
  function CharToHex(c: int): (d: int)
    ensures -1 <= d < 16
  {
    if 48 <= c <= 57 then c - 48
    else if 97 <= c <= 102 then c - 97 + 10
    else if 65 <= c <= 70 then c - 65 + 10
    else -1
  }

  const UPPER: bytes := [48, 49, 50, 51, 52, 53, 54, 55, 56, 57, 65, 66, 67, 68, 69, 70]
  const LOWER: bytes := [48, 49, 50, 51, 52, 53, 54, 55, 56, 57, 97, 98, 99, 100, 101, 102]

  /** Exactly the characters 0-9, A-F and a-f are digits, each with its place in the alphabet as its value. */
  lemma CharToHexIsPlace(c: byte)
    ensures forall k :: 0 <= k < 16 ==> (CharToHex(c) == k <==> c == UPPER[k] || c == LOWER[k])
    ensures CharToHex(c) == -1 <==> c !in UPPER && c !in LOWER
  {
    if CharToHex(c) >= 0 {
      assert c == UPPER[CharToHex(c)] || c == LOWER[CharToHex(c)];
    }
  }

  predicate IsHex(c: byte) { CharToHex(c) >= 0 }

  predicate IsDec(c: byte) { 0 <= CharToHex(c) < 10 }

  /** hexes[d]: the upper-case digit with value d. */
  function Digit(d: nat): (c: byte)
    requires d < 16
    ensures CharToHex(c) == d
    ensures d < 10 ==> IsDec(c)
  {
    if d < 10 then 48 + d else 55 + d
  }

  ghost predicate AllHex(s: bytes) { forall i :: 0 <= i < |s| ==> IsHex(s[i]) }

  datatype Radix = Ten | Sixteen
  {
    predicate Takes(c: byte) { if Ten? then IsDec(c) else IsHex(c) }

    /** x times the radix. */
    function Up(x: nat): nat { if Ten? then 10 * x else 16 * x }

    /** x divided by the radix, rounding down. */
    function Down(x: nat): nat { if Ten? then x / 10 else x / 16 }

    /** The last digit of x. */
    function Last(x: nat): (d: nat)
      ensures d < 16 && Takes(Digit(d))
      ensures x == Up(Down(x)) + d
    {
      if Ten? then x % 10 else x % 16
    }
  }

  /** The number a digit string denotes, with no bound on its size. */
  function Val(r: Radix, s: bytes): nat
    requires AllHex(s)
  {
    if s == [] then 0 else r.Up(Val(r, s[..|s| - 1])) + CharToHex(s[|s| - 1])
  }

  /** The length of the longest prefix of s made of digits. */
  function DigitRun(r: Radix, s: bytes): (n: nat)
    ensures n <= |s|
    ensures AllHex(s[..n])
    ensures forall i :: 0 <= i < n ==> r.Takes(s[i])
    ensures n < |s| ==> !r.Takes(s[n])
  {
    if s == [] || !r.Takes(s[0]) then 0
    else 1 + DigitRun(r, s[1..])
  }

  lemma DigitRunUnique(r: Radix, s: bytes, n: nat)
    requires n <= |s|
    requires forall i :: 0 <= i < n ==> r.Takes(s[i])
    requires n < |s| ==> !r.Takes(s[n])
    ensures DigitRun(r, s) == n
  {
    var m := DigitRun(r, s);
    assert !(m < n);
    assert !(n < m);
  }

  lemma ValSnoc(r: Radix, s: bytes, c: byte)
    requires AllHex(s) && IsHex(c)
    ensures AllHex(s + [c]) && Val(r, s + [c]) == r.Up(Val(r, s)) + CharToHex(c)
  {
    assert (s + [c])[..|s|] == s;
  }

  // ---------- printers ----------

  /** What printf("%X") (radix 16) and vga_write_dec (radix 10) print for x. */
  function Print(r: Radix, x: nat): (s: bytes)
    ensures s != []
  {
    (if r.Down(x) == 0 then [] else Print(r, r.Down(x))) + [Digit(r.Last(x))]
  }

  function Hex(x: nat): bytes { Print(Sixteen, x) }

  lemma {:induction false} PrintVal(r: Radix, x: nat)
    ensures var s := Print(r, x);
            AllHex(s) && (forall i :: 0 <= i < |s| ==> r.Takes(s[i])) && Val(r, s) == x
  {
    var front: bytes := if r.Down(x) == 0 then [] else Print(r, r.Down(x));
    if r.Down(x) != 0 {
      PrintVal(r, r.Down(x));
    }
    ValSnoc(r, front, Digit(r.Last(x)));
  }

  lemma PrintedIsNoSpace(x: nat)
    ensures Hex(x) != [] && Hex(x)[0] != SPACE && IsHex(Hex(x)[0])
  {
    PrintVal(Sixteen, x);
  }

  /** A number of d digits at most prints in at most d characters. */
  lemma {:induction false} PrintShort(x: nat, d: nat, bound: nat)
    requires d >= 1
    requires bound == Pow16(d)
    requires x < bound
    ensures |Hex(x)| <= d
  {
    assert Pow16(1) == 16;
    if x >= 16 {
      PrintShort(x / 16, d - 1, Pow16(d - 1));
    }
  }

  ghost function Pow16(n: nat): nat { if n == 0 then 1 else 16 * Pow16(n - 1) }

  /** A leading 0 is printed only for zero itself, so a printed number never looks like a "0x" prefix. */
  lemma {:induction false} PrintHead(x: nat)
    ensures Hex(x)[0] == 48 <==> x == 0
    ensures x == 0 ==> Hex(x) == [48]
  {
    if x >= 16 {
      PrintHead(x / 16);
      assert Hex(x)[0] == Hex(x / 16)[0];
    }
  }

  /** The n low hex digits of x, zero-padded. */
  function Fixed(x: nat, n: nat): (s: bytes)
    ensures |s| == n
  {
    if n == 0 then [] else Fixed(x / 16, n - 1) + [Digit(x % 16)]
  }

  function Hex8(x: uint32): bytes { Fixed(x, 8) }

  lemma {:induction false} FixedVal(x: nat, n: nat)
    requires x < Pow16(n)
    ensures AllHex(Fixed(x, n)) && Val(Sixteen, Fixed(x, n)) == x
  {
    if n > 0 {
      FixedVal(x / 16, n - 1);
      ValSnoc(Sixteen, Fixed(x / 16, n - 1), Digit(x % 16));
    }
  }

  lemma Pow16Eight()
    ensures Pow16(8) == TWO_32 && Pow16(16) == TWO_64
  {
    assert Pow16(2) == 256;
    assert Pow16(4) == 65536;
    assert Pow16(6) == 16777216;
    assert Pow16(8) == TWO_32;
    assert Pow16(10) == 256 * TWO_32;
    assert Pow16(12) == 65536 * TWO_32;
    assert Pow16(14) == 16777216 * TWO_32;
  }

  /** s is the first c digits of a 32-bit x and cur holds the others, shifted to the top. */
  ghost predicate PartlyPrinted(x: uint32, s: bytes, cur: uint32, c: nat)
  {
    |s| == c && AllHex(s) && s == Fixed(Val(Sixteen, s), c) && Val(Sixteen, s) * TWO_32 + cur == x * Pow16(c)
  }

  lemma NibbleOut(x: uint32, s: bytes, cur: uint32, c: nat)
    requires PartlyPrinted(x, s, cur, c)
    ensures PartlyPrinted(x, s + [Digit(cur / 0x1000_0000)], (cur * 16) % TWO_32, c + 1)
  {
    hide Val, Fixed, Pow16;
    var v, h, y := Val(Sixteen, s), cur / 0x1000_0000, x * Pow16(c);
    ValSnoc(Sixteen, s, Digit(h));
    NibbleCarry(v, cur, y);
    FixedSnoc(v, h, c);
    PowTimes(x, c);
  }

  lemma FixedSnoc(v: nat, h: nat, c: nat)
    requires h < 16
    ensures Fixed(16 * v + h, c + 1) == Fixed(v, c) + [Digit(h)]
  {
  }

  lemma PowTimes(x: nat, c: nat)
    ensures x * Pow16(c + 1) == 16 * (x * Pow16(c))
  {
    var k := Pow16(c);
    assert Pow16(c + 1) == 16 * k;
    TimesSixteen(x, k);
  }

  lemma NibbleCarry(v: nat, cur: uint32, y: nat)
    requires v * TWO_32 + cur == y
    ensures (16 * v + cur / 0x1000_0000) * TWO_32 + (cur * 16) % TWO_32 == 16 * y
  {
    var h, l := cur / 0x1000_0000, cur % 0x1000_0000;
    assert cur * 16 == h * TWO_32 + 16 * l;
  }

  lemma TimesSixteen(x: nat, k: nat)
    ensures x * (16 * k) == 16 * (x * k)
  {
  }

  lemma AllPrinted(x: uint32, s: bytes, cur: uint32)
    requires PartlyPrinted(x, s, cur, 8)
    ensures s == Hex8(x)
  {
    Pow16Eight();
  }

  /** hex_to_str with 8 digits: the top nibble is printed, then the 32-bit value shifts left. */
  method HexToStr(x: uint32) returns (s: bytes)
    ensures s == Hex8(x)
  {
    s := [];
    var cur: uint32 := x;
    assert PartlyPrinted(x, s, cur, 0);
    for c := 0 to 8
      invariant PartlyPrinted(x, s, cur, c)
    {
      hide *;
      NibbleOut(x, s, cur, c);
      s := s + [Digit(cur / 0x1000_0000)];
      cur := (cur * 16) % TWO_32;
    }
    AllPrinted(x, s, cur);
  }

  /** vga_write_dec: digits are pushed from the right end of a 12-byte stack, then printed left to right. */
  method WriteDec(x: uint32) returns (s: bytes)
    ensures s == Print(Ten, x)
  {
    hide DecSoFar, OnStack, Print;
    var stk: array<byte> := new byte[12];
    var stki := 11;
    var rest: uint32 := x;
    stk[stki] := rest % 10;
    rest := rest / 10;
    ghost var digits: bytes := [Digit(x % 10)];
    FirstDigit(x, stk[..]);
    while rest != 0 && stki > 0
      invariant 2 <= stki <= 11 && DecSoFar(x, stk[..], stki, digits, rest)
      decreases stki
    {
      PushDigit(x, stk[..], stki, digits, rest);
      ghost var before: bytes := stk[..];
      stki := stki - 1;
      stk[stki] := rest % 10;
      assert stk[..] == before[stki := rest % 10];
      digits := [Digit(rest % 10)] + digits;
      rest := rest / 10;
    }
    AllDigits(x, stk[..], stki, digits);
    s := Emit(stk, stki, digits);
  }

  /** The cells from stki on hold the values of the digits. */
  ghost predicate OnStack(stk: bytes, stki: nat, digits: bytes)
  {
    && |stk| == 12 && stki <= 12 && |digits| == 12 - stki
    && forall i :: stki <= i < 12 ==> stk[i] < 10 && stk[i] + 48 == digits[i - stki]
  }

  /** What is still to be printed in front of the digits on the stack. */
  ghost function Front(rest: nat): bytes { if rest == 0 then [] else Print(Ten, rest) }

  /** The digits on the stack end what is to be printed, and the rest still fits the cells below them. */
  ghost predicate DecSoFar(x: uint32, stk: bytes, stki: nat, digits: bytes, rest: nat)
  {
    stki <= 11 && OnStack(stk, stki, digits) && rest <= Cap(11 - stki) && Print(Ten, x) == Front(rest) + digits
  }

  lemma FirstDigit(x: uint32, stk: bytes)
    requires |stk| == 12 && stk[11] == x % 10
    ensures DecSoFar(x, stk, 11, [Digit(x % 10)], x / 10)
  {
    PrintStep(x);
    assert Cap(0) == 429496729;
  }

  lemma PushDigit(x: uint32, stk: bytes, stki: nat, digits: bytes, rest: nat)
    requires DecSoFar(x, stk, stki, digits, rest) && 2 <= stki && rest != 0
    ensures 3 <= stki && |stk| == 12
    ensures DecSoFar(x, stk[stki - 1 := rest % 10], stki - 1, [Digit(rest % 10)] + digits, rest / 10)
  {
    hide Print, Cap;
    PrintStep(rest);
    CapNine();
    CapStep(rest, 11 - stki);
    assert (Front(rest / 10) + [Digit(rest % 10)]) + digits == Front(rest / 10) + ([Digit(rest % 10)] + digits);
  }

  lemma AllDigits(x: uint32, stk: bytes, stki: nat, digits: bytes)
    requires DecSoFar(x, stk, stki, digits, 0)
    ensures OnStack(stk, stki, digits) && digits == Print(Ten, x)
  {
  }

  /** The second loop of vga_write_dec: the digits from stki to the end of the stack. */
  method Emit(stk: array<byte>, start: nat, ghost digits: bytes) returns (s: bytes)
    requires OnStack(stk[..], start, digits)
    ensures s == digits
  {
    s := [];
    var stki := start;
    while stki < 12
      invariant start <= stki <= 12
      invariant s == digits[..stki - start]
    {
      s := s + [stk[..][stki] + 48];
      stki := stki + 1;
    }
  }

  /** The largest a 32-bit number can be after n + 1 divisions by 10. */
  ghost function Cap(n: nat): nat
  {
    if n == 0 then 429496729 else Cap(n - 1) / 10
  }

  lemma PrintStep(x: nat)
    ensures Print(Ten, x) == (if x / 10 == 0 then [] else Print(Ten, x / 10)) + [Digit(x % 10)]
  {
  }

  lemma CapStep(rest: nat, n: nat)
    requires rest <= Cap(n)
    ensures rest / 10 <= Cap(n + 1)
  {
  }

  lemma CapNine()
    ensures Cap(9) == 0
  {
    assert Cap(3) == 429496;
    assert Cap(6) == 429;
  }

  // ---------- parsers ----------

  /** s_strtoul_hex: skip an optional "0x", take the longest run of hex digits, keep 32 bits.
      The result is the value and what is left of the text. */
  function HexField(s: bytes): (uint32, bytes)
  {
    var t := if |s| >= 2 && s[0] == 48 && s[1] == 120 then s[2..] else s;
    (Val(Sixteen, t[..DigitRun(Sixteen, t)]) % TWO_32, t[DigitRun(Sixteen, t)..])
  }

  /** s_strtoul_dec. */
  function DecField(s: bytes): (uint32, bytes)
  {
    (Val(Ten, s[..DigitRun(Ten, s)]) % TWO_32, s[DigitRun(Ten, s)..])
  }

  /** skip_whitespace. */
  function SkipSpaces(s: bytes): bytes
  {
    if s != [] && s[0] == SPACE then SkipSpaces(s[1..]) else s
  }

  /** A 32-bit shift by a nibble, then "or" of a digit, keeps the value modulo 2^32. */
  lemma ShiftMod(v: nat, d: nat)
    requires d < 16
    ensures ((v % TWO_32) * 16) % TWO_32 + d == (16 * v + d) % TWO_32
  {
    var k := (v % TWO_32) / 0x1000_0000;
    var low := v % 0x1000_0000;
    assert v % TWO_32 == k * 0x1000_0000 + low;
    assert ((v % TWO_32) * 16) % TWO_32 == 16 * low;
    assert 16 * v + d == (v / 0x1000_0000) * TWO_32 + (16 * low + d);
  }

  lemma TenMod(v: nat, d: nat)
    requires d < 16
    ensures (((v % TWO_32) * 10) % TWO_32 + d) % TWO_32 == (10 * v + d) % TWO_32
  {
    var q, w := v / TWO_32, v % TWO_32;
    assert v == q * TWO_32 + w;
    var z := w * 10;
    assert z == (z / TWO_32) * TWO_32 + z % TWO_32;
    assert 10 * v + d == (10 * q + z / TWO_32) * TWO_32 + (z % TWO_32 + d);
  }

  /** One step of strtohex_32 on the register pair. */
  lemma RegisterShift(v: nat, dx: uint16, ax: uint16, d: nat)
    requires d < 16
    requires dx * TWO_16 + ax == v % TWO_32 && ax == v % TWO_16
    ensures var dx', ax' := (dx * 16) % TWO_16 + ax / 0x1000, (ax * 16) % TWO_16 + d;
            0 <= dx' < TWO_16 && 0 <= ax' < TWO_16 &&
            dx' * TWO_16 + ax' == (16 * v + d) % TWO_32 && ax' == (16 * v + d) % TWO_16
  {
    ShiftMod(v, d);
    SixteenMod(v, d);
    PairShift(dx, ax);
    NibbleShift(ax);
    NibbleShift(dx);
  }

  /** Shifting a 16-bit register left by a nibble keeps its low 12 bits. */
  lemma NibbleShift(x: uint16)
    ensures (x * 16) % TWO_16 == 16 * (x % 0x1000) && x == (x / 0x1000) * 0x1000 + x % 0x1000
  {
    assert x * 16 == (x / 0x1000) * TWO_16 + 16 * (x % 0x1000);
  }

  /** The pair shifts as one 32-bit number when the nibble pushed out of AX enters DX. */
  lemma PairShift(dx: uint16, ax: uint16)
    ensures ((dx * TWO_16 + ax) * 16) % TWO_32 == ((dx * 16) % TWO_16 + ax / 0x1000) * TWO_16 + (ax * 16) % TWO_16
  {
    NibbleShift(ax);
    NibbleShift(dx);
    var dh, dl, ah, al := dx / 0x1000, dx % 0x1000, ax / 0x1000, ax % 0x1000;
    var low := (16 * dl + ah) * TWO_16 + 16 * al;
    assert (dx * TWO_16 + ax) * 16 == dh * TWO_32 + low;
    assert low < TWO_32;
  }

  lemma SixteenMod(v: nat, d: nat)
    requires d < 16
    ensures ((v % TWO_16) * 16) % TWO_16 + d == (16 * v + d) % TWO_16
  {
    var low := v % 0x1000;
    assert ((v % TWO_16) * 16) % TWO_16 == 16 * low;
    assert 16 * v + d == (v / 0x1000) * TWO_16 + (16 * low + d);
  }

  /** s is all digits, and val their value modulo 2^32. */
  ghost predicate Parsed(r: Radix, s: bytes, val: nat)
  {
    AllHex(s) && (forall i :: 0 <= i < |s| ==> r.Takes(s[i])) && val == Val(r, s) % TWO_32
  }

  lemma ParsedDigits(r: Radix, s: bytes, val: nat)
    requires Parsed(r, s, val)
    ensures AllHex(s) && (forall i :: 0 <= i < |s| ==> r.Takes(s[i])) && val == Val(r, s) % TWO_32
  {
  }

  lemma ParsedHex(s: bytes, val: uint32, c: byte)
    requires Parsed(Sixteen, s, val) && IsHex(c)
    ensures (val * 16) % TWO_32 + CharToHex(c) < TWO_32
    ensures Parsed(Sixteen, s + [c], (val * 16) % TWO_32 + CharToHex(c))
  {
    hide Val;
    ValSnoc(Sixteen, s, c);
    ShiftMod(Val(Sixteen, s), CharToHex(c));
  }

  lemma ParsedDec(s: bytes, val: uint32, c: byte)
    requires Parsed(Ten, s, val) && IsDec(c)
    ensures Parsed(Ten, s + [c], ((val * 10) % TWO_32 + CharToHex(c)) % TWO_32)
  {
    hide Val;
    ValSnoc(Ten, s, c);
    TenMod(Val(Ten, s), CharToHex(c));
  }

  /** The s_strtoul_hex loop: 32-bit shift-and-or agrees with the unbounded value of the digits. */
  method StrtoulHex(text: bytes, start: nat) returns (val: uint32, p: nat)
    requires start <= |text|
    ensures start <= p <= |text|
    ensures (val, text[p..]) == HexField(text[start..])
  {
    val, p := 0, start;
    if p + 2 <= |text| && text[p] == 48 && text[p + 1] == 120 {
      p := p + 2;
    }
    ghost var from := p;
    assert HexSoFar(text, start, from, p, val);
    while p < |text| && CharToHex(text[p]) >= 0
      invariant start <= p <= |text|
      invariant HexSoFar(text, start, from, p, val)
    {
      hide HexSoFar;
      HexOneMore(text, start, from, p, val);
      val := (val * 16) % TWO_32 + CharToHex(text[p]);   // the low nibble is clear, so "or" adds
      p := p + 1;
    }
    hide HexSoFar, HexField;
    HexFieldFound(text, start, from, p, val);
  }

  /** The digits begin at `from`, behind an optional "0x", and those up to p have the value val. */
  ghost predicate HexSoFar(text: bytes, start: nat, from: nat, p: nat, val: uint32)
  {
    && start <= from <= p <= |text|
    && from == (if start + 2 <= |text| && text[start] == 48 && text[start + 1] == 120 then start + 2 else start)
    && Parsed(Sixteen, text[from..p], val)
  }

  lemma HexOneMore(text: bytes, start: nat, from: nat, p: nat, val: uint32)
    requires HexSoFar(text, start, from, p, val) && p < |text| && IsHex(text[p])
    ensures (val * 16) % TWO_32 + CharToHex(text[p]) < TWO_32
    ensures HexSoFar(text, start, from, p + 1, (val * 16) % TWO_32 + CharToHex(text[p]))
  {
    hide Parsed;
    ParsedHex(text[from..p], val, text[p]);
    assert text[from..p] + [text[p]] == text[from..p + 1];
  }

  lemma HexFieldFound(text: bytes, start: nat, from: nat, p: nat, val: uint32)
    requires HexSoFar(text, start, from, p, val)
    requires p < |text| ==> !IsHex(text[p])
    ensures (val, text[p..]) == HexField(text[start..])
  {
    hide DigitRun, Val;
    var s, t := text[start..], text[from..];
    assert t == if |s| >= 2 && s[0] == 48 && s[1] == 120 then s[2..] else s;
    forall i | from <= i < p
      ensures IsHex(text[i])
    {
      assert text[i] == text[from..p][i - from];
    }
    FieldFound(Sixteen, text, from, p);
  }

  lemma FieldFound(r: Radix, text: bytes, from: nat, p: nat)
    requires from <= p <= |text|
    requires forall i :: from <= i < p ==> r.Takes(text[i])
    requires p < |text| ==> !r.Takes(text[p])
    ensures var t := text[from..];
            DigitRun(r, t) == p - from && t[..p - from] == text[from..p] && t[p - from..] == text[p..]
  {
    hide DigitRun;
    DigitRunUnique(r, text[from..], p - from);
  }

  /** The s_strtoul_dec loop. */
  method StrtoulDec(text: bytes, start: nat) returns (val: uint32, p: nat)
    requires start <= |text|
    ensures start <= p <= |text|
    ensures (val, text[p..]) == DecField(text[start..])
  {
    val, p := 0, start;
    assert Parsed(Ten, text[start..p], val);
    hide Parsed, Val, DigitRun, DecField;
    while p < |text| && CharToHex(text[p]) >= 0
      invariant start <= p <= |text|
      invariant Parsed(Ten, text[start..p], val)
    {
      if CharToHex(text[p]) >= 10 { break; }
      ParsedDec(text[start..p], val, text[p]);
      assert text[start..p] + [text[p]] == text[start..p + 1];
      val := ((val * 10) % TWO_32 + CharToHex(text[p])) % TWO_32;
      p := p + 1;
    }
    ParsedDigits(Ten, text[start..p], val);
    DecFieldFound(text, start, p);
  }

  lemma DecFieldFound(text: bytes, start: nat, p: nat)
    requires start <= p <= |text|
    requires AllHex(text[start..p]) && forall i :: 0 <= i < p - start ==> IsDec(text[start..p][i])
    requires p < |text| ==> !IsDec(text[p])
    ensures DecField(text[start..]) == (Val(Ten, text[start..p]) % TWO_32, text[p..])
  {
    hide DigitRun, Val;
    forall i | start <= i < p
      ensures IsDec(text[i])
    {
      assert text[i] == text[start..p][i - start];
    }
    FieldFound(Ten, text, start, p);
  }

  /** skip_whitespace as the loop it is. */
  method SkipWhitespace(text: bytes, start: nat) returns (p: nat)
    requires start <= |text|
    ensures start <= p <= |text|
    ensures text[p..] == SkipSpaces(text[start..])
  {
    p := start;
    while p < |text| && text[p] == SPACE
      invariant start <= p <= |text|
      invariant SkipSpaces(text[p..]) == SkipSpaces(text[start..])
    {
      assert text[p..][1..] == text[p + 1..];
      p := p + 1;
    }
  }

  /** strtohex_32: the nibble pushed out of AX moves into DX, so DX:AX is the value modulo 2^32 (and AX alone, which
      is all strtohex keeps, the value modulo 2^16). */
  method Strtohex32(text: bytes, start: nat) returns (dx: uint16, ax: uint16, si: nat)
    requires start <= |text|
    ensures var n := DigitRun(Sixteen, text[start..]);
            var v := Val(Sixteen, text[start..][..n]);
            dx * TWO_16 + ax == v % TWO_32 && ax == v % TWO_16 && si == start + n + 1
  {
    dx, ax, si := 0, 0, start;
    assert RegistersHold(text[start..si], dx, ax);
    while si < |text| && CharToHex(text[si]) >= 0
      invariant start <= si <= |text|
      invariant RegistersHold(text[start..si], dx, ax)
    {
      hide RegistersHold;
      RegistersStep(text[start..si], dx, ax, text[si]);
      assert text[start..si] + [text[si]] == text[start..si + 1];
      var bl := CharToHex(text[si]);
      var out := ax / 0x1000;
      dx := (dx * 16) % TWO_16 + out;
      ax := (ax * 16) % TWO_16 + bl;
      si := si + 1;
    }
    DigitsFound(text, start, si);
    si := si + 1;   // lodsb has already stepped over the character that is not a digit
  }

  /** DX:AX hold the value of the digits s. */
  ghost predicate RegistersHold(s: bytes, dx: uint16, ax: uint16)
  {
    AllHex(s) && dx * TWO_16 + ax == Val(Sixteen, s) % TWO_32 && ax == Val(Sixteen, s) % TWO_16
  }

  lemma RegistersStep(s: bytes, dx: uint16, ax: uint16, c: byte)
    requires RegistersHold(s, dx, ax) && IsHex(c)
    ensures var dx', ax' := (dx * 16) % TWO_16 + ax / 0x1000, (ax * 16) % TWO_16 + CharToHex(c);
            dx' < TWO_16 && ax' < TWO_16 && RegistersHold(s + [c], dx', ax')
  {
    hide Val;
    ValSnoc(Sixteen, s, c);
    RegisterShift(Val(Sixteen, s), dx, ax, CharToHex(c));
  }

  lemma DigitsFound(text: bytes, start: nat, p: nat)
    requires start <= p <= |text| && AllHex(text[start..p]) && (p < |text| ==> !IsHex(text[p]))
    ensures DigitRun(Sixteen, text[start..]) == p - start && text[start..][..p - start] == text[start..p]
  {
    hide DigitRun;
    forall i | start <= i < p
      ensures IsHex(text[i])
    {
      assert text[i] == text[start..p][i - start];
    }
    FieldFound(Sixteen, text, start, p);
  }

  // ---------- printers and parsers undo each other ----------

  predicate StartsHex(rest: bytes) { rest != [] && IsHex(rest[0]) }

  /** A digit string that ends where the digits end is parsed to its value, and the rest is left alone. */
  lemma HexFieldOf(d: bytes, rest: bytes)
    requires d != [] && AllHex(d)
    requires !StartsHex(rest)
    requires |d| == 1 && d[0] == 48 ==> rest == [] || rest[0] != 120
    ensures HexField(d + rest) == (Val(Sixteen, d) % TWO_32, rest)
  {
    FieldOf(Sixteen, d, rest);
    if |d| > 1 { assert (d + rest)[1] == d[1]; }
  }

  /** s_strtoul_hex reads a number printed with %X (or %llX) back, modulo 2^32. */
  lemma HexFieldOfPrinted(x: nat, rest: bytes)
    requires !StartsHex(rest)
    requires x == 0 ==> rest == [] || rest[0] != 120
    ensures HexField(Hex(x) + rest) == (x % TWO_32, rest)
  {
    PrintVal(Sixteen, x);
    PrintHead(x);
    HexFieldOf(Hex(x), rest);
  }

  /** What s_strtoul_hex makes of a printed number with anything behind it: hex digits right behind it become its last
      digits. (Zero prints "0", and an x behind that makes it a prefix.) */
  ghost function FieldSeen(x: nat, tail: bytes): uint32
  {
    if x == 0 && tail != [] && tail[0] == 120 then
      Val(Sixteen, tail[1..][..DigitRun(Sixteen, tail[1..])]) % TWO_32
    else
      var n := DigitRun(Sixteen, tail);
      (x * Pow16(n) + Val(Sixteen, tail[..n])) % TWO_32
  }

  lemma FieldSeenIsRead(x: nat, tail: bytes)
    ensures HexField(Hex(x) + tail).0 == FieldSeen(x, tail)
  {
    hide Print, Val, DigitRun, Pow16;
    PrintHead(x);
    PrintVal(Sixteen, x);
    if x == 0 && tail != [] && tail[0] == 120 {
      assert (Hex(x) + tail)[2..] == tail[1..];
    } else {
      var n := DigitRun(Sixteen, tail);
      var digits := Hex(x) + tail[..n];
      assert digits + tail[n..] == Hex(x) + tail;
      ValConcat(Hex(x), tail[..n]);
      assert digits[0] == Hex(x)[0];
      HexFieldOf(digits, tail[n..]);
    }
  }

  lemma {:induction false} ValConcat(a: bytes, b: bytes)
    requires AllHex(a) && AllHex(b)
    ensures AllHex(a + b) && Val(Sixteen, a + b) == Val(Sixteen, a) * Pow16(|b|) + Val(Sixteen, b)
    decreases |b|
  {
    if b == [] {
      assert a + b == a;
    } else {
      var n := |b| - 1;
      var x := Val(Sixteen, a);
      ValConcat(a, b[..n]);
      assert a + b == (a + b[..n]) + [b[n]];
      ValSnoc(Sixteen, a + b[..n], b[n]);
      PowTimes(x, n);
    }
  }

  /** Nothing that continues the number: it reads back. */
  lemma FieldSeenClean(x: nat, tail: bytes)
    requires !StartsHex(tail) && (x == 0 ==> tail == [] || tail[0] != 120)
    ensures FieldSeen(x, tail) == x % TWO_32
  {
    DigitRunUnique(Sixteen, tail, 0);
    assert Pow16(0) == 1;
  }

  lemma OneDigit(x: nat, d: byte)
    requires IsHex(d)
    ensures FieldSeen(x, [d]) == (16 * x + CharToHex(d)) % TWO_32
  {
    DigitRunUnique(Sixteen, [d], 1);
    assert [d][..1] == [] + [d];
    ValSnoc(Sixteen, [], d);
    assert Pow16(1) == 16;
  }

  /** A "0x" in front of a number is skipped. */
  lemma HexFieldOfPrefixed(x: nat, rest: bytes)
    requires !StartsHex(rest)
    ensures HexField([48, 120] + (Hex(x) + rest)) == (x % TWO_32, rest)
  {
    hide Print;
    PrintVal(Sixteen, x);
    FieldOf(Sixteen, Hex(x), rest);
    assert ([48, 120] + (Hex(x) + rest))[2..] == Hex(x) + rest;
  }

  /** s_strtoul_hex reads an 8-digit hex_to_str field back unchanged. */
  lemma HexFieldOfHex8(x: uint32, rest: bytes)
    requires !StartsHex(rest)
    ensures HexField(Hex8(x) + rest) == (x, rest)
  {
    hide HexField, Fixed, Val, Pow16;
    Pow16Eight();
    FixedVal(x, 8);
    HexFieldOf(Hex8(x), rest);
  }

  /** s_strtoul_dec reads what vga_write_dec printed. */
  lemma DecFieldOfPrinted(x: uint32, rest: bytes)
    requires rest == [] || !IsDec(rest[0])
    ensures DecField(Print(Ten, x) + rest) == (x, rest)
  {
    PrintVal(Ten, x);
    hide Print, Val, DigitRun, AllHex;
    var d := Print(Ten, x);
    FieldOf(Ten, d, rest);
    assert x % TWO_32 == x;
  }

  lemma FieldOf(r: Radix, d: bytes, rest: bytes)
    requires forall i :: 0 <= i < |d| ==> r.Takes(d[i])
    requires rest == [] || !r.Takes(rest[0])
    ensures DigitRun(r, d + rest) == |d| && (d + rest)[..|d|] == d && (d + rest)[|d|..] == rest && AllHex(d)
  {
    hide DigitRun;
    DigitRunUnique(r, d + rest, |d|);
  }

  lemma SkipSpacesStops(s: bytes)
    requires s == [] || s[0] != SPACE
    ensures SkipSpaces(s) == s && SkipSpaces([SPACE] + s) == s
  {
    assert ([SPACE] + s)[1..] == s;
  }

  /** skip_whitespace takes all the leading spaces and nothing else. */
  lemma {:induction false} SkipSpacesIs(s: bytes, n: nat)
    requires n <= |s| && (forall i :: 0 <= i < n ==> s[i] == SPACE) && (n < |s| ==> s[n] != SPACE)
    ensures SkipSpaces(s) == s[n..]
    decreases n
  {
    if n > 0 {
      SkipSpacesIs(s[1..], n - 1);
    }
  }

  // ---------- dotted IPv4 addresses ----------

  const DOT: byte := 46

  /** vga_write_ipv4. */
  function PrintIpv4(a: uint32, b: uint32, c: uint32, d: uint32): bytes
  {
    Print(Ten, a) + ([DOT] + (Print(Ten, b) + ([DOT] + (Print(Ten, c) + ([DOT] + Print(Ten, d))))))
  }

  /** change_ip_addr_ui: the new address, or None when a dot is missing and the old address stays. */
  method ReadIpv4(text: bytes) returns (ip: Option<(byte, byte, byte, byte)>)
    ensures ip == Ipv4Field(text)
  {
    hide DecField;
    ip := None;
    var a, b, c, d, p;
    a, p := StrtoulDec(text, 0);
    assert text[0..] == text;
    if p == |text| || text[p] != DOT { return; }
    assert text[p..][1..] == text[p + 1..];
    b, p := StrtoulDec(text, p + 1);
    if p == |text| || text[p] != DOT { return; }
    assert text[p..][1..] == text[p + 1..];
    c, p := StrtoulDec(text, p + 1);
    if p == |text| || text[p] != DOT { return; }
    assert text[p..][1..] == text[p + 1..];
    d, p := StrtoulDec(text, p + 1);
    ip := Some((a % 256, b % 256, c % 256, d % 256));
  }

  function Ipv4Field(text: bytes): Option<(byte, byte, byte, byte)>
  {
    hide DigitRun, Val;
    var (a, s1) := DecField(text);
    if s1 == [] || s1[0] != DOT then None else
    var (b, s2) := DecField(s1[1..]);
    if s2 == [] || s2[0] != DOT then None else
    var (c, s3) := DecField(s2[1..]);
    if s3 == [] || s3[0] != DOT then None else
    var (d, s4) := DecField(s3[1..]);
    Some((a % 256, b % 256, c % 256, d % 256))
  }

  /** Four typed numbers are taken modulo 256. */
  lemma Ipv4Typed(a: uint32, b: uint32, c: uint32, d: uint32)
    ensures Ipv4Field(PrintIpv4(a, b, c, d)) == Some((a % 256, b % 256, c % 256, d % 256))
  {
    hide DecField, Print;
    var t3 := [DOT] + Print(Ten, d);
    var t2 := [DOT] + (Print(Ten, c) + t3);
    var t1 := [DOT] + (Print(Ten, b) + t2);
    DecFieldOfPrinted(a, t1);
    DecFieldOfPrinted(b, t2);
    DecFieldOfPrinted(c, t3);
    DecFieldOfPrinted(d, []);
    assert Print(Ten, d) + [] == Print(Ten, d);
    assert t1[1..] == Print(Ten, b) + t2;
    assert t2[1..] == Print(Ten, c) + t3;
    assert t3[1..] == Print(Ten, d);
  }

  /** A printed IPv4 address typed back in is unchanged. */
  lemma Ipv4RoundTrip(a: byte, b: byte, c: byte, d: byte)
    ensures Ipv4Field(PrintIpv4(a, b, c, d)) == Some((a, b, c, d))
  {
    hide Ipv4Field, PrintIpv4;
    Ipv4Typed(a, b, c, d);
  }

  /** With a dot missing behind the first, second or third number the old address stays. */
  lemma Ipv4NeedsDots(a: uint32, b: uint32, c: uint32, rest: bytes)
    requires rest == [] || (!IsDec(rest[0]) && rest[0] != DOT)
    ensures Ipv4Field(Print(Ten, a) + rest) == None
    ensures Ipv4Field(Print(Ten, a) + ([DOT] + (Print(Ten, b) + rest))) == None
    ensures Ipv4Field(Print(Ten, a) + ([DOT] + (Print(Ten, b) + ([DOT] + (Print(Ten, c) + rest))))) == None
  {
    hide DecField, Print;
    var t1 := [DOT] + (Print(Ten, b) + rest);
    var t2 := [DOT] + (Print(Ten, c) + rest);
    var t3 := [DOT] + (Print(Ten, b) + t2);
    DecFieldOfPrinted(a, rest);
    DecFieldOfPrinted(b, rest);
    DecFieldOfPrinted(c, rest);
    DecFieldOfPrinted(a, t1);
    DecFieldOfPrinted(a, t3);
    DecFieldOfPrinted(b, t2);
    assert t1[1..] == Print(Ten, b) + rest;
    assert t2[1..] == Print(Ten, c) + rest;
    assert t3[1..] == Print(Ten, b) + t2;
  }

  // ---------- the host's strtoul ----------

  predicate IsBlank(c: byte) { c == SPACE || 9 <= c <= 13 }

  function SkipBlanks(s: bytes): bytes
  {
    if s != [] && IsBlank(s[0]) then SkipBlanks(s[1..]) else s
  }

  /** strtoull(s, &rest, 16) of the C library: blanks, a sign, an optional 0x or 0X that a digit follows, digits.
      The value saturates at 2^64 - 1, a minus sign negates it modulo 2^64, and without a digit nothing is consumed. */
  function Strtoull(s: bytes): (uint64, bytes)
  {
    var t := SkipBlanks(s);
    var neg := t != [] && t[0] == 45;
    var u := if t != [] && (t[0] == 45 || t[0] == 43) then t[1..] else t;
    var v := if |u| >= 3 && u[0] == 48 && (u[1] == 120 || u[1] == 88) && IsHex(u[2]) then u[2..] else u;
    var n := DigitRun(Sixteen, v);
    var m := Val(Sixteen, v[..n]);
    if n == 0 then (0, s)
    else if m >= TWO_64 then (TWO_64 - 1, v[n..])
    else (if neg then (TWO_64 - m) % TWO_64 else m, v[n..])
  }

  lemma StrtoullSkipsNewline(s: bytes)
    ensures Strtoull([LF] + s).0 == Strtoull(s).0
  {
    assert ([LF] + s)[1..] == s;
    assert SkipBlanks([LF] + s) == SkipBlanks(s);
  }

  lemma StrtoullOfHex8(x: uint32, rest: bytes)
    requires !StartsHex(rest)
    ensures Strtoull(Hex8(x) + rest) == (x, rest)
  {
    Pow16Eight();
    FixedVal(x, 8);
    var d := Hex8(x);
    var s := d + rest;
    assert s[0] == d[0] && s[1] == d[1];
    DigitRunUnique(Sixteen, s, 8);
    assert s[..8] == d && s[8..] == rest;
  }

  /** One digit, then text that does not go on with a digit. */
  lemma StrtoullOfDigit(d: byte, rest: bytes)
    requires IsHex(d) && d != 48 && !StartsHex(rest)
    ensures Strtoull([d] + rest) == (CharToHex(d), rest)
  {
    var s := [d] + rest;
    FieldOf(Sixteen, [d], rest);
    assert [d][..0] == [];
    assert Val(Sixteen, [d]) == CharToHex(d);
  }

  /** Text that starts with neither a blank, a sign nor a digit converts to 0 and consumes nothing. */
  lemma StrtoullOfNoNumber(s: bytes)
    requires s == [] || (!IsBlank(s[0]) && !IsHex(s[0]) && s[0] != 43 && s[0] != 45)
    ensures Strtoull(s) == (0, s)
  {
    DigitRunUnique(Sixteen, s, 0);
  }
}
