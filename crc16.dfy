/** CRC-16/CCITT-FALSE (catalogued also as CRC-16/IBM-3740), the checksum of
    the EMV QR "CRC" data object: a 16-bit register that starts at 0xFFFF,
    takes each input byte into its high byte and shifts it out most
    significant bit first against the polynomial 0x1021 (x^16 + x^12 + x^5 + 1),
    with no reflection and no final XOR.

    Two views of one computation are defined here: the 16-bit register of the
    algorithm, and the wider register the JavaScript implementations keep,
    which is masked to 16 bits only once, at the end.  They are proved to agree
    on the low 16 bits. */
module Crc16 {
  import opened JsString

  const Init: bv16 := 0xFFFF
  const Poly: bv16 := 0x1021

  // ---------------------------------------------------------------------------
  // The 16-bit register

  /** One bit round: shift left, and XOR the polynomial when bit 15 was set. */
  function Round(reg: bv16): bv16 {
    if reg & 0x8000 != 0 then (reg << 1) ^ Poly else reg << 1
  }

  /** `n` rounds in a row. */
  function Rounds(reg: bv16, n: nat): bv16 {
    if n == 0 then reg else Round(Rounds(reg, n - 1))
  }

  /** One input byte: XORed into the high byte of the register, then eight rounds. */
  function Update(reg: bv16, b: bv8): bv16 {
    Rounds(reg ^ ((b as bv16) << 8), 8)
  }

  /** The byte of a character that reaches the 16-bit register: the low 8 bits of its code unit. */
  function LowByte(c: char): bv8 {
    (CodeUnit(c) & 0xFF) as bv8
  }

  /** The register after the characters of `s`, starting from `reg`. */
  function CrcFrom(reg: bv16, s: string): bv16
    decreases |s|
  {
    if s == [] then reg else CrcFrom(Update(reg, LowByte(s[0])), s[1..])
  }

  /** The checksum of `s`. */
  function Crc(s: string): bv16 {
    CrcFrom(Init, s)
  }

  /** The checksum is computed incrementally: running over `s + t` is running
      over `s`, then over `t` from where `s` left the register. */
  lemma {:induction false} CrcAppend(reg: bv16, s: string, t: string)
    ensures CrcFrom(reg, s + t) == CrcFrom(CrcFrom(reg, s), t)
    decreases |s|
  {
    if s != [] {
      assert (s + t)[1..] == s[1..] + t;
      CrcAppend(Update(reg, LowByte(s[0])), s[1..], t);
    } else {
      assert s + t == t;
    }
  }

  /** A left fold: one more character is one more `Update` of the register. */
  lemma CrcSnoc(reg: bv16, s: string, c: char)
    ensures CrcFrom(reg, s + [c]) == Update(CrcFrom(reg, s), LowByte(c))
  {
    CrcAppend(reg, s, [c]);
  }

  /** Only the low 8 bits of each character code reach the register: strings
      that agree on those bytes have the same checksum. */
  lemma {:induction false} LowBytesOnly(reg: bv16, s: string, t: string)
    requires |s| == |t|
    requires forall k :: 0 <= k < |s| ==> LowByte(s[k]) == LowByte(t[k])
    ensures CrcFrom(reg, s) == CrcFrom(reg, t)
    decreases |s|
  {
    if s != [] {
      assert LowByte(s[0]) == LowByte(t[0]);
      LowBytesOnly(Update(reg, LowByte(s[0])), s[1..], t[1..]);
    }
  }

  /** The eight rounds of `Update`, written out, for evaluating concrete inputs. */
  lemma UpdateUnrolled(reg: bv16, b: bv8)
    ensures Update(reg, b) ==
      var x := reg ^ ((b as bv16) << 8);
      Round(Round(Round(Round(Round(Round(Round(Round(x))))))))
  {
    var x := reg ^ ((b as bv16) << 8);
    assert Rounds(x, 1) == Round(x);
    assert Rounds(x, 2) == Round(Rounds(x, 1));
    assert Rounds(x, 3) == Round(Rounds(x, 2));
    assert Rounds(x, 4) == Round(Rounds(x, 3));
    assert Rounds(x, 5) == Round(Rounds(x, 4));
    assert Rounds(x, 6) == Round(Rounds(x, 5));
    assert Rounds(x, 7) == Round(Rounds(x, 6));
  }

  /** The register through "123", one character at a time. */
  lemma StepsOf123()
    ensures Update(0xFFFF, LowByte('1')) == 0xC782
    ensures Update(0xC782, LowByte('2')) == 0x3DBA
    ensures Update(0x3DBA, LowByte('3')) == 0x5BCE
  {
    assert LowByte('1') == 0x31 && LowByte('2') == 0x32 && LowByte('3') == 0x33;
    UpdateUnrolled(0xFFFF, 0x31);
    UpdateUnrolled(0xC782, 0x32);
    UpdateUnrolled(0x3DBA, 0x33);
  }

  /** Then through "456". */
  lemma StepsOf456()
    ensures Update(0x5BCE, LowByte('4')) == 0x5349
    ensures Update(0x5349, LowByte('5')) == 0x4560
    ensures Update(0x4560, LowByte('6')) == 0x2EF4
  {
    assert LowByte('4') == 0x34 && LowByte('5') == 0x35 && LowByte('6') == 0x36;
    UpdateUnrolled(0x5BCE, 0x34);
    UpdateUnrolled(0x5349, 0x35);
    UpdateUnrolled(0x4560, 0x36);
  }

  /** Then through "789". */
  lemma StepsOf789()
    ensures Update(0x2EF4, LowByte('7')) == 0x7718
    ensures Update(0x7718, LowByte('8')) == 0xA12B
    ensures Update(0xA12B, LowByte('9')) == 0x29B1
  {
    assert LowByte('7') == 0x37 && LowByte('8') == 0x38 && LowByte('9') == 0x39;
    UpdateUnrolled(0x2EF4, 0x37);
    UpdateUnrolled(0x7718, 0x38);
    UpdateUnrolled(0xA12B, 0x39);
  }

  /** The three segments of the check input, each from the register the
      previous one left. */
  lemma CheckValue123(s: string)
    requires s == "123"
    ensures CrcFrom(0xFFFF, s) == 0x5BCE
  {
    StepsOf123();
    calc {
      CrcFrom(0xFFFF, s);
      CrcFrom(0xC782, s[1..]);
      CrcFrom(0x3DBA, s[2..]);
      CrcFrom(0x5BCE, s[3..]);
    }
  }

  lemma CheckValue456(s: string)
    requires s == "456"
    ensures CrcFrom(0x5BCE, s) == 0x2EF4
  {
    StepsOf456();
    calc {
      CrcFrom(0x5BCE, s);
      CrcFrom(0x5349, s[1..]);
      CrcFrom(0x4560, s[2..]);
      CrcFrom(0x2EF4, s[3..]);
    }
  }

  lemma CheckValue789(s: string)
    requires s == "789"
    ensures CrcFrom(0x2EF4, s) == 0x29B1
  {
    StepsOf789();
    calc {
      CrcFrom(0x2EF4, s);
      CrcFrom(0x7718, s[1..]);
      CrcFrom(0xA12B, s[2..]);
      CrcFrom(0x29B1, s[3..]);
    }
  }

  /** The published check value of CRC-16/CCITT-FALSE: the nine digits
      "123456789" give 0x29B1. */
  lemma CheckValue(s: string)
    requires s == "123456789"
    ensures Crc(s) == 0x29B1
  {
    CheckValue123(s[..3]);
    CheckValue456(s[3..6]);
    CheckValue789(s[6..]);
    CrcAppend(Init, s[..3], s[3..]);
    assert s[..3] + s[3..] == s;
    CrcAppend(0x5BCE, s[3..6], s[6..]);
    assert s[3..6] + s[6..] == s[3..];
  }

  // ---------------------------------------------------------------------------
  // The register as the JavaScript code keeps it

  /** ECMAScript's `^`, `&` and `<<` work on 32-bit two's-complement patterns,
      so the unmasked register is a 32-bit vector; its initial value is 0xFFFF. */
  const JsInit: bv32 := 0xFFFF

  /** One round on the unmasked register: bits shifted past bit 15 are kept. */
  function JsRound(reg: bv32): bv32 {
    if reg & 0x8000 != 0 then (reg << 1) ^ 0x1021 else reg << 1
  }

  /** The two branches of a round, one lemma each, so that callers reason
      about the branch they took without unfolding the other. */
  lemma JsRoundTaken(reg: bv32)
    requires reg & 0x8000 != 0
    ensures JsRound(reg) == (reg << 1) ^ 0x1021
  {
  }

  lemma JsRoundNotTaken(reg: bv32)
    requires reg & 0x8000 == 0
    ensures JsRound(reg) == reg << 1
  {
  }

  function JsRounds(reg: bv32, n: nat): bv32 {
    if n == 0 then reg else JsRound(JsRounds(reg, n - 1))
  }

  /** One character: its whole code unit, shifted left by 8, XORed into the register. */
  function JsUpdate(reg: bv32, code: bv16): bv32 {
    JsRounds(reg ^ ((code as bv32) << 8), 8)
  }

  function JsCrcFrom(reg: bv32, s: string): bv32
    decreases |s|
  {
    if s == [] then reg else JsCrcFrom(JsUpdate(reg, CodeUnit(s[0])), s[1..])
  }

  lemma {:induction false} JsCrcAppend(reg: bv32, s: string, t: string)
    ensures JsCrcFrom(reg, s + t) == JsCrcFrom(JsCrcFrom(reg, s), t)
    decreases |s|
  {
    if s != [] {
      assert (s + t)[1..] == s[1..] + t;
      JsCrcAppend(JsUpdate(reg, CodeUnit(s[0])), s[1..], t);
    } else {
      assert s + t == t;
    }
  }

  lemma JsCrcSnoc(reg: bv32, s: string, c: char)
    ensures JsCrcFrom(reg, s + [c]) == JsUpdate(JsCrcFrom(reg, s), CodeUnit(c))
  {
    JsCrcAppend(reg, s, [c]);
  }

  /** `x & 0xFFFF`, as a 16-bit value. */
  function Low16(x: bv32): bv16 {
    (x & 0xFFFF) as bv16
  }

  lemma Low16Shift(x: bv32)
    ensures Low16(x << 1) == Low16(x) << 1
  {
  }

  lemma Low16Xor(x: bv32, y: bv16)
    ensures Low16(x ^ (y as bv32)) == Low16(x) ^ y
  {
  }

  lemma Low16Bit15(x: bv32)
    ensures (x & 0x8000 != 0) == (Low16(x) & 0x8000 != 0)
  {
  }

  /** A round on the unmasked register does to its low 16 bits exactly what a
      round does to the 16-bit register: bit 15 is tested, and nothing above
      it flows down. */
  lemma Low16Round(x: bv32)
    ensures Low16(JsRound(x)) == Round(Low16(x))
  {
    Low16Shift(x);
    Low16Xor(x << 1, 0x1021);
    Low16Bit15(x);
  }

  lemma {:induction false} Low16Rounds(x: bv32, n: nat)
    ensures Low16(JsRounds(x, n)) == Rounds(Low16(x), n)
  {
    if n > 0 {
      Low16Rounds(x, n - 1);
      Low16Round(JsRounds(x, n - 1));
    }
  }

  lemma Low16TakeIn(x: bv32, code: bv16)
    ensures Low16(x ^ ((code as bv32) << 8)) == Low16(x) ^ ((((code & 0xFF) as bv8) as bv16) << 8)
  {
  }

  lemma Low16Update(x: bv32, code: bv16)
    ensures Low16(JsUpdate(x, code)) == Update(Low16(x), (code & 0xFF) as bv8)
  {
    Low16TakeIn(x, code);
    Low16Rounds(x ^ ((code as bv32) << 8), 8);
  }

  /** Masking once at the end gives what masking after every step gives: the
      low 16 bits of the unmasked register after `s` are the 16-bit register
      after `s`, started from the low 16 bits. */
  lemma {:induction false} MaskAtEnd(reg: bv32, s: string)
    ensures Low16(JsCrcFrom(reg, s)) == CrcFrom(Low16(reg), s)
    decreases |s|
  {
    if s != [] {
      Low16Update(reg, CodeUnit(s[0]));
      MaskAtEnd(JsUpdate(reg, CodeUnit(s[0])), s[1..]);
    }
  }

  /** Hence the checksum is the final unmasked register `& 0xFFFF`. */
  lemma JsCrcMasked(s: string)
    ensures Low16(JsCrcFrom(JsInit, s)) == Crc(s)
  {
    MaskAtEnd(JsInit, s);
  }
}
