/** The standalone `convertCRC16` (src/utils/crc16.util.ts): the same
    CRC-16/CCITT-FALSE register loop as the service's, with a different
    rendering: the hex string is padded only when it has exactly three digits. */
module Crc16Util {
  import opened JsString
  import opened Crc16
  import QrisService

  /** `(crc & 0xFFFF).toString(16).toUpperCase()`, then "0" prepended when it has exactly three digits. */
  function UtilHex(reg: bv16): string {
    var hex := ToUpperCase(ToString16(reg as nat));
    if |hex| == 3 then "0" + hex else hex
  }

  /** `convertCRC16(str)`, as the utility writes it. */
  method ConvertCrc16(str: string) returns (hex: string)
    ensures hex == UtilHex(Crc(str))
  {
    var crc: bv32 := 0xFFFF;
    var strlen := |str|;
    for c := 0 to strlen
      invariant crc == JsCrcFrom(JsInit, str[..c])
    {
      JsCrcSnoc(JsInit, str[..c], str[c]);
      assert str[..c + 1] == str[..c] + [str[c]];
      crc := crc ^ ((CharCodeAt(str, c) as bv32) << 8);
      ghost var taken := crc;
      for i := 0 to 8
        invariant crc == JsRounds(taken, i)
      {
        if crc & 0x8000 != 0 {
          JsRoundTaken(crc);
          crc := (crc << 1) ^ 0x1021;
        } else {
          JsRoundNotTaken(crc);
          crc := crc << 1;
        }
      }
    }
    assert str[..|str|] == str;
    JsCrcMasked(str);
    var masked: bv16 := (crc & 0xFFFF) as bv16;
    assert masked == Crc(str);
    hex := ToUpperCase(ToString16(masked as nat));
    if |hex| == 3 {
      hex := "0" + hex;
    }
  }

  /** The utility's rendering is upper-case hex that reads back as the
      register, but it has four characters only from 0x100 up: one below
      0x10, two below 0x100. */
  lemma UtilHexFormat(reg: bv16)
    ensures forall k :: 0 <= k < |UtilHex(reg)| ==> IsUpperHexDigit(UtilHex(reg)[k])
    ensures HexValue(UtilHex(reg)) == reg as nat
    ensures |UtilHex(reg)| == 4 <==> reg >= 0x100
    ensures reg < 0x10 ==> |UtilHex(reg)| == 1
    ensures 0x10 <= reg < 0x100 ==> |UtilHex(reg)| == 2
  {
    var digits := ToString16(reg as nat);
    var upper := ToUpperCase(digits);
    HexLength(reg as nat);
    ToString16Value(reg as nat);
    UpperHexValue(digits);
    if |upper| == 3 {
      HexLeadingZeros(1, upper);
      assert "0" + upper == Repeat('0', 1) + upper;
    }
  }

  /** The two renderings agree exactly when the register is at least 0x100;
      below that the utility's is shorter. */
  lemma AgreesWithService(reg: bv16)
    ensures UtilHex(reg) == QrisService.Hex4(reg) <==> reg >= 0x100
    ensures reg < 0x100 ==> |UtilHex(reg)| < |QrisService.Hex4(reg)|
  {
    UtilHexFormat(reg);
    QrisService.Hex4Format(reg);
    var upper := ToUpperCase(ToString16(reg as nat));
    HexLength(reg as nat);
    if |upper| == 3 {
      assert QrisService.Hex4(reg) == Repeat('0', 1) + upper;
    }
  }

  /** The utility also leaves the register of the empty string at 0xFFFF. */
  lemma EmptyChecksum()
    ensures UtilHex(Crc("")) == "FFFF"
  {
    assert ToString16(0xFFFF) == "ffff";
  }

  /** The published check value, as the utility renders it. */
  lemma CheckValueHex(s: string)
    requires s == "123456789"
    ensures UtilHex(Crc(s)) == "29B1"
  {
    CheckValue(s);
    AgreesWithService(0x29B1);
    QrisService.HexRendering29B1();
  }

  /** A two-character input whose checksum is below 0x100: the utility renders
      it with two characters where the CRC data object needs four. */
  lemma ShortRendering()
    ensures Crc("0E") == 0x00FB
    ensures UtilHex(Crc("0E")) == "FB"
    ensures QrisService.Hex4(Crc("0E")) == "00FB"
  {
    var s := "0E";
    assert Update(0xFFFF, 0x30) == 0xD7A3 by { UpdateUnrolled(0xFFFF, 0x30); }
    assert Update(0xD7A3, 0x45) == 0x00FB by { UpdateUnrolled(0xD7A3, 0x45); }
    assert LowByte('0') == 0x30 && LowByte('E') == 0x45;
    calc {
      Crc(s);
      CrcFrom(0xD7A3, s[1..]);
      CrcFrom(0x00FB, s[2..]);
    }
    var n: nat := 0xFB;
    assert ToString16(n / 16) == "f";
    assert ToString16(n) == "fb";
    assert ToUpperCase("fb") == "FB";
  }
}
