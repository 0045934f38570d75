/** `QrisService` (src/services/qris.service.ts): turns a static QRIS payload
    into a dynamic one that carries a transaction amount, and appends the
    CRC-16/CCITT-FALSE checksum of the result as four upper-case hex digits.

    The service holds no state, so its two operations are modelled on values:
    `Convert` as a function (the source is a straight-line string pipeline)
    and the checksum as a method with the source's nested loops, proved equal
    to the specification in module Crc16. */
module QrisService {
  import opened JsString
  import opened Crc16

  datatype Option<T> = None | Some(value: T)

  /** Why `convert` cannot produce a payload. */
  datatype ConvertError =
    | MissingLandmark  // no "5802ID": `step2[1]` is undefined and `.trim()` throws a TypeError

  datatype Result<T> = Ok(value: T) | Err(error: ConvertError)

  /** Point of initiation method, tag 01 length 02: "11" is static, "12" dynamic. */
  const StaticPoi := "010211"
  const DynamicPoi := "010212"

  /** Country code, tag 58 length 02 value "ID": where the amount is spliced in. */
  const Landmark := "5802ID"

  // ---------------------------------------------------------------------------
  // The checksum

  /** `(crc & 0xFFFF).toString(16).toUpperCase().padStart(4, '0')`. */
  function Hex4(reg: bv16): string {
    PadStart(ToUpperCase(ToString16(reg as nat)), 4, '0')
  }

  /** The service's rendering is always four upper-case hex digits that read
      back as the register: no value is lost or confused with another. */
  lemma Hex4Format(reg: bv16)
    ensures |Hex4(reg)| == 4
    ensures forall k :: 0 <= k < 4 ==> IsUpperHexDigit(Hex4(reg)[k])
    ensures HexValue(Hex4(reg)) == reg as nat
  {
    var digits := ToString16(reg as nat);
    var upper := ToUpperCase(digits);
    HexLength(reg as nat);
    ToString16Value(reg as nat);
    UpperHexValue(digits);
    HexLeadingZeros(4 - |upper|, upper);
    assert Hex4(reg) == Repeat('0', 4 - |upper|) + upper;
  }

  /** `convertCRC16(str)`: the register is kept as ECMAScript keeps it, unmasked
      between rounds, and masked once before formatting. */
  method ConvertCrc16(str: string) returns (hex: string)
    ensures hex == Hex4(Crc(str))
  {
    var crc: bv32 := 0xFFFF;
    for c := 0 to |str|
      invariant crc == JsCrcFrom(JsInit, str[..c])
    {
      JsCrcSnoc(JsInit, str[..c], str[c]);
      assert str[..c + 1] == str[..c] + [str[c]];
      crc := crc ^ ((CharCodeAt(str, c) as bv32) << 8);
      ghost var taken := crc;
      for i := 0 to 8
        invariant crc == JsRounds(taken, i)
      {
        if crc & 0x8000 != 0 {
          JsRoundTaken(crc);
          crc := (crc << 1) ^ 0x1021;
        } else {
          JsRoundNotTaken(crc);
          crc := crc << 1;
        }
      }
    }
    assert str[..|str|] == str;
    JsCrcMasked(str);
    var masked: bv16 := (crc & 0xFFFF) as bv16;
    assert masked == Crc(str);
    hex := PadStart(ToUpperCase(ToString16(masked as nat)), 4, '0');
  }

  /** The empty payload leaves the register at its initial value. */
  lemma EmptyChecksum()
    ensures Hex4(Crc("")) == "FFFF"
  {
    assert ToString16(0xFFFF) == "ffff";
  }

  /** The published check value, as the service renders it. */
  lemma CheckValueHex(s: string)
    requires s == "123456789"
    ensures Hex4(Crc(s)) == "29B1"
  {
    CheckValue(s);
    HexRendering29B1();
  }

  lemma HexRendering29B1()
    ensures Hex4(0x29B1) == "29B1"
  {
    assert ToString16(0x29B1) == "29b1" by { Digits29B1(); }
    assert ToUpperCase("29b1") == "29B1";
  }

  lemma Digits29B1()
    ensures ToString16(0x29B1) == "29b1"
  {
    var n: nat := 0x29B1;
    assert ToString16(n / 0x1000) == "2";
    assert ToString16(n / 0x100) == "29";
    assert ToString16(n / 0x10) == "29b";
  }

  /** A payload whose last four characters are the checksum of everything before them. */
  predicate SelfVerifying(p: string) {
    |p| >= 4 && p[|p| - 4..] == Hex4(Crc(p[..|p| - 4]))
  }

  /** A payload whose body is kept but whose last four characters are changed
      fails the check: only one checksum fits a body. */
  lemma TamperedChecksumFails(p: string, q: string)
    requires SelfVerifying(p)
    requires |q| == |p| && q[..|q| - 4] == p[..|p| - 4] && q[|q| - 4..] != p[|p| - 4..]
    ensures !SelfVerifying(q)
  {
  }

  // ---------------------------------------------------------------------------
  // The amount injection

  /** `qris.slice(0, -4)`: the old checksum value is dropped. */
  function StripChecksum(qris: string): string {
    Slice(qris, 0, -4)
  }

  /** `replace("010211", "010212")`: static becomes dynamic, at the first occurrence only. */
  function Promote(s: string): string {
    ReplaceFirst(s, StaticPoi, DynamicPoi)
  }

  /** `"54" + qty.length.toString().padStart(2, '0') + qty`: the transaction amount data object. */
  function AmountBlock(qty: string): string {
    "54" + PadStart(ToString10(|qty|), 2, '0') + qty
  }

  /** JavaScript truthiness of the optional `tax`: present and not empty. */
  predicate Truthy(tax: Option<string>) {
    tax.Some? && tax.value != ""
  }

  /** `finalUang`: the amount block, the fee string when it is truthy, and the landmark again. */
  function Insertion(qty: string, tax: Option<string>): string {
    var uang := AmountBlock(qty);
    if Truthy(tax) then uang + tax.value + Landmark else uang + Landmark
  }

  /** `step2` to `fix`: the promoted payload `p` split on "5802ID", and the
      insertion put between its trimmed first two pieces.  When there is no
      second piece, `step2[1].trim()` throws. */
  function Splice(p: string, qty: string, tax: Option<string>): Result<string> {
    var step2 := Split(p, Landmark);
    if |step2| < 2 then Err(MissingLandmark)
    else Ok(Trim(step2[0]) + Insertion(qty, tax) + Trim(step2[1]))
  }

  /** `fix`: the rewritten payload, before its checksum. */
  function Rewrite(qris: string, qty: string, tax: Option<string>): Result<string> {
    Splice(Promote(StripChecksum(qris)), qty, tax)
  }

  /** `convert(qris, qty, tax)`: the rewritten payload followed by its checksum,
      so that every payload it returns verifies against its own last four characters. */
  function Convert(qris: string, qty: string, tax: Option<string>): (r: Result<string>)
    ensures r.Ok? <==> Rewrite(qris, qty, tax).Ok?
    ensures r.Err? ==> r == Rewrite(qris, qty, tax)
    ensures r.Ok? ==> |r.value| == |Rewrite(qris, qty, tax).value| + 4
    ensures r.Ok? ==> r.value[..|r.value| - 4] == Rewrite(qris, qty, tax).value
    ensures r.Ok? ==> SelfVerifying(r.value)
  {
    match Rewrite(qris, qty, tax)
    case Err(e) => Err(e)
    case Ok(fix) =>
      Hex4Format(Crc(fix));
      var out := fix + Hex4(Crc(fix));
      assert out[..|out| - 4] == fix && out[|out| - 4..] == Hex4(Crc(fix));
      Ok(out)
  }

  /** `convert` fails exactly when the stripped, promoted payload has no "5802ID". */
  lemma ConvertFailsIffNoLandmark(qris: string, qty: string, tax: Option<string>)
    ensures Convert(qris, qty, tax).Err? <==> !Contains(Promote(StripChecksum(qris)), Landmark)
  {
    IndexOfContains(Promote(StripChecksum(qris)), Landmark);
  }

  /** The four characters after the body never reach the output. */
  lemma OldChecksumIgnored(body: string, c1: string, c2: string, qty: string, tax: Option<string>)
    requires |c1| == 4 && |c2| == 4
    ensures Convert(body + c1, qty, tax) == Convert(body + c2, qty, tax)
  {
    SliceDropLast(body + c1, 4);
    SliceDropLast(body + c2, 4);
    assert (body + c1)[..|body|] == body == (body + c2)[..|body|];
  }

  /** The optional fee string, as it is spliced in. */
  function TaxPart(tax: Option<string>): string {
    if Truthy(tax) then tax.value else ""
  }

  /** The fee is inserted verbatim, with no tag of its own, between the amount
      block and the landmark when it is truthy; otherwise nothing is inserted. */
  lemma InsertionShape(qty: string, tax: Option<string>)
    ensures Insertion(qty, tax) == AmountBlock(qty) + TaxPart(tax) + Landmark
    ensures !Truthy(tax) ==> Insertion(qty, tax) == AmountBlock(qty) + Landmark
  {
    if !Truthy(tax) {
      assert AmountBlock(qty) + "" == AmountBlock(qty);
    }
  }

  /** With the first "5802ID" of the promoted payload `p` at index `i`, the
      output is the trimmed text before it, the insertion, and the trimmed
      text after it up to the next "5802ID". */
  lemma SpliceShape(p: string, qty: string, tax: Option<string>, i: nat)
    requires OccursAt(p, Landmark, i)
    requires forall j :: 0 <= j < i ==> !OccursAt(p, Landmark, j)
    ensures Splice(p, qty, tax) ==
      Ok(Trim(p[..i]) + Insertion(qty, tax) + Trim(UpToNext(p[i + 6..], Landmark)))
  {
    assert IndexOf(p, Landmark) == i;
    var step2 := Split(p, Landmark);
    assert step2[0] == p[..i] by { SplitFirst(p, Landmark); }
    assert |step2| >= 2 && step2[1] == UpToNext(p[i + 6..], Landmark) by { SplitSecond(p, Landmark, i); }
  }

  /** With exactly one landmark, everything after it is kept. */
  lemma OneLandmark(p: string, qty: string, tax: Option<string>, i: nat)
    requires OccursAt(p, Landmark, i)
    requires forall j :: 0 <= j && j != i ==> !OccursAt(p, Landmark, j)
    ensures Splice(p, qty, tax) == Ok(Trim(p[..i]) + Insertion(qty, tax) + Trim(p[i + 6..]))
  {
    SpliceShape(p, qty, tax, i);
    var t := p[i + 6..];
    var j := IndexOf(t, Landmark);
    if j >= 0 {
      OccursInSuffix(p, Landmark, i + 6, j);
      assert false;
    }
  }

  /** The tag and length of the CRC data object, which end the stripped payload. */
  const CrcTag := "6304"

  /** The landmark cannot overlap a "6304" that ends the payload, so the text
      after the landmark still ends in "6304". */
  lemma TagAfterLandmark(p: string, i: nat)
    requires OccursAt(p, Landmark, i)
    requires |p| >= 4 && p[|p| - 4..] == CrcTag
    ensures i + 6 <= |p| - 4
    ensures var tail := p[i + 6..]; tail[|tail| - 4..] == CrcTag
  {
    assert p[i + 5] == 'D' by { assert p[i..i + 6] == Landmark; }
    forall k | |p| - 4 <= k < |p| ensures p[k] != 'D' {
      assert p[k] == p[|p| - 4..][k - (|p| - 4)];
    }
    assert p[i + 6..][|p| - i - 10..] == p[|p| - 4..];
  }

  /** Trimming the text after the landmark keeps its final "6304". */
  lemma TrimmedTailKeepsTag(p: string, i: nat)
    requires OccursAt(p, Landmark, i)
    requires |p| >= 4 && p[|p| - 4..] == CrcTag
    ensures var rest := Trim(p[i + 6..]); |rest| >= 4 && rest[|rest| - 4..] == CrcTag
  {
    var tail := p[i + 6..];
    assert |tail| >= 4 && tail[|tail| - 4..] == CrcTag by { TagAfterLandmark(p, i); }
    assert !IsWhitespace(CrcTag[0]) && !IsWhitespace(CrcTag[3]) by { TagNotWhitespace(); }
    TrimKeepsSuffix(tail, CrcTag);
  }

  lemma TagNotWhitespace()
    ensures !IsWhitespace(CrcTag[0]) && !IsWhitespace(CrcTag[3])
  {
  }

  /** For a promoted payload `p` that ends in "6304" and has one "5802ID", the
      rewrite still ends in "6304". */
  lemma SpliceKeepsTag(p: string, qty: string, tax: Option<string>, i: nat)
    requires OccursAt(p, Landmark, i)
    requires forall j :: 0 <= j && j != i ==> !OccursAt(p, Landmark, j)
    requires |p| >= 4 && p[|p| - 4..] == CrcTag
    ensures Splice(p, qty, tax).Ok?
    ensures |Splice(p, qty, tax).value| >= 4
    ensures Splice(p, qty, tax).value[|Splice(p, qty, tax).value| - 4..] == CrcTag
  {
    var rest := Trim(p[i + 6..]);
    var fix := Trim(p[..i]) + Insertion(qty, tax) + rest;
    OneLandmark(p, qty, tax, i);
    TrimmedTailKeepsTag(p, i);
    SuffixOfConcat(Trim(p[..i]) + Insertion(qty, tax), rest, 4);
  }

  /** For a payload that ends in its CRC data object and has one "5802ID",
      the output's checksum is computed over a body that ends in "6304": the
      CRC data object's own tag and length are covered. */
  lemma ChecksumCoversTag(qris: string, qty: string, tax: Option<string>, p: string, i: nat)
    requires p == Promote(StripChecksum(qris))
    requires OccursAt(p, Landmark, i)
    requires forall j :: 0 <= j && j != i ==> !OccursAt(p, Landmark, j)
    requires |p| >= 4 && p[|p| - 4..] == CrcTag
    ensures Convert(qris, qty, tax).Ok?
    ensures var out := Convert(qris, qty, tax).value;
      |out| >= 8 && out[|out| - 8..|out| - 4] == CrcTag && SelfVerifying(out)
  {
    SpliceKeepsTag(p, qty, tax, i);
    var fix := Rewrite(qris, qty, tax).value;
    var out := Convert(qris, qty, tax).value;
    assert out[..|out| - 4] == fix;
    assert out[|out| - 8..|out| - 4] == fix[|fix| - 4..];
  }

  /** With a second landmark `j` characters after the first, the text from the
      second one on is dropped. */
  lemma SecondLandmarkDropped(p: string, qty: string, tax: Option<string>, i: nat, j: nat)
    requires OccursAt(p, Landmark, i)
    requires forall k :: 0 <= k < i ==> !OccursAt(p, Landmark, k)
    requires OccursAt(p, Landmark, i + 6 + j)
    requires forall k :: i + 6 <= k < i + 6 + j ==> !OccursAt(p, Landmark, k)
    ensures Splice(p, qty, tax) == Ok(Trim(p[..i]) + Insertion(qty, tax) + Trim(p[i + 6..i + 6 + j]))
  {
    UpToNextAt(p, Landmark, i + 6, j);
    SpliceRest(p, qty, tax, i, p[i + 6..i + 6 + j]);
  }

  lemma SpliceRest(p: string, qty: string, tax: Option<string>, i: nat, rest: string)
    requires OccursAt(p, Landmark, i)
    requires forall j :: 0 <= j < i ==> !OccursAt(p, Landmark, j)
    requires UpToNext(p[i + 6..], Landmark) == rest
    ensures Splice(p, qty, tax) == Ok(Trim(p[..i]) + Insertion(qty, tax) + Trim(rest))
  {
    SpliceShape(p, qty, tax, i);
  }

  /** The point-of-initiation rewrite: without "010211" nothing changes;
      otherwise its first occurrence, at `i`, becomes "010212": the one
      character at `i + 5` changes from '1' to '2', and every other character,
      including any later "010211", stays where it was. */
  lemma PromoteNoMatch(s: string)
    requires !Contains(s, StaticPoi)
    ensures Promote(s) == s
  {
    ReplaceFirstNoMatch(s, StaticPoi, DynamicPoi);
  }

  lemma PromoteFirstOnly(s: string, i: nat)
    requires OccursAt(s, StaticPoi, i)
    requires forall j :: 0 <= j < i ==> !OccursAt(s, StaticPoi, j)
    ensures |Promote(s)| == |s|
    ensures Promote(s)[i + 5] == '2' && s[i + 5] == '1'
    ensures forall k :: 0 <= k < |s| && k != i + 5 ==> Promote(s)[k] == s[k]
    ensures forall j :: i + 6 <= j && OccursAt(s, StaticPoi, j) ==> OccursAt(Promote(s), StaticPoi, j)
  {
    ReplaceFirstMatch(s, StaticPoi, DynamicPoi, i);
    var r := Promote(s);
    assert r == s[..i] + DynamicPoi + s[i + 6..];
    assert s[i..i + 6] == StaticPoi;
    assert s[i + 5] == s[i..i + 6][5];
    forall k | 0 <= k < |s| && k != i + 5 ensures r[k] == s[k] {
      if i <= k < i + 6 {
        assert s[k] == s[i..i + 6][k - i];
      }
    }
  }

  /** The amount block: for amounts of at most 99 characters, "54", the length
      as exactly two decimal digits, then the amount; longer amounts get a
      longer length field, which is never truncated. */
  lemma AmountBlockShape(qty: string)
    ensures AmountBlock(qty)[..2] == "54"
    ensures |qty| <= 99 ==>
      |AmountBlock(qty)| == 4 + |qty| &&
      (forall k :: 2 <= k < 4 ==> IsDecimalDigit(AmountBlock(qty)[k])) &&
      DecimalValue(AmountBlock(qty)[2..4]) == |qty| &&
      AmountBlock(qty)[4..] == qty
    ensures |qty| > 99 ==>
      AmountBlock(qty) == "54" + ToString10(|qty|) + qty && |ToString10(|qty|)| >= 3
  {
    var field := PadStart(ToString10(|qty|), 2, '0');
    assert AmountBlock(qty) == "54" + field + qty;
    if |qty| <= 99 {
      LengthField(|qty|);
      assert AmountBlock(qty)[2..4] == field;
      assert AmountBlock(qty)[4..] == qty;
    } else {
      DecimalLength(|qty|);
    }
  }

  /** The length field of an amount of at most 99 characters: exactly two decimal digits giving the length. */
  lemma LengthField(n: nat)
    requires n <= 99
    ensures |PadStart(ToString10(n), 2, '0')| == 2
    ensures forall k :: 0 <= k < 2 ==> IsDecimalDigit(PadStart(ToString10(n), 2, '0')[k])
    ensures DecimalValue(PadStart(ToString10(n), 2, '0')) == n
  {
    var digits := ToString10(n);
    DecimalLength(n);
    ToString10Value(n);
    if n < 10 {
      var field := PadStart(digits, 2, '0');
      assert field == ['0', digits[0]];
      assert field[..1] == ['0'];
      assert DecimalValue(['0']) == 0;
      assert digits == [digits[0]];
      assert DecimalValue(digits) == DecimalDigitValue(digits[0]);
    }
  }

  /** A five-digit amount gets the length field "05". */
  lemma AmountBlockExample()
    ensures AmountBlock("10000") == "540510000"
  {
    assert ToString10(5) == "5";
  }

  /** A thirteen-digit amount gets the length field "13". */
  lemma AmountBlockThirteen()
    ensures AmountBlock("9999999999999") == "5413" + "9999999999999"
  {
    assert ToString10(13) == "13";
  }
}
