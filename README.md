# qris-api: a verified model of the QRIS amount injection and its CRC-16

The `qris-api` service takes a static QRIS payload, the EMV merchant-presented QR string used for Indonesian payments. It turns it into a dynamic payload that carries a transaction amount, in five steps:

1. It drops the old checksum value.
2. It changes the point-of-initiation data object from static (`010211`) to dynamic (`010212`).
3. It splices the transaction amount data object (`54`, a two-digit length, the amount) and an optional fee string in front of the country code `5802ID`.
4. It trims the pieces around the splice.
5. It appends a fresh CRC-16/CCITT-FALSE checksum as four upper-case hex digits.

The repository has two copies of the checksum routine. They differ only in how they render the register.

This project models both core files in Dafny:

- `src/services/qris.service.ts`:
  - `convert` is a function, `QrisService.Convert`, because the source is a straight-line string pipeline.
  - The private `convertCRC16` is a method, `QrisService.ConvertCrc16`, with the source's nested loops. It is proved equal to a specification function.
- `src/utils/crc16.util.ts`: the standalone `convertCRC16`, `Crc16Util.ConvertCrc16`, with the same loops and its own padding rule.

The model is split into four modules:

- `JsString` (`js_string.dfy`) models the ECMAScript string builtins the pipeline calls: `slice`, `indexOf`, `replace` with a string pattern, `split`, `trim`, `padStart`, `Number.prototype.toString` in bases 10 and 16, `toUpperCase` and `charCodeAt`. Each follows the ECMAScript definition for the arguments the service passes; `split`, for instance, is modelled only for a non-empty separator, since the service always splits on `5802ID`. The module also proves each builtin's properties, such as the `split`/`join` round trip and digits that read back as the number.
- `Crc16` (`crc16.dfy`) holds two definitions of the checksum:
  - a 16-bit register folded over the characters, which is the specification;
  - the register as the JavaScript code keeps it: a 32-bit pattern, because ECMAScript's `^`, `&` and `<<` act on `ToInt32` values, masked to 16 bits only once at the end.

  The two are proved to agree on the low 16 bits, and the specification is proved to give the published check value 0x29B1 for `"123456789"`.
- `QrisService` (`qris_service.dfy`) holds the pipeline and the service's checksum method. A payload that has no `5802ID` makes `step2[1].trim()` throw a `TypeError`. The model returns `Err(MissingLandmark)` in that case.
- `Crc16Util` (`crc16_util.dfy`) holds the utility's checksum method and its rendering.

The stripped payload keeps the `6304` tag and length of the old CRC data object, because only the last four characters are dropped. For a payload that ends in its CRC data object and has exactly one `5802ID`, the rewrite therefore still ends in `6304`, and the new checksum covers it, as the CRC data object requires (`QrisService.ChecksumCoversTag`). A payload with a second `5802ID` before the CRC data object loses everything from that second one on, `6304` included (`QrisService.SecondLandmarkDropped`).

Three points where the code is narrower than the EMV format it writes, and which the model follows:

- The fee is not wrapped in a tag `55` data object. The code inserts the `tax` string verbatim, with no tag or length of its own (`src/services/qris.service.ts:13`), so a caller must pass it already encoded.
- There is no TLV parser, payload validator or merchant-name extractor in these files: `validateInput` returns `true`. None of them is modelled.
- The register is not masked to 16 bits after every operation, only once, at the end. `Crc16.MaskAtEnd` proves that this gives the same result.

## Model

| member | source | states |
|---|---|---|
| QrisService.Convert | src/services/qris.service.ts:7-16 | `convert` fails exactly when the rewrite fails. Otherwise its output is the rewritten payload `fix` followed by four more characters: four longer than `fix`, with `fix` as its prefix. Its last four characters are the checksum of everything before them, so every output verifies against itself. |
| QrisService.TamperedChecksumFails | src/services/qris.service.ts:15 | Once a payload verifies against itself, changing its last four characters while keeping the body makes it fail: only one checksum fits a body. |
| QrisService.OldChecksumIgnored | src/services/qris.service.ts:8 | Inputs that differ only in their last four characters give the same result: the old checksum value never reaches the output. |
| QrisService.ConvertFailsIffNoLandmark | src/services/qris.service.ts:10-14 | `convert` fails exactly when `5802ID` does not occur in the stripped, promoted payload. |
| QrisService.PromoteNoMatch | src/services/qris.service.ts:9 | Without an occurrence of `010211`, the point-of-initiation rewrite leaves the payload unchanged. |
| QrisService.PromoteFirstOnly | src/services/qris.service.ts:9 | When the first `010211` is at index `i`, the rewrite keeps the length. It changes only the character at `i + 5`, from `1` to `2`. Every later `010211` survives in place. |
| QrisService.AmountBlockShape | src/services/qris.service.ts:11 | The amount block starts with `54`. For amounts of at most 99 characters it is four characters longer than the amount: exactly two decimal digits giving the amount's length, then the amount. Longer amounts get a length field of three or more digits, which is never truncated. |
| QrisService.LengthField | src/services/qris.service.ts:11 | For a length of at most 99, the zero-padded length field has exactly two decimal digits whose value is the length. |
| QrisService.AmountBlockExample | src/services/qris.service.ts:11 | The amount `10000` gives `540510000`. |
| QrisService.AmountBlockThirteen | src/services/qris.service.ts:11 | A thirteen-digit amount gets the length field `13`. |
| QrisService.InsertionShape | src/services/qris.service.ts:13 | What is spliced in is the amount block, then the fee string verbatim when it is truthy (present and non-empty), then `5802ID`. When the fee is absent or empty, nothing is inserted for it. |
| QrisService.SpliceShape | src/services/qris.service.ts:10-14 | With the first `5802ID` of the promoted payload at `i`, the result is three parts: the trimmed text before `i`, the insertion, and the trimmed text after the landmark up to the next `5802ID` or the end. |
| QrisService.OneLandmark | src/services/qris.service.ts:10-14 | With exactly one `5802ID`, at `i`, the result is the trimmed head, the insertion, and the whole trimmed tail. |
| QrisService.SecondLandmarkDropped | src/services/qris.service.ts:10-14 | When a second `5802ID` follows the first, everything from the second one on is dropped. |
| QrisService.TagAfterLandmark | src/services/qris.service.ts:10 | A `5802ID` cannot overlap a `6304` that ends the payload, so the text after the landmark still ends in `6304`. |
| QrisService.TrimmedTailKeepsTag | src/services/qris.service.ts:14 | Trimming the text after the landmark keeps its final `6304`. |
| QrisService.SpliceKeepsTag | src/services/qris.service.ts:10-14 | For a promoted payload that ends in `6304` and has one `5802ID`, the rewrite succeeds and still ends in `6304`. |
| QrisService.ChecksumCoversTag | src/services/qris.service.ts:8-15 | For such a payload, `convert` succeeds, its output verifies against itself, and the four characters just before the checksum are `6304`: the checksum covers the CRC data object's tag and length. |
| QrisService.ConvertCrc16 | src/services/qris.service.ts:18-32 | The nested loops over the unmasked register return the four-digit rendering of the CRC-16/CCITT-FALSE checksum of the input. |
| QrisService.Hex4Format | src/services/qris.service.ts:30 | The service's rendering is always exactly four characters from `0-9A-F`, and their hex value is the register. Distinct registers therefore render differently. |
| QrisService.EmptyChecksum | src/services/qris.service.ts:19-31 | The empty input gives `FFFF`, the initial register. |
| QrisService.CheckValueHex | src/services/qris.service.ts:18-32 | `"123456789"` gives `29B1`. |
| Crc16Util.ConvertCrc16 | src/utils/crc16.util.ts:1-23 | The utility's nested loops return its rendering of the same CRC-16/CCITT-FALSE checksum. |
| Crc16Util.UtilHexFormat | src/utils/crc16.util.ts:20-21 | The utility's rendering is upper-case hex whose value is the register. It has four characters exactly when the register is at least 0x100. Below 0x10 it has one character, and from 0x10 to 0xFF it has two. |
| Crc16Util.AgreesWithService | src/utils/crc16.util.ts:20-21 | The two renderings are equal exactly when the register is at least 0x100. Below that, the utility's is shorter. |
| Crc16Util.EmptyChecksum | src/utils/crc16.util.ts:6-22 | The empty input gives `FFFF`. |
| Crc16Util.CheckValueHex | src/utils/crc16.util.ts:6-22 | `"123456789"` gives `29B1`. |
| Crc16Util.ShortRendering | src/utils/crc16.util.ts:21 | The checksum of `"0E"` is 0x00FB. The utility renders it as `FB`, where the service renders `00FB`. |
| Crc16.CrcAppend | src/utils/crc16.util.ts:9-18 | The checksum is incremental: running over `s + t` is running over `t` from the register that `s` left. |
| Crc16.CrcSnoc | src/utils/crc16.util.ts:9-18 | The checksum is a left fold: one more character is one more eight-round update of the register after the prefix. |
| Crc16.LowBytesOnly | src/utils/crc16.util.ts:10 | Strings whose characters agree in the low 8 bits of their codes have the same checksum. |
| Crc16.CheckValue | src/utils/crc16.util.ts:6-18 | Register 0xFFFF, polynomial 0x1021, MSB-first, with no final XOR, gives 0x29B1 for `"123456789"`. |
| Crc16.JsCrcAppend | src/services/qris.service.ts:20-29 | The unmasked loop is incremental in the same way. |
| Crc16.JsCrcSnoc | src/services/qris.service.ts:20-29 | One more character is one more unmasked update: the character's code unit is shifted left by 8 and XORed in, then eight rounds follow. |
| Crc16.Low16Round | src/utils/crc16.util.ts:12-16 | On the low 16 bits, a round of the unmasked register is exactly a round of the 16-bit register: only bit 15 is tested, and nothing above it flows down. |
| Crc16.Low16Rounds | src/utils/crc16.util.ts:11-17 | The same holds for any number of rounds. |
| Crc16.Low16Update | src/utils/crc16.util.ts:10-17 | On the low 16 bits, taking in a whole code unit is taking in its low byte. |
| Crc16.MaskAtEnd | src/utils/crc16.util.ts:9-20 | Masking the unmasked register once at the end equals running the 16-bit register from the masked start. |
| Crc16.JsCrcMasked | src/services/qris.service.ts:30 | `crc & 0xFFFF` after the loops is the checksum of the input. |
| JsString.Slice | src/services/qris.service.ts:8 | `slice` has the clamped length and the characters at the relative start onward. |
| JsString.SliceDropLast | src/services/qris.service.ts:8 | `slice(0, -4)` keeps everything but the last four characters, and gives the empty string for shorter input. |
| JsString.IndexOf | src/services/qris.service.ts:9 | `indexOf` returns the first index where the pattern occurs, with no occurrence before it, or -1 when there is none. |
| JsString.ReplaceFirstNoMatch | src/services/qris.service.ts:9 | `replace` without a match returns its input. |
| JsString.ReplaceFirstMatch | src/services/qris.service.ts:9 | `replace` puts the replacement in place of the first occurrence only. The text before it has no occurrence, and every later occurrence survives, shifted by the difference in length. |
| JsString.SplitFirst | src/services/qris.service.ts:10 | `split` yields one piece exactly when the separator does not occur. Its first piece is the text up to the first occurrence. |
| JsString.SplitSecond | src/services/qris.service.ts:10 | When the separator occurs, `split` has a second piece: the text between the first occurrence and the next one, or the end. |
| JsString.SplitPiecesFree | src/services/qris.service.ts:10 | No piece of `split` contains the separator. |
| JsString.SplitJoin | src/services/qris.service.ts:10 | Joining the pieces with the separator gives back the input, so `split` loses nothing. |
| JsString.TrimStart | src/services/qris.service.ts:14 | `trim` removes leading characters up to the first one that is not ECMAScript white space or a line terminator, and only those. |
| JsString.TrimEnd | src/services/qris.service.ts:14 | `trim` removes trailing characters after the last one that is not ECMAScript white space or a line terminator, and only those. |
| JsString.Trim | src/services/qris.service.ts:14 | A trimmed string neither starts nor ends with white space. |
| JsString.TrimUnchanged | src/services/qris.service.ts:14 | A string without surrounding white space is unchanged by `trim`. |
| JsString.TrimIdempotent | src/services/qris.service.ts:14 | Trimming twice is trimming once. |
| JsString.TrimKeepsMiddle | src/services/qris.service.ts:14 | `trim` keeps a contiguous piece of its input, and drops only white space around it. |
| JsString.TrimKeepsSuffix | src/services/qris.service.ts:14 | `trim` keeps a suffix that neither starts nor ends with white space. |
| JsString.TrimStartBefore | src/services/qris.service.ts:14 | Leading white space stops at the first character that is not white space. |
| JsString.TrimToLast | src/services/qris.service.ts:14 | When the input does not end in white space, `trim` removes only leading white space. |
| JsString.PadStart | src/services/qris.service.ts:11 | `padStart` never truncates. It prefixes fill characters up to the target length and keeps the input as the suffix. |
| JsString.ToString10Value | src/services/qris.service.ts:11 | `toString()` writes decimal digits that read back as the number. |
| JsString.DecimalLength | src/services/qris.service.ts:11 | Numbers below 10 take one digit and numbers below 100 take two. Larger numbers take three or more. |
| JsString.ToString16Value | src/services/qris.service.ts:30 | `toString(16)` writes lower-case hex digits that read back as the number. |
| JsString.HexLength | src/services/qris.service.ts:30 | Below 0x10000, `toString(16)` has one, two, three or four digits exactly in the ranges below 0x10, 0x100, 0x1000 and 0x10000. |
| JsString.UpperHexValue | src/services/qris.service.ts:30 | `toUpperCase` turns lower-case hex digits into upper-case ones with the same value. |
| JsString.HexLeadingZeros | src/services/qris.service.ts:30 | Leading zeros do not change a hex value. |
| JsString.CodeUnit | src/utils/crc16.util.ts:2-4 | `charCodeAt` gives the character's UTF-16 code unit: for a character of the Basic Multilingual Plane (code below 0x10000), exactly its code. The service's `str.charCodeAt(c)` (`src/services/qris.service.ts:21`) is the same builtin. |
| JsString.CodeUnitExamples | src/services/qris.service.ts:21 | `A` gives 0x41, `0` gives 0x30 and `é` gives 0xE9. |

## Left out

- HTTP routing, the controller, the browser UI, the Redis rate limiter and the type declarations are out of scope. They are request plumbing, network I/O and wall-clock time around the two core files.
- `QrisService.validateInput` is a placeholder that returns `true`, so there is nothing to model.
- Supplementary-plane characters are not modelled. A JavaScript string holds them as two UTF-16 code units, while a Dafny `char` is one Unicode scalar value. `JsString.CodeUnit` is proved to equal the character's code for characters of the Basic Multilingual Plane. For other characters, `length`, `charCodeAt`, `split` and `trim` would see the two surrogate halves, which this model does not.
- JsString.ReplaceFirst: the `$` substitution patterns of `replace` are not modelled. The replacement `010212` contains no `$`, so the model is exact for the service's call.
- JsString.ToUpperCase: only ASCII letters are mapped. It is applied only to the output of `toString(16)`, which is ASCII.
- JsString.Split: the optional limit argument of `split` is not modelled, because the service does not pass one. Nor is an empty separator: the service always splits on `5802ID`, so `Split` requires a non-empty one.
- QrisService.Convert: the case where `tax` is a value other than a string or `undefined` is not modelled. It is declared `string | undefined` and is modelled as `Option<string>`.

## Findings

| source | as written | input that shows it | evidently intended | confidence | as-written member | corrected member |
|---|---|---|---|---|---|---|
| src/utils/crc16.util.ts:21 | Only a three-digit hex string is padded, so a register below 0x100 renders with one or two characters. | `"0E"`: the checksum is 0x00FB, rendered `FB`. | Always four hex digits, as the service copy renders them (`src/services/qris.service.ts:30`) and as the four-character CRC data object needs. | high that the rendering is short for such registers; nothing in the repository imports this utility; not executed | Crc16Util.ShortRendering | QrisService.Hex4Format |
