# QRIS static-to-dynamic rewrite, modelled in Dafny

QRIS is the Indonesian profile of the EMVCo merchant-presented QR code. A
merchant's static code is a string of TLV fields: a two-digit tag, a
two-digit length and the value. It ends with the checksum field `6304`
followed by four hexadecimal digits of CRC-16/CCITT-FALSE. The repository
turns a static code into a dynamic one that carries an amount. It has two
near-identical copies of that rewrite: the development server's
`processQRIS` in `vite.config.ts` and the deployed POST handler in
`netlify/functions/generate.ts`. Each copy works in these steps:

- drop the old checksum (the last four characters);
- flip the first point-of-initiation field `010211` to `010212`;
- split at the first country field `5802ID`;
- put the amount field `54`, and an optional fee, in front of the country field;
- append the CRC of the whole new payload.

Modules:

- `Wrappers`: `Option` and `Result`.
- `JsString`: the JavaScript string built-ins the rewrite uses.
  - `slice` with negative indices, `indexOf`, `replace` of a string
    pattern (first occurrence only) and `split`;
  - `trim` over the ECMAScript white-space and line-terminator set;
  - `padStart`, `Number.prototype.toString(radix)` and `toUpperCase` on
    hexadecimal digits.
- `Tlv`: an EMV TLV encoder and decoder with a two-digit length. It is not
  part of the repository. It is the reference the built fields are checked
  against: the amount field decodes as tag 54, the fee as tag 55/56/57, the
  marker as 58 = "ID" and the seal as tag 63.
- `Crc16Core`: what both `crc16` copies share.
  - the register is a JavaScript 32-bit integer (`bv32`); the initial value
    is 0xFFFF and the polynomial 0x1021;
  - the shift/XOR round, the outer loop as a left fold, and the UTF-16 code
    units of a string;
  - the four-digit upper-case hexadecimal rendering.
- `QrisCommon`: the steps both copies share. That is, stripping the old
  checksum, the flip, the country marker and the amount field.
- `ViteConfig`: the development copy.
  - `crc16` walks the UTF-16 code units by index. It masks the register to
    16 bits only once, at the end.
  - `processQRIS` writes a float-formatted fee under a bare tag 55. It does
    not handle a missing marker.
- `NetlifyGenerate`: the deployed copy.
  - `crc16` walks code points with `for..of`. It masks after every round.
  - The handler's payload statements become one function. It fails on empty
    input and on a missing marker, trims both halves, and writes the fee
    verbatim behind `55020256` (fixed, `fee_type` "r") or `55020357`
    (percentage, "p").
- `CrcAgreement`: the two `crc16` copies return the same digits on every
  string whose characters lie in the Basic Multilingual Plane. Bits above
  bit 15 never flow back into the low 16 bits.

Both `crc16` functions are imperative methods with their loops (`Crc16`,
`ReadAll`). Each is proved equal to a specification function (`Checksum`,
`FinalRegister`), and the lemmas are stated about those functions.
The payload rewriting is straight-line string construction and is modelled
by functions.

Flipping the point-of-initiation field is idempotent only when `010211`
occurs at most once (`QrisCommon.MarkDynamicSettles`). With a second
occurrence, a second flip changes the string again
(`QrisCommon.MarkDynamicTwice`), because `replace` with a string pattern
replaces only the first match.

## Model

| member | source | states |
|---|---|---|
| Crc16Core.FoldSnoc | vite.config.ts:12-21 | the register after `codes + [c]` is one more step applied to the register after `codes` |
| Crc16Core.FoldAppend | vite.config.ts:12-21 | folding a concatenation folds the second part from the register the first part ended with |
| Crc16Core.FoldPrefix | vite.config.ts:12-21 | the register after the first i+1 codes is one step on the register after the first i |
| Crc16Core.CharUnits | vite.config.ts:12-13 | a BMP character is one code unit equal to its code; any other character is a high surrogate (0xD800-0xDBFF) and a low surrogate (0xDC00-0xDFFF) that together encode its code |
| Crc16Core.CodeUnitsAppend | vite.config.ts:12-13 | the code units of `s + t` are the units of `s` followed by those of `t` |
| Crc16Core.LeadUnit | netlify/functions/generate.ts:9-10 | `ch.charCodeAt(0)` of a BMP character is its code |
| Crc16Core.Hex4Shape | vite.config.ts:24 | below 0x10000, `toString(16).toUpperCase().padStart(4, '0')` is exactly four upper-case hex digits that read back as the number |
| QrisCommon.StripChecksumSpec | vite.config.ts:36 | `slice(0, -4)` removes exactly the last four characters when there are at least four, and gives "" otherwise |
| QrisCommon.MarkDynamicSpec | vite.config.ts:39 | the flip keeps the length; with no `010211` it changes nothing; otherwise it turns the first occurrence into `010212` by changing exactly one character |
| QrisCommon.StaticPoiNoOverlap | vite.config.ts:39 | two occurrences of `010211` are at least six characters apart |
| QrisCommon.MarkDynamicKeepsLater | vite.config.ts:39 | any later occurrence of `010211` survives the flip unchanged |
| QrisCommon.MarkDynamicSettles | vite.config.ts:39 | with at most one `010211`, none is left after the flip and flipping again changes nothing |
| QrisCommon.MarkDynamicTwice | vite.config.ts:39 | with a second `010211`, one is left after the flip and flipping again changes the string |
| QrisCommon.SplitAtMarker | vite.config.ts:42 | `split("5802ID")`: without a marker the single part is the whole string; otherwise part 0 is the text before the first marker and part 1 the text up to the next marker or the end, with exactly two parts when there is no second marker |
| QrisCommon.MarkerSplits | vite.config.ts:42 | a string with the marker at i is the text before it, the marker and the text after it |
| QrisCommon.AmountFieldSpec | vite.config.ts:45-47 | for a quantity of at most 99 characters the amount field is the TLV field 54 = qty and decodes as exactly that; beyond 99 the length prefix grows past two digits |
| QrisCommon.DecodeReassembled | vite.config.ts:68-71 | a payload of TLV fields, a block, the marker and a tail ending in `6304`, then four checksum characters, decodes field by field, with field 58 = "ID" and field 63 = the checksum |
| QrisCommon.CountryFieldDecodes | vite.config.ts:42 | the marker `5802ID` is the single field 58 = "ID" |
| QrisCommon.ChecksumFieldDecodes | vite.config.ts:71 | `6304` followed by four characters is the single field 63 holding them |
| JsString.IndexOf | vite.config.ts:39 | `indexOf` finds the first occurrence, and None means there is none |
| JsString.ReplaceFirstChars | vite.config.ts:39 | `replace` of a same-length string changes exactly the characters of the first occurrence |
| JsString.Split | vite.config.ts:42 | `split` gives at least one part; the parts joined with the separator give back the string, and no part contains the separator |
| JsString.SplitFirstParts | vite.config.ts:42 | the first two parts of `split` are the text before the first separator and the text from there to the next separator or the end |
| JsString.TrimWith | netlify/functions/generate.ts:39 | `trim` keeps one contiguous piece, cuts only white space on either side, and the piece neither starts nor ends with white space |
| JsString.PadStart | vite.config.ts:46 | `padStart` gives length max(len, n), ends with the string, and fills the front with the filler |
| JsString.NumberToStringValue | vite.config.ts:24 | `toString(radix)` spells the number: its digits read back as the number |
| JsString.NumberToStringLength | vite.config.ts:24 | `toString(radix)` has at most k digits exactly when the number is below radix^k |
| Crc16Core.UpperValue | vite.config.ts:24 | `toUpperCase` on the hexadecimal digits keeps the number they denote |
| Tlv.LengthRoundTrip | vite.config.ts:46 | the two-digit length prefix of n ≤ 99 reads back as n |
| Tlv.LengthTextOfValue | vite.config.ts:46 | every two-digit length prefix is the prefix written for the value it reads as |
| Tlv.Pad2IsLengthText | vite.config.ts:46 | `n.toString().padStart(2, '0')` is the two-digit length prefix for n ≤ 99 and is longer beyond |
| Tlv.DecodeEncodeAll | vite.config.ts:47 | decoding encoded well-formed fields gives the fields back |
| Tlv.EncodeDecoded | vite.config.ts:47 | re-encoding what a string decodes to gives the string back |
| Tlv.DecodeAppend | vite.config.ts:68 | two decodable strings side by side decode as the two field lists in order |
| ViteConfig.Checksum | vite.config.ts:8-25 | `crc16` returns four upper-case hex digits that spell the low 16 bits of the register |
| ViteConfig.Crc16 | vite.config.ts:8-25 | the method with its loops returns the specified checksum |
| ViteConfig.ReadAll | vite.config.ts:10-21 | the nested loops leave the unmasked register equal to the fold of 8-round steps over the UTF-16 code units |
| ViteConfig.RegisterSnoc | vite.config.ts:12-21 | one more character is one step per code unit on the register reached so far, and exactly one step for a BMP character |
| ViteConfig.ChecksumEmpty | vite.config.ts:10 | `crc16("")` is "FFFF" |
| ViteConfig.CheckSteps | vite.config.ts:13-20 | the registers after each character of "123456789" |
| ViteConfig.ChecksumCheckValue | vite.config.ts:8-25 | the CRC-16/CCITT-FALSE check input "123456789" gives register 0x4B9129B1 and checksum "29B1" |
| ViteConfig.FeeFieldSpec | vite.config.ts:50-65 | the fee field is empty exactly when no fee applies (always when `serviceFee` is false); otherwise, for a fee text of at most 99 characters, it is the single TLV field 55 holding the text |
| ViteConfig.Seal | vite.config.ts:71 | appending the checksum gives a string whose last four characters are the checksum of the payload before them |
| ViteConfig.ProcessQris | vite.config.ts:28-72 | the result is sealed, and without its last four characters it is the reassembled payload |
| ViteConfig.ReassembleShape | vite.config.ts:42-68 | with a marker, the payload is the text before the first marker, the block, the marker and the text up to the next marker; with a single marker, the block is inserted right before it and nothing else changes |
| ViteConfig.ReassembleWithoutMarker | vite.config.ts:68 | without a marker the payload ends with the marker followed by the text "undefined" |
| ViteConfig.ReassembleDropsAfterSecondMarker | vite.config.ts:42-68 | with a second marker, everything from the second marker on is dropped from the payload |
| ViteConfig.InsertBeforeMarker | vite.config.ts:68 | the splice fails exactly when there is no marker; otherwise it is the string with the block placed right before the first marker, every other character kept |
| ViteConfig.InsertAgrees | vite.config.ts:68 | with exactly one marker the corrected insertion equals the code as written |
| ViteConfig.Rewrite | vite.config.ts:28-72 | the corrected rewrite fails with MissingCountryMarker exactly when the stripped, flipped code has no marker, with AmbiguousCountryMarker exactly when a second marker follows the first, and otherwise returns a sealed payload |
| ViteConfig.RewriteAgrees | vite.config.ts:28-72 | with exactly one marker the corrected rewrite returns what `processQRIS` returns |
| ViteConfig.SealedSpliceDecodes | vite.config.ts:68-71 | a well-formed code gives a sealed payload that decodes as its own fields, the block's fields, field 58, the rest of its fields and field 63 holding the new checksum |
| ViteConfig.BlockDecodes | vite.config.ts:45-65 | the block decodes as field 54 = qty followed by field 55 = fee text when a fee applies |
| NetlifyGenerate.MaskedBound | netlify/functions/generate.ts:11-14 | after every masked round the register is within 0..0xFFFF |
| NetlifyGenerate.StepBound | netlify/functions/generate.ts:10-14 | the register after one character is within 16 bits |
| NetlifyGenerate.FoldBound | netlify/functions/generate.ts:9-15 | a 16-bit register stays within 16 bits through the whole outer loop |
| NetlifyGenerate.FinalRegister | netlify/functions/generate.ts:8-15 | the register after the outer loop is within 16 bits |
| NetlifyGenerate.Checksum | netlify/functions/generate.ts:16 | `crc16` returns four upper-case hex digits that spell the register |
| NetlifyGenerate.Crc16 | netlify/functions/generate.ts:7-17 | the method with its loops returns the specified checksum |
| NetlifyGenerate.ReadAll | netlify/functions/generate.ts:8-15 | the nested loops leave the register equal to the fold of masked 8-round steps over the code points' first units |
| NetlifyGenerate.FeeTextSpec | netlify/functions/generate.ts:33-35 | no fee text unless `service_fee` is set and `fee_type` is "r" or "p"; for "r" it is `55020256`, for "p" `55020357`, then the padded length and the fee value verbatim; up to 99 characters it decodes as 55 = "02" plus 56 = fee, or 55 = "03" plus 57 = fee |
| NetlifyGenerate.FeeTagDecodes | netlify/functions/generate.ts:34-35 | a fee tag made of field 55 and a carrier tag, followed by the padded fee, decodes as those two fields |
| NetlifyGenerate.Seal | netlify/functions/generate.ts:40 | `payload + crc16(payload)`: the last four characters are the checksum of the payload before them |
| NetlifyGenerate.SpliceShape | netlify/functions/generate.ts:31-39 | the splice fails exactly when there is no marker; otherwise it is the trimmed text before the first marker, the block and the trimmed text up to the next marker |
| NetlifyGenerate.Generate | netlify/functions/generate.ts:25-40 | empty `qris` or `qty` is the parameter error; otherwise a missing marker is the error of the 500 path; otherwise the result is sealed |
| NetlifyGenerate.GenerateShape | netlify/functions/generate.ts:30-40 | the result is the sealed `trim(parts[0]) + 54 field + fee text + "5802ID" + trim(parts[1])` |
| NetlifyGenerate.SealedDecodes | netlify/functions/generate.ts:39-40 | a sealed payload of fields, a block, the marker and a tail ending in `6304` decodes field by field up to field 63 holding the checksum |
| NetlifyGenerate.GenerateDecodes | netlify/functions/generate.ts:30-40 | a well-formed code gives a result that decodes as its leading fields, 54 = qty, the fee fields, 58 = "ID", the remaining fields and 63 = the new checksum |
| NetlifyGenerate.BlockDecodes | netlify/functions/generate.ts:32-37 | the amount block decodes as field 54 = qty followed by the fee fields |
| CrcAgreement.RoundLow | vite.config.ts:13-23 | the low 16 bits after a round depend only on the low 16 bits before it |
| CrcAgreement.IterateLow | netlify/functions/generate.ts:11-14 | unmasked rounds and masked rounds agree on the low 16 bits, for any number of rounds |
| CrcAgreement.StepLow | vite.config.ts:13-20 | one character's step in each copy agrees on the low 16 bits |
| CrcAgreement.FoldLow | vite.config.ts:12-21 | the two outer loops agree on the low 16 bits over the same codes |
| CrcAgreement.BmpUnits | netlify/functions/generate.ts:9-10 | on BMP text the units `charCodeAt(i)` walks are the first units `for..of` yields |
| CrcAgreement.AstralUnits | netlify/functions/generate.ts:9 | a character outside the BMP is two code units for the development copy and one for the deployed copy |
| CrcAgreement.RegistersAgree | vite.config.ts:23 | on BMP text the deployed register is the development register masked once |
| CrcAgreement.ChecksumsAgree | vite.config.ts:8-25 | on BMP text (ASCII included) both `crc16` copies return the same four digits |
| CrcAgreement.NetlifyCheckValue | netlify/functions/generate.ts:7-17 | the deployed `crc16` gives "29B1" for "123456789" |

## Left out

- The Express/Vite middleware, JSON bodies, status codes and `QRCode.toDataURL` are left out. They are I/O and a foreign image library. `NetlifyGenerate.Generate` returns an error value in place of the 400 and 500 responses.
- The development handler's check for empty `qris` or `qty` (vite.config.ts:89-95) is left out with the rest of that handler. `ViteConfig.ProcessQris` models `processQRIS` itself, which has no such check.
- ViteConfig.FeeField: the floating-point arithmetic is not modelled. That covers `Number(feeValue) > 0` and the `toFixed(2)` texts of the fixed and the percentage fee. They arrive as the `FeeArithmetic` input, so the contracts say where the fee text goes but not what digits it has.
- NetlifyGenerate.Generate: request values are taken to be strings. A number `qty`, where `toString()` would matter, is not modelled, nor is a missing `fee_value`, whose `.length` would throw.
- The string built-ins (`JsString.Slice`, `IndexOf`, `Split`, `PadStart`, `ReplaceFirst`) and every length the rewrite takes (`qty.length`, `feeValue.length`) count Dafny characters, which are Unicode code points, where ECMAScript counts UTF-16 code units. The rewrite therefore matches JavaScript only on text in the Basic Multilingual Plane: for a quantity holding one astral character the model writes the length "01" where JavaScript writes "02". Only the two `crc16` walks model astral characters unit by unit.
- Lone surrogates, which JavaScript strings may hold, are not modelled, because a Dafny `string` holds Unicode scalar values only.
- CrcAgreement.ChecksumsAgree: the agreement is stated for BMP text only. Outside the BMP the two copies read different code units (`CrcAgreement.AstralUnits`).
- The `Tlv` decoder is not in the repository. It is used only as a reference to state what the built fields mean.

## Findings

| source | as written | input that shows it | evidently intended | confidence | as-written member | corrected member |
|---|---|---|---|---|---|---|
| vite.config.ts:68 | without a `5802ID` marker, `parts[1]` is undefined and the concatenation writes the text "undefined" into the payload | a code with no country field, e.g. "000201010211" + "6304ABCD" | fail without a marker, as the deployed copy does | not executed | ViteConfig.ReassembleWithoutMarker | ViteConfig.Rewrite |
| vite.config.ts:42-68 | with a second `5802ID` in the code (inside a later value), `parts[1]` stops there, so everything from the second marker on, including the old `6304` header, is dropped; netlify/functions/generate.ts:31-39 does the same | "000201010211" + "5802ID" + "5910AB5802IDXY" + "6304ABCD" | reject a repeated marker as ambiguous (AmbiguousCountryMarker) instead of truncating the payload | not executed | ViteConfig.ReassembleDropsAfterSecondMarker | ViteConfig.Rewrite |
