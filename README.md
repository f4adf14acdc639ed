# QRIS dynamic payload toolkit, modelled in Dafny

This project models the two library files of a QRIS (Indonesian EMVCo
Merchant-Presented Mode QR) payment generator and proves properties of that model.
The generator turns a merchant's static payload into a dynamic payload carrying a
Transaction Amount, and it carries a charge in a shareable link token.

- **lib/qris-utils.ts** (module `QrisUtils`) is the structural path.
  - `parseTLV` reads the payload as a list of data objects. Each object is a
    two-character tag, a two-digit length, then the value.
  - `buildTLV` writes the list back.
  - `setOrReplace` updates the list in place. It is modelled as class `TlvList`,
    whose `items` field the method reassigns.
  - `setAmount` and `buildDynamicFromStatic` set tag "54" to `amount.toFixed(2)`,
    drop every tag "63", and append "6304" plus the CRC-16/CCITT-FALSE of
    everything up to and including "6304".
  - `hex`, `toAsciiBytes` and `crc16ccitt` compute that CRC.
- **lib/qris-codec.ts** (module `QrisCodec`) holds a second copy of `crc16ccitt`
  and the pattern-based injector `buildDynamicQrisWithAmount`, which is the one
  the page calls.
  - The injector strips a trailing `6304XXXX`.
  - It replaces the leftmost match of `54\d{2}\d+(\.\d+)?` or, with no match,
    appends the amount field.
  - It then appends "6304" and the CRC.
- **The link token** (also in lib/qris-codec.ts): `encodeCharge` does
  `JSON.stringify`, then UTF-8, then XOR with a cycling key, then base64url
  without padding. `decodeCharge` reverses each step and returns `null` on any
  failure, or when `a` is not a number greater than 0.

Supporting modules:

- `Crc16` is the reference CRC-16/CCITT-FALSE on `bv16`. It covers the CRC object
  (ID "63") of the EMVCo QRCPS specification: initial value 0xFFFF, polynomial
  0x1021, MSB first, no final XOR.
  - It proves the check value 0x29B1.
  - It proves that a single changed byte always changes the checksum.
- `Base64` models `btoa`/`atob` per section 4 of RFC 4648, with `atob`'s forgiving
  whitespace and padding rules.
- `JsText` models the JavaScript built-ins the code relies on: `toString()`,
  `toString(16)`, `toUpperCase`, `padStart`, `Number.parseInt(s, 10)` and
  `toFixed(2)` on naturals.
- `CrossChecks` relates the two files: the two injectors disagree on a
  concrete payload, and the codec's CRC has the shape and the check value of
  the other copy.

Both CRC loops keep the register in a 32-bit word, as JavaScript's `int32`
operators do. Each one masks with `& 0xFFFF` after every shift. The
`QrisCodec` copy XORs the full 16-bit character code shifted left by eight.
`QrisCodec.CodecRegisterAgrees` proves that this makes no difference, and
`QrisCodec.CrcCopiesAgree` that the two copies return the same text on every
string.

Points where the model's reading is worth knowing:

- Neither injector checks `amount > 0`. `BuildDynamicFromStatic` succeeds for the
  amount 0. The only guard is in the page's UI, which is not part of this model.
- `parseTLV` does not stop at a negative length field. Its next cursor is
  `i + 4 + len`, so "-1" to "-3" move it forward by 3 to 1 characters, "-4"
  leaves it where it is, and "-5" to "-9" move it back. A length field that is
  not a non-negative integer should end the read, and the corrected `Parse`
  ends it there; the loop as written is modelled separately as `Scan`. See
  Findings and Left out.
- The page passes `{ a, n, t }` to `encodeCharge`, with `t` the creation time,
  although the declared `ChargeData` type names only `a` and `n`. The
  `Charge` record carries all three.
- Both injectors exist and the page uses the pattern-based one; both are modelled.

## Model

| member | source | states |
|---|---|---|
| QrisUtils.Hex | lib/qris-utils.ts:13-15 | result is upper-case hex digits whose value is `num`, at least `len` long, exactly `len` long when `num < 16^len` |
| QrisUtils.ToAsciiBytes | lib/qris-utils.ts:17-21 | a fresh array holding the low eight bits of each character code |
| QrisUtils.Crc | lib/qris-utils.ts:24-36 | the CRC text is exactly 4 upper-case hex digits whose value is the CRC-16/CCITT-FALSE of the bytes |
| QrisUtils.Crc16Ccitt | lib/qris-utils.ts:24-36 | the register loop returns the CRC-16/CCITT-FALSE text of its input |
| QrisUtils.FeedByte | lib/qris-utils.ts:28-33 | one byte fed into the masked 32-bit register equals the reference 16-bit update |
| QrisUtils.CrcCheckValue | lib/qris-utils.ts:24-36 | `crc16ccitt("123456789") == "29B1"` |
| Crc16.CheckValue | lib/qris-utils.ts:24-36 | the reference register after the bytes of "123456789" is 0x29B1 |
| Crc16.DetectsSingleByteChange | lib/qris-utils.ts:24-36 | changing one byte anywhere changes the checksum |
| Crc16.RegisterConcat | lib/qris-utils.ts:27-34 | reading `s + t` equals reading `s` and then `t` from that register |
| Crc16.StepBit | lib/qris-utils.ts:30-32 | one masked shift/XOR step of the 32-bit register equals `WideStep`, which the Crc16 lemmas tie to the 16-bit reference step |
| Crc16.ShiftEight | lib/qris-utils.ts:29-33 | the inner loop of eight masked shift/XOR steps computes the eight-step register function |
| QrisUtils.Parse | lib/qris-utils.ts:38-49 | every object read has a two-character tag and a value of at most 99 characters |
| QrisUtils.ParseTlv | lib/qris-utils.ts:38-49 | the cursor loop returns `Parse(payload)` and terminates on every payload; it stops at every negative length field, where the code instead advances by `4 + len`, which moves the cursor backwards for -5 to -9 (see Findings and Left out) |
| QrisUtils.ParseFromNext | lib/qris-utils.ts:41-46 | with length `n` and the value in range, the object carries exactly the next `n` characters and reading resumes after them |
| QrisUtils.ParseFromTruncated | lib/qris-utils.ts:44-46 | with the declared length running past the end, the value is the rest of the payload and reading ends |
| QrisUtils.ParseFromStop | lib/qris-utils.ts:43-47 | an unreadable (NaN) length emits the tag with an empty value and stops, as the code does; the corrected reading treats a negative length the same way |
| QrisUtils.ParseWellFormed | lib/qris-utils.ts:38-49 | every list read is writable by `buildTLV` |
| JsText.ParseInt | lib/qris-utils.ts:43 | `Number.parseInt(s, 10)`: leading JavaScript white space skipped, an optional sign, the longest run of decimal digits, NaN when there are none |
| JsText.ParseIntOfTwoAgrees | lib/qris-utils.ts:43 | the two-character case table equals layered `Number.parseInt(s, 10)` (whitespace, sign, digits) |
| JsText.Pad2Parses | lib/qris-utils.ts:54 | below 100, `n.toString().padStart(2, "0")` is two characters that parse back to `n` |
| QrisUtils.BuildTlv | lib/qris-utils.ts:51-58 | `buildTLV`: each object written as its tag, its value's length padded to at least two digits, and its value, in list order; `ParseBuild` and `BuildTlvLength` state what that text is |
| QrisUtils.BuildTlvConcat | lib/qris-utils.ts:51-58 | `buildTLV(F ++ G) == buildTLV(F) + buildTLV(G)` |
| QrisUtils.BuildTlvLength | lib/qris-utils.ts:51-58 | on well-formed lists the output length is the sum over the objects of 4 plus the value's length |
| QrisUtils.ParseField | lib/qris-utils.ts:38-58 | a well-formed object written in front of any text reads back as that object followed by what the text reads as |
| QrisUtils.ParseBuild | lib/qris-utils.ts:38-58 | round trip: `parseTLV(buildTLV(F)) == F` for every well-formed `F` |
| QrisUtils.FindIndex | lib/qris-utils.ts:61 | `findIndex`: the first index with that tag, or -1 exactly when no object has it |
| QrisUtils.TlvList.SetOrReplace | lib/qris-utils.ts:60-64 | the list becomes `SetOrReplaced(old list, id, value)` |
| QrisUtils.SetOrReplacedFound | lib/qris-utils.ts:62 | when the first match is at `k`, only entry `k` is overwritten and the length is kept |
| QrisUtils.SetOrReplacedAppended | lib/qris-utils.ts:63 | with no object of that tag, exactly one object is appended at the end |
| QrisUtils.LookupSetOrReplaced | lib/qris-utils.ts:60-64 | afterwards the first object with that tag holds the new value |
| QrisUtils.SetOrReplacedSame | lib/qris-utils.ts:60-64 | setting a tag to the value its first object already holds leaves the list unchanged |
| QrisUtils.SetOrReplacedWellFormed | lib/qris-utils.ts:60-64 | replacing or appending a well-formed object keeps the list well formed |
| QrisUtils.WithoutTag | lib/qris-utils.ts:72 | `filter(t => t.id !== id)`: an object is kept exactly when it was present with another tag |
| QrisUtils.WithoutTagConcat | lib/qris-utils.ts:72 | filtering distributes over concatenation |
| QrisUtils.LookupWithoutTag | lib/qris-utils.ts:72 | filtering one tag does not change what another tag looks up to |
| QrisUtils.SetAmount | lib/qris-utils.ts:66-77 | returns `base + "6304" + crc16ccitt(base + "6304")` with `base` the rebuilt objects |
| QrisUtils.BuildDynamicFromStatic | lib/qris-utils.ts:79-82 | fails with "Static QRIS payload missing." on an empty payload; otherwise equals `setAmount`, for any amount |
| QrisUtils.FieldsAmount | lib/qris-utils.ts:66-72 | the rebuilt objects' first tag "54" holds `amount.toFixed(2)` |
| QrisUtils.FieldsWellFormed | lib/qris-utils.ts:66-73 | the rebuilt objects can be written and read back |
| QrisUtils.DynamicParses | lib/qris-utils.ts:66-77 | the dynamic payload reads back as the rebuilt objects followed by one CRC object |
| QrisUtils.DynamicAmount | lib/qris-utils.ts:66-77 | the dynamic payload's first amount object holds `amount.toFixed(2)` |
| QrisUtils.DynamicCrcLast | lib/qris-utils.ts:72-76 | the dynamic payload has exactly one CRC object, and it is last |
| QrisUtils.DynamicValidCrc | lib/qris-utils.ts:74-76 | the last four characters are the CRC of everything before them, preceded by "6304" |
| QrisUtils.DynamicPayloadLength | lib/qris-utils.ts:73-76 | the dynamic payload is eight characters longer than `base` |
| QrisUtils.DynamicKeeps | lib/qris-utils.ts:66-77 | any tag among the rebuilt objects reads back from the dynamic payload with the same value |
| QrisUtils.LookupSetOrReplacedOther | lib/qris-utils.ts:60-64 | `setOrReplace` on one tag leaves what every other tag looks up to unchanged |
| QrisUtils.SetAmountKeepsOthers | lib/qris-utils.ts:66-77 | every tag other than "54" and "63" reads back from the dynamic payload with the value it has in the static payload, or stays absent |
| QrisUtils.SetAmountIdempotent | lib/qris-utils.ts:66-77 | `setAmount(setAmount(p, n), n) == setAmount(p, n)` for every payload |
| QrisUtils.RelativeIndex | lib/qris-utils.ts:42-44 | a `slice` index normalised into `0..length`, unchanged when already in range |
| QrisUtils.Slice | lib/qris-utils.ts:42-44 | `slice` is at most `end - start` long and is the plain subsequence for in-range indices |
| QrisUtils.ScanStep | lib/qris-utils.ts:41-46 | one pass of the loop as written: the tag and `slice` value pushed and the next cursor `i + 4 + len`, NaN when the length is NaN |
| QrisUtils.Scan | lib/qris-utils.ts:38-49 | the loop as written, run for at most a given number of passes: what it pushes if it stops, None if it is still running |
| QrisUtils.ScanTerminates | lib/qris-utils.ts:38-49 | on payloads without negative lengths, the loop as written stops within one pass more than the payload length and returns `Parse(p)` |
| QrisUtils.ScanMatchesParse | lib/qris-utils.ts:40-47 | from any forward cursor, the loop as written returns what `ParseFrom` returns |
| QrisUtils.ScanNeverStops | lib/qris-utils.ts:40-47 | on "00-10-70" the loop as written never stops, whatever the number of passes |
| QrisUtils.ScanShifts | lib/qris-utils.ts:40-47 | on "01-3abcd" the loop as written moves from cursor 0 to 1 and reads the objects "01"="" and "1-"="bcd" |
| QrisUtils.ParseStopsAtNegative | lib/qris-utils.ts:40-47 | the corrected reading of "01-3abcd" is the one object "01"="" |
| QrisUtils.ScanDiffersFromParse | lib/qris-utils.ts:38-49 | on "01-3abcd" the loop as written terminates with a different list than the corrected reading |
| QrisCodec.Crc16Ccitt | lib/qris-codec.ts:2-13 | the loop returns `CodecCrc(data)`, the padded upper-hex of the register read over the full character codes |
| QrisCodec.FeedChar | lib/qris-codec.ts:5-10 | one pass XORs the code shifted by eight and runs the eight masked steps |
| QrisCodec.CodecRegisterAgrees | lib/qris-codec.ts:2-11 | the register over full codes equals the reference register over the low bytes |
| QrisCodec.CrcCopiesAgree | lib/qris-codec.ts:2-13 | the two `crc16ccitt` copies return the same text on every string |
| CrossChecks.CodecCrcShape | lib/qris-codec.ts:9-12 | the codec's CRC is always exactly 4 characters from 0-9A-F |
| CrossChecks.CodecCheckValue | lib/qris-codec.ts:2-13 | the codec's `crc16ccitt("123456789") == "29B1"` |
| QrisCodec.StripTrailingCrc | lib/qris-codec.ts:22 | removes eight characters exactly when the text ends in "6304" and four hex digits, and otherwise nothing |
| QrisCodec.FirstMatch | lib/qris-codec.ts:24-27 | the leftmost position where the pattern can start, or None exactly when it can start nowhere |
| QrisCodec.DigitsEnd | lib/qris-codec.ts:24 | a greedy `\d+` run: all digits, and it ends at the end or at a non-digit |
| QrisCodec.MatchIsAmountText | lib/qris-codec.ts:24-27 | the greedy match is "54", three or more digits, and optionally '.' and digits |
| QrisCodec.BuildDynamicQrisWithAmount | lib/qris-codec.ts:18-32 | returns `toCrc + crc16ccitt(toCrc)` with `toCrc` the updated text followed by "6304" |
| QrisCodec.AmountFieldExample | lib/qris-codec.ts:19-26 | the amount 75000 gives the field "540875000.00" |
| QrisCodec.AmountFieldReads | lib/qris-codec.ts:19-26 | the amount field written reads back as one tag-"54" object holding `amount.toFixed(2)` |
| JsText.ToFixed2Length | lib/qris-codec.ts:19 | `toFixed(2)` of a safe natural has 4 to 19 characters, so its length pads to two digits |
| QrisCodec.DynamicQrisCrc | lib/qris-codec.ts:29-31 | the output ends in "6304" and the CRC of everything before the CRC value |
| QrisCodec.DynamicQrisLength | lib/qris-codec.ts:29-31 | the output is four characters longer than `toCrc` |
| QrisCodec.AppendWhenNoMatch | lib/qris-codec.ts:22-27 | with no match, the text is `noCrc + field54` |
| QrisCodec.ReplaceAtFirstMatch | lib/qris-codec.ts:27 | with the leftmost match at `i`, the text starts with `noCrc[..i] + field54` |
| QrisCodec.SwallowedField | lib/qris-codec.ts:24-27 | on "540875000.005802ID" the replacement yields "540875000.00ID": "5802" is consumed |
| CrossChecks.SetAmountKeepsCountry | lib/qris-utils.ts:66-77 | on the same payload `setAmount` keeps the Country Code object "58" = "ID" |
| CrossChecks.InjectorsDisagree | lib/qris-codec.ts:18-32 | on that payload and 75000 the two injectors return different payloads |
| QrisCodec.Xor | lib/qris-codec.ts:53-57 | `xorBytes` keeps the length |
| QrisCodec.XorBytes | lib/qris-codec.ts:53-57 | a fresh array of each byte XOR-ed with the key code, cycling through the key |
| QrisCodec.LowXor | lib/qris-codec.ts:55 | the low bits of a bitwise XOR fit in that many bits, as `Uint8Array` storage keeps them |
| QrisCodec.XorEmptyKey | lib/qris-codec.ts:55 | with an empty key (`charCodeAt(NaN)` is NaN, read as 0) the bytes come back unchanged |
| QrisCodec.XorInvolution | lib/qris-codec.ts:53-57 | `xorBytes(xorBytes(u, k), k) == u` for every key |
| QrisCodec.BinaryString | lib/qris-codec.ts:41-42 | the loop builds the string of character codes equal to the bytes |
| QrisCodec.ToBase64Url | lib/qris-codec.ts:40-45 | returns `btoa` of the bytes translated to the URL alphabet with the trailing '=' run removed |
| QrisCodec.StripPadding | lib/qris-codec.ts:44 | `replace(/=+$/, "")` gives a prefix that does not end in '=', and every character removed is '=' |
| QrisCodec.UrlEncodeAlphabet | lib/qris-codec.ts:40-45 | the token uses only A-Z a-z 0-9 '-' '_', never '=' |
| QrisCodec.FromBase64Url | lib/qris-codec.ts:46-52 | None where `atob` throws; otherwise a fresh array of the decoded character codes |
| QrisCodec.ByteArray | lib/qris-codec.ts:49-50 | the loop fills a fresh array with each character code modulo 256 |
| QrisCodec.PaddingRestored | lib/qris-codec.ts:47 | `(4 - len % 4) % 4` '=' restore exactly the padding the encoding had |
| QrisCodec.UrlRoundTrip | lib/qris-codec.ts:40-52 | `fromBase64Url(toBase64Url(u)) == u` for every byte sequence |
| Base64.DecodeEncode | lib/qris-codec.ts:43-48 | `atob` of the RFC 4648 encoding of bytes gives back the string of those bytes |
| Base64.AtobBtoa | lib/qris-codec.ts:43-48 | `btoa` succeeds on every Latin-1 string and `atob` undoes it |
| QrisCodec.ToJson | lib/qris-codec.ts:59-60 | the object written has member "a" holding the amount, "n" holding the note exactly when one is given, "t" holding the time exactly when one is given, and no other member |
| QrisCodec.DecodedCharge | lib/qris-codec.ts:66-77 | a result exactly when base64url decoding and JSON parsing succeed and `a` is a number > 0; it is then the parsed object |
| QrisCodec.EncodeCharge | lib/qris-codec.ts:59-64 | returns the base64url of the UTF-8 of the JSON text of the charge, XOR-ed with `KEY` |
| QrisCodec.DecodeCharge | lib/qris-codec.ts:66-77 | never fails; returns `DecodedCharge` with `KEY` |
| QrisCodec.TokenTextOfEncoded | lib/qris-codec.ts:59-70 | where UTF-8 round-trips, the token of a charge decodes to that charge's JSON text, for every key |
| QrisCodec.ChargeRoundTrip | lib/qris-codec.ts:59-77 | where UTF-8 and JSON round-trip, `decodeCharge(encodeCharge(d))` is `d`'s object when `d.a > 0` and `null` otherwise |

## Left out

- The page components, the app layout, the QR rasteriser, canvas poster drawing, clipboard, sharing and React state: UI and foreign calls. The page's `amount > 0` guard lives there and is not added to either injector.
- `formatIDR` and `canonicalOrigin`: `Intl` formatting and `window`.
- `Number.prototype.toFixed` on non-integer amounts: floating-point formatting. The model's amounts (`JsText.Amount`) are naturals up to 2^53 - 1, a bound the model chooses; for them `toFixed(2)` is the decimal digits followed by ".00".
- Amounts above 2^53 - 1: the page accepts any run of digits and checks only `> 0`, so 17 or more digits give a number outside `JsText.Amount`, rounded to the nearest double. From 10^21 on `toFixed(2)` writes exponent notation, and the injector then writes a field such as "54051e+21". Neither case is modelled.
- `JSON.stringify`, `JSON.parse`, `TextEncoder` and `TextDecoder` are parameters (`QrisCodec.Platform`). Their round trips are hypotheses of the round-trip lemmas, not proved.
- Numbers in JSON are `real`, so a NaN or infinite amount is not modelled. A JSON value is a datatype whose objects are maps, so member order is not modelled.
- Strings are sequences of Unicode scalar values, not of UTF-16 code units. A lone surrogate cannot be written, and a character above U+FFFF is one element where JavaScript sees two code units. The model therefore agrees with the code only on text whose characters are all at most U+FFFF; the QRIS payloads and the base64url tokens are ASCII. Case mapping is ASCII only.
- The `KEY` constant is `QrisCodec.Key`, which the token methods use. The functions and lemmas about the token take the key as a parameter and hold for every key.
- QrisUtils.Parse: `Parse`, `ParseTlv`, `SetAmount` and `BuildDynamicFromStatic` follow the corrected reading, which ends at a negative length field. They differ from the code on every payload that has a negative length field, including payloads on which the code terminates: on "01-3abcd" the code returns the objects "01"="" and "1-"="bcd", the model only "01"="" (`ScanDiffersFromParse`).
- QrisUtils.Scan: the loop as written is modelled with a fuel bound, because it need not terminate; None means it is still running after that many passes.
- QrisCodec.FirstMatch: the regular expression is modelled by an explicit leftmost scan and a greedy end. `MatchIsAmountText` shows the match has the pattern's shape; that no longer match exists is not proved.
- QrisCodec.ReplaceAtFirstMatch: states only the text up to the end of the new field. What follows is whatever the greedy match left; no "nothing else changes" is claimed for the replace branch.
- A `buildTLV` then `parseTLV` round trip on arbitrary text is not claimed: it is false for texts with malformed lengths.

## Findings

| source | as written | input that shows it | evidently intended | confidence | as-written member | corrected member |
|---|---|---|---|---|---|---|
| lib/qris-utils.ts:43-46 | `i += 4 + len` with `len = Number.parseInt(...)`, which is negative for a length field such as "-7"; a length of -5 to -9 moves the cursor backwards | "00-10-70": "-1" moves the cursor from 0 to 3, "-7" from 3 back to 0, and `parseTLV` never returns | stop reading at a negative length as at a NaN one; `ScanTerminates` shows this agrees with the code on every payload without negative lengths | not executed | QrisUtils.ScanNeverStops | QrisUtils.ParseTlv |
| lib/qris-codec.ts:24-27 | the greedy `54\d{2}\d+(\.\d+)?` replaces up to the last digit it can reach, not the declared length of the amount object | "540875000.005802ID" with amount 75000: the match ends after "5802", and the result "540875000.00ID" has lost the Country Code object "5802ID" | replace exactly the amount object, as `setAmount` does; `SetAmountKeepsOthers` proves that every tag other than "54" and "63" reads back from its payload with the value it had in the input | not executed | QrisCodec.SwallowedField | QrisUtils.SetAmount |
