/**
 * lib/qris-codec.ts: the CRC copy and the pattern-based amount injector that
 * the generator page calls, and the opaque link token that carries a charge
 * (amount, note and creation time) as XOR-obfuscated, URL-safe base 64.
 */
module QrisCodec {
  import opened Wrappers
  import opened JsText
  import Crc16
  import QrisUtils
  import Base64

  // ---------------------------------------------------------------------------
  // crc16ccitt

  /**
   * The register after the loop has read `data`: per character, XOR the whole
   * character code, shifted left by eight, into the register, then eight
   * masked steps.
   */
  function CodecRegister(data: string): bv32
  {
    if data == [] then 0xFFFF
    else Crc16.WideShifts(Crc16.WideFeed(CodecRegister(data[..|data| - 1]), data[|data| - 1] as bv32), 8)
  }

  /** What this copy of `crc16ccitt(data)` returns: the register in hex, upper case, padded to four. */
  function CodecCrc(data: string): string
  {
    PadStart(ToUpperCase(HexString(Crc16.Value(CodecRegister(data)))), 4, '0')
  }

  /** One pass of the outer loop. */
  method FeedChar(crc0: bv32, c: char) returns (crc: bv32)
    ensures crc == Crc16.WideShifts(Crc16.WideFeed(crc0, c as bv32), 8)
  {
    crc := crc0 ^ ((c as bv32) << 8);
    crc := Crc16.ShiftEight(crc);
  }

  /** `crc16ccitt(data)` of this file. */
  method Crc16Ccitt(data: string) returns (r: string)
    ensures r == CodecCrc(data)
  {
    var crc: bv32 := 0xFFFF;
    for i := 0 to |data|
      invariant crc == CodecRegister(data[..i])
    {
      assert data[..i + 1][..i] == data[..i];
      crc := FeedChar(crc, data[i]);
    }
    assert data[..|data|] == data;
    r := PadStart(ToUpperCase(HexString(Crc16.Value(crc))), 4, '0');
  }

  /** One character of this copy moves a register holding `r` to the reference update by its low byte. */
  lemma CodecStepAgrees(r: bv16, c: char)
    ensures Crc16.WideShifts(Crc16.WideFeed(Crc16.Widen(r), c as bv32), 8) == Crc16.Widen(Crc16.Update(r, QrisUtils.ByteOf(c)))
  {
    Crc16.WideUpdateAgrees(r, c as bv32);
  }

  /** The register of this copy is the reference register over the bytes the other copy reads. */
  lemma {:induction false} CodecRegisterAgrees(data: string)
    ensures CodecRegister(data) == Crc16.Widen(Crc16.Checksum(QrisUtils.AsciiBytes(data)))
  {
    if data != [] {
      var front := data[..|data| - 1];
      var c := data[|data| - 1];
      var b := QrisUtils.AsciiBytes(data);
      CodecRegisterAgrees(front);
      assert b == QrisUtils.AsciiBytes(front) + [QrisUtils.ByteOf(c)];
      Crc16.RegisterSnoc(Crc16.Init, QrisUtils.AsciiBytes(front), QrisUtils.ByteOf(c));
      CodecStepAgrees(Crc16.Checksum(QrisUtils.AsciiBytes(front)), c);
    } else {
      assert QrisUtils.AsciiBytes(data) == [];
    }
  }

  /**
   * The two copies of `crc16ccitt` agree on every string: this one's full
   * character codes only differ in bits that the 16-bit mask removes.
   */
  lemma CrcCopiesAgree(data: string)
    ensures CodecCrc(data) == QrisUtils.Crc(data)
  {
    CodecRegisterAgrees(data);
    Crc16.WidenValue(Crc16.Checksum(QrisUtils.AsciiBytes(data)));
  }

  // ---------------------------------------------------------------------------
  // buildDynamicQrisWithAmount

  /** `/6304[0-9A-Fa-f]{4}$/i` matches `s`: it ends in "6304" and four hex digits. */
  predicate EndsWithCrc(s: string)
  {
    |s| >= 8 && s[|s| - 8..|s| - 4] == "6304" && AllHexDigits(s[|s| - 4..])
  }

  /** `s.replace(/6304[0-9A-Fa-f]{4}$/i, "")`: a prefix of `s`, shorter by eight exactly when `s` ends in a CRC object. */
  function StripTrailingCrc(s: string): (r: string)
    ensures r <= s
    ensures EndsWithCrc(s) ==> |r| == |s| - 8
    ensures !EndsWithCrc(s) ==> r == s
  {
    if EndsWithCrc(s) then s[..|s| - 8] else s
  }

  /** `/54\d{2}\d+(\.\d+)?/` can start at `i`: "54" followed by at least three ASCII digits. */
  predicate MatchesAt(s: string, i: nat)
  {
    i + 5 <= |s| && s[i] == '5' && s[i + 1] == '4' && IsDigit(s[i + 2]) && IsDigit(s[i + 3]) && IsDigit(s[i + 4])
  }

  /** The end of the run of digits that starts at `j`. */
  function DigitsEnd(s: string, j: nat): (k: nat)
    requires j <= |s|
    ensures j <= k <= |s| && AllDigits(s[j..k])
    ensures k == |s| || !IsDigit(s[k])
    decreases |s| - j
  {
    if j < |s| && IsDigit(s[j]) then
      var k := DigitsEnd(s, j + 1);
      assert s[j..k] == [s[j]] + s[j + 1..k];
      k
    else j
  }

  /** Where the greedy match starting at `i` ends: all its digits, then a '.' and its digits when a digit follows the '.'. */
  function MatchEnd(s: string, i: nat): (k: nat)
    requires MatchesAt(s, i)
    ensures i + 5 <= k <= |s|
  {
    var j := DigitsEnd(s, i + 4);
    if j + 1 < |s| && s[j] == '.' && IsDigit(s[j + 1]) then DigitsEnd(s, j + 1) else j
  }

  /** The leftmost position at or after `i` where the pattern matches, if there is one. */
  function FirstMatch(s: string, i: nat): (r: Option<nat>)
    ensures r.Some? ==> i <= r.value && MatchesAt(s, r.value) && forall m :: i <= m < r.value ==> !MatchesAt(s, m)
    ensures r.None? ==> forall m :: i <= m ==> !MatchesAt(s, m)
    decreases |s| - i
  {
    if |s| < i + 5 then None
    else if MatchesAt(s, i) then Some(i)
    else FirstMatch(s, i + 1)
  }

  /** `w` is a whole match of `54\d{2}\d+(\.\d+)?`: "54", three or more digits, and optionally '.' and digits. */
  predicate IsAmountText(w: string)
  {
    |w| >= 5 && w[0] == '5' && w[1] == '4' &&
    (AllDigits(w[2..]) || exists m :: 5 <= m < |w| - 1 && w[m] == '.' && AllDigits(w[2..m]) && AllDigits(w[m + 1..]))
  }

  /** What the pattern matches at `i` is an amount text. */
  lemma MatchIsAmountText(s: string, i: nat)
    requires MatchesAt(s, i)
    ensures IsAmountText(s[i..MatchEnd(s, i)])
  {
    var j := DigitsEnd(s, i + 4);
    var k := MatchEnd(s, i);
    var w := s[i..k];
    assert AllDigits(s[i + 2..i + 4]);
    assert s[i + 2..j] == s[i + 2..i + 4] + s[i + 4..j];
    if j + 1 < |s| && s[j] == '.' && IsDigit(s[j + 1]) {
      assert w[2..j - i] == s[i + 2..j] && w[j - i + 1..] == s[j + 1..k];
      assert w[j - i] == '.';
    } else {
      assert w[2..] == s[i + 2..j];
    }
  }

  /** The field `buildDynamicQrisWithAmount` writes: "54", the two-digit length of the amount text, the amount text. */
  function AmountField(amount: Amount): string
  {
    var amountStr := ToFixed2(amount);
    "54" + Pad2(|amountStr|) + amountStr
  }

  /** The payload before its CRC object: `field` in place of the leftmost match, or appended when nothing matches. */
  function Updated(noCrc: string, field: string): string
  {
    match FirstMatch(noCrc, 0)
    case Some(i) => noCrc[..i] + field + noCrc[MatchEnd(noCrc, i)..]
    case None => noCrc + field
  }

  /** `buildDynamicQrisWithAmount(staticPayload, amount)` as a value. */
  function DynamicQris(p: string, amount: Amount): string
  {
    var toCrc := Updated(StripTrailingCrc(p), AmountField(amount)) + "6304";
    toCrc + CodecCrc(toCrc)
  }

  /** `buildDynamicQrisWithAmount(staticPayload, amount)`. */
  method BuildDynamicQrisWithAmount(staticPayload: string, amount: Amount) returns (r: string)
    ensures r == DynamicQris(staticPayload, amount)
  {
    var amountStr := ToFixed2(amount);
    var noCrc := StripTrailingCrc(staticPayload);
    var has54 := FirstMatch(noCrc, 0).Some?;
    var updated := noCrc;
    var field54 := "54" + Pad2(|amountStr|) + amountStr;
    if has54 {
      var i := FirstMatch(noCrc, 0).value;
      updated := updated[..i] + field54 + updated[MatchEnd(noCrc, i)..];
    } else {
      updated := updated + field54;
    }
    var toCrc := updated + "6304";
    var crc := Crc16Ccitt(toCrc);
    r := toCrc + crc;
  }

  /** For 75000 the field written is "540875000.00". */
  lemma AmountFieldExample()
    ensures AmountField(75000) == "540875000.00"
  {
    ToFixed2Example();
    assert Decimal(8) == "8";
  }

  /** The amount field reads back, by `parseTLV`, as one Transaction Amount object holding `amount.toFixed(2)`. */
  lemma AmountFieldReads(amount: Amount)
    ensures QrisUtils.Parse(AmountField(amount)) == [QrisUtils.Tlv("54", ToFixed2(amount))]
  {
    var t := QrisUtils.Tlv("54", ToFixed2(amount));
    ToFixed2Length(amount);
    QrisUtils.ParseField(t, "");
    assert AmountField(amount) + "" == AmountField(amount);
    assert QrisUtils.Parse("") == [];
    assert [t] + [] == [t];
  }

  /** The output is the text before the CRC value, ending in "6304", then the CRC of that text. */
  lemma DynamicQrisCrc(p: string, amount: Amount)
    ensures QrisUtils.HasValidCrc(DynamicQris(p, amount))
  {
    var toCrc := Updated(StripTrailingCrc(p), AmountField(amount)) + "6304";
    var q := DynamicQris(p, amount);
    CrcCopiesAgree(toCrc);
    assert q[..|q| - 4] == toCrc;
    assert q[|q| - 8..|q| - 4] == "6304";
  }

  /** The output has four characters more than the text it protects. */
  lemma DynamicQrisLength(p: string, amount: Amount)
    ensures |DynamicQris(p, amount)| == |Updated(StripTrailingCrc(p), AmountField(amount))| + 8
  {
    CrcCopiesAgree(Updated(StripTrailingCrc(p), AmountField(amount)) + "6304");
  }

  /** Without a match the amount field is appended to the stripped payload. */
  lemma AppendWhenNoMatch(p: string, amount: Amount)
    requires forall m :: !MatchesAt(StripTrailingCrc(p), m)
    ensures Updated(StripTrailingCrc(p), AmountField(amount)) == StripTrailingCrc(p) + AmountField(amount)
  {
  }

  /** With a match the text before the leftmost match is kept and the amount field is written there. */
  lemma ReplaceAtFirstMatch(p: string, amount: Amount, i: nat)
    requires MatchesAt(StripTrailingCrc(p), i) && forall m :: 0 <= m < i ==> !MatchesAt(StripTrailingCrc(p), m)
    ensures Updated(StripTrailingCrc(p), AmountField(amount))[..i + |AmountField(amount)|] == StripTrailingCrc(p)[..i] + AmountField(amount)
  {
    var s := StripTrailingCrc(p);
    assert FirstMatch(s, 0) == Some(i);
  }

  /** The greedy match swallows the following field: on "540875000.005802ID" the country code object "5802ID" loses its tag. */
  const SwallowingPayload: string := "540875000.005802ID"

  lemma SwallowingUnstripped()
    ensures StripTrailingCrc(SwallowingPayload) == SwallowingPayload
  {
    assert SwallowingPayload[10] == '0';
  }

  lemma SwallowedField()
    ensures Updated(SwallowingPayload, AmountField(75000)) == "540875000.00ID"
  {
    var s := SwallowingPayload;
    var f := AmountField(75000);
    SwallowingMatchEnd();
    assert FirstMatch(s, 0) == Some(0);
    UpdatedAt(s, f, 0, 16);
    assert s[..0] == [] && s[16..] == "ID";
    assert Updated(s, f) == f + "ID";
    AmountFieldExample();
    SwallowedText();
  }

  lemma SwallowedText()
    ensures "540875000.00" + "ID" == "540875000.00ID"
  {
  }

  /** With the leftmost match at `i` ending at `k`, the field takes the place of `s[i..k]`. */
  lemma UpdatedAt(s: string, field: string, i: nat, k: nat)
    requires FirstMatch(s, 0) == Some(i) && MatchEnd(s, i) == k
    ensures Updated(s, field) == s[..i] + field + s[k..]
  {
  }

  /** The match on that payload runs over "75000", ".00" and on into "5802". */
  lemma SwallowingMatchEnd()
    ensures MatchesAt(SwallowingPayload, 0) && MatchEnd(SwallowingPayload, 0) == 16
  {
    var s := SwallowingPayload;
    assert DigitsEnd(s, 9) == 9;
    assert DigitsEnd(s, 16) == 16;
    DigitsEndStep(s, 4, 9);
    DigitsEndStep(s, 10, 16);
  }

  /** A run of digits from `j` to `k` ends where the run from `k` ends. */
  lemma {:induction false} DigitsEndStep(s: string, j: nat, k: nat)
    requires j <= k <= |s| && forall m :: j <= m < k ==> IsDigit(s[m])
    ensures DigitsEnd(s, j) == DigitsEnd(s, k)
    decreases k - j
  {
    if j < k {
      DigitsEndStep(s, j + 1, k);
    }
  }

  // ---------------------------------------------------------------------------
  // xorBytes

  /** `KEY`, the key of the link token. The functions below take the key as a parameter. */
  const Key: string := "azf2025"

  /**
   * `key.charCodeAt(i % key.length)`; for an empty key the index is NaN, the
   * code NaN, and XOR reads NaN as 0.
   */
  function KeyCode(key: string, i: nat): nat
  {
    if |key| == 0 then 0 else key[i % |key|] as int
  }

  /** The low `bits` bits of the bitwise XOR of `a` and `b`. */
  function LowXor(a: nat, b: nat, bits: nat): (r: nat)
    ensures r < Pow(2, bits)
  {
    if bits == 0 then 0
    else 2 * LowXor(a / 2, b / 2, bits - 1) + (if a % 2 == b % 2 then 0 else 1)
  }

  /** `u8[i] ^ code` stored back into a `Uint8Array`, which keeps the low eight bits. */
  function XorByte(b: Base64.Byte, code: nat): Base64.Byte
  {
    assert Pow(2, 8) == 256;
    LowXor(b, code, 8)
  }

  /** What `xorBytes(u8, key)` returns: each byte XOR-ed with the key code at its position. */
  function Xor(u: seq<Base64.Byte>, key: string): (r: seq<Base64.Byte>)
    ensures |r| == |u|
  {
    seq(|u|, i requires 0 <= i < |u| => XorByte(u[i], KeyCode(key, i)))
  }

  /** XOR-ing the same `k` twice restores any `a` of at most `bits` bits. */
  lemma {:induction false} LowXorTwice(a: nat, k: nat, bits: nat)
    requires a < Pow(2, bits)
    ensures LowXor(LowXor(a, k, bits), k, bits) == a
  {
    if bits > 0 {
      LowXorTwice(a / 2, k / 2, bits - 1);
    }
  }

  /** XOR with the same key twice gives the bytes back, for every key. */
  lemma XorInvolution(u: seq<Base64.Byte>, key: string)
    ensures Xor(Xor(u, key), key) == u
  {
    assert Pow(2, 8) == 256;
    forall i | 0 <= i < |u|
      ensures Xor(Xor(u, key), key)[i] == u[i]
    {
      LowXorTwice(u[i], KeyCode(key, i), 8);
    }
  }

  /** XOR with 0 keeps any `a` of at most `bits` bits. */
  lemma {:induction false} LowXorZero(a: nat, bits: nat)
    requires a < Pow(2, bits)
    ensures LowXor(a, 0, bits) == a
  {
    if bits > 0 {
      LowXorZero(a / 2, bits - 1);
    }
  }

  /** With an empty key every code is NaN, which XOR reads as 0: the bytes come back unchanged. */
  lemma XorEmptyKey(u: seq<Base64.Byte>)
    ensures Xor(u, "") == u
  {
    assert Pow(2, 8) == 256;
    forall i | 0 <= i < |u|
      ensures Xor(u, "")[i] == u[i]
    {
      LowXorZero(u[i], 8);
    }
  }

  /** `xorBytes(u8, key)`. */
  method XorBytes(u8: array<Base64.Byte>, key: string) returns (out: array<Base64.Byte>)
    ensures fresh(out) && out[..] == Xor(u8[..], key)
  {
    out := new Base64.Byte[u8.Length];
    for i := 0 to u8.Length
      invariant out[..i] == Xor(u8[..], key)[..i]
    {
      var code := if |key| == 0 then 0 else key[i % |key|] as int;
      out[i] := XorByte(u8[i], code);
    }
  }

  // ---------------------------------------------------------------------------
  // toBase64Url and fromBase64Url

  /** The base64url alphabet of section 5 of RFC 4648. */
  predicate IsUrlSymbol(c: char)
  {
    'A' <= c <= 'Z' || 'a' <= c <= 'z' || '0' <= c <= '9' || c == '-' || c == '_'
  }

  /** `.replace(/\+/g, "-").replace(/\//g, "_")` on one character. */
  function UrlChar(c: char): char
  {
    if c == '+' then '-' else if c == '/' then '_' else c
  }

  function ToUrl(s: string): (r: string)
    ensures |r| == |s| && forall i :: 0 <= i < |s| ==> r[i] == UrlChar(s[i])
  {
    seq(|s|, i requires 0 <= i < |s| => UrlChar(s[i]))
  }

  /** `.replace(/=+$/, "")`: the trailing run of '=' removed. */
  function StripPadding(s: string): (r: string)
    ensures r <= s && (r == [] || r[|r| - 1] != '=')
    ensures forall k :: |r| <= k < |s| ==> s[k] == '='
  {
    if s != [] && s[|s| - 1] == '=' then StripPadding(s[..|s| - 1]) else s
  }

  /** What `toBase64Url(u8)` returns for the bytes `b`. */
  function UrlEncode(b: seq<Base64.Byte>): string
  {
    StripPadding(ToUrl(Base64.Encode(b)))
  }

  /** The loop of `toBase64Url`: `String.fromCharCode` of each element, joined. */
  method BinaryString(u8: array<Base64.Byte>) returns (bin: string)
    ensures bin == Base64.Latin1String(u8[..])
  {
    bin := "";
    for i := 0 to u8.Length
      invariant bin == Base64.Latin1String(u8[..i])
    {
      assert u8[..i + 1] == u8[..i] + [u8[i]];
      bin := bin + [u8[i] as char];
    }
    assert u8[..u8.Length] == u8[..];
  }

  /** `toBase64Url(u8)`. */
  method ToBase64Url(u8: array<Base64.Byte>) returns (r: string)
    ensures r == UrlEncode(u8[..])
  {
    var bin := BinaryString(u8);
    assert Base64.Latin1Bytes(bin) == u8[..];
    var b64 := Base64.Btoa(bin);
    r := StripPadding(ToUrl(b64.value));
  }

  /** The token uses only the base64url alphabet, so it carries no '=' and no '+' or '/'. */
  lemma UrlEncodeAlphabet(b: seq<Base64.Byte>)
    ensures forall i :: 0 <= i < |UrlEncode(b)| ==> IsUrlSymbol(UrlEncode(b)[i])
  {
    var body := Base64.Symbols(Base64.Sextets(b));
    var pad := seq(Base64.PadCount(|b|), _ => '=');
    UrlOfPadded(body, pad);
    StripPaddingOfPadded(ToUrl(body), |pad|);
  }

  /** Translating an encoding maps its alphabet characters and keeps its padding. */
  lemma UrlOfPadded(body: string, pad: string)
    requires forall i :: 0 <= i < |body| ==> Base64.IsSymbol(body[i])
    requires forall i :: 0 <= i < |pad| ==> pad[i] == '='
    ensures ToUrl(body + pad) == ToUrl(body) + pad
    ensures forall i :: 0 <= i < |body| ==> IsUrlSymbol(ToUrl(body)[i])
  {
  }

  /** Removing the trailing '=' run of a string that does not end in '=', padded with `k` of them, leaves that string. */
  lemma {:induction false} StripPaddingOfPadded(x: string, k: nat)
    requires x == [] || x[|x| - 1] != '='
    ensures StripPadding(x + seq(k, _ => '=')) == x
  {
    if k == 0 {
      assert x + seq(k, _ => '=') == x;
    } else {
      var y := x + seq(k, _ => '=');
      assert y[..|y| - 1] == x + seq(k - 1, _ => '=');
      StripPaddingOfPadded(x, k - 1);
    }
  }

  /** `.replace(/-/g, "+").replace(/_/g, "/")` on one character. */
  function StdChar(c: char): char
  {
    if c == '-' then '+' else if c == '_' then '/' else c
  }

  function FromUrl(s: string): (r: string)
    ensures |r| == |s| && forall i :: 0 <= i < |s| ==> r[i] == StdChar(s[i])
  {
    seq(|s|, i requires 0 <= i < |s| => StdChar(s[i]))
  }

  /** `"=".repeat((4 - (n % 4)) % 4)`. */
  function Padding(n: nat): string
  {
    seq((4 - n % 4) % 4, _ => '=')
  }

  /** A character of `atob`'s result stored in a `Uint8Array`: its code modulo 256. */
  function CharByte(c: char): Base64.Byte
  {
    (c as int) % 256
  }

  function CharBytes(s: string): (b: seq<Base64.Byte>)
    ensures |b| == |s|
  {
    seq(|s|, i requires 0 <= i < |s| => CharByte(s[i]))
  }

  /** What `fromBase64Url(s)` returns; None where `atob` throws. */
  function UrlDecode(s: string): Option<seq<Base64.Byte>>
  {
    match Base64.Atob(FromUrl(s) + Padding(|s|))
    case None => None
    case Some(bin) => Some(CharBytes(bin))
  }

  /** `fromBase64Url(s)`; None where it throws. */
  method FromBase64Url(s: string) returns (r: Option<array<Base64.Byte>>)
    ensures UrlDecode(s).None? ==> r.None?
    ensures UrlDecode(s).Some? ==> r.Some? && fresh(r.value) && r.value[..] == UrlDecode(s).value
  {
    var b64 := FromUrl(s) + Padding(|s|);
    var bin := Base64.Atob(b64);
    if bin.None? {
      return None;
    }
    var u8 := ByteArray(bin.value);
    r := Some(u8);
  }

  /** The loop of `fromBase64Url`: each character code stored into a fresh `Uint8Array`. */
  method ByteArray(text: string) returns (u8: array<Base64.Byte>)
    ensures fresh(u8) && u8[..] == CharBytes(text)
  {
    u8 := new Base64.Byte[|text|];
    for i := 0 to |text|
      invariant u8[..i] == CharBytes(text)[..i]
    {
      u8[i] := CharByte(text[i]);
    }
  }

  /** The number of '=' added back is the number the padded encoding had. */
  lemma PaddingRestored(b: seq<Base64.Byte>)
    ensures Padding(Base64.SextetCount(|b|)) == seq(Base64.PadCount(|b|), _ => '=')
  {
    Base64.SextetsPadded(|b|);
  }

  /** Translating back undoes the translation on the standard alphabet. */
  lemma FromUrlToUrl(body: string)
    requires forall i :: 0 <= i < |body| ==> Base64.IsSymbol(body[i])
    ensures FromUrl(ToUrl(body)) == body
  {
  }

  /** The token is the translated alphabet part of the padded encoding. */
  lemma UrlEncodeUnpadded(b: seq<Base64.Byte>)
    ensures UrlEncode(b) == ToUrl(Base64.Symbols(Base64.Sextets(b)))
  {
    var body := Base64.Symbols(Base64.Sextets(b));
    var pad := seq(Base64.PadCount(|b|), _ => '=');
    UrlOfPadded(body, pad);
    StripPaddingOfPadded(ToUrl(body), |pad|);
  }

  /** Translating the token back and padding it gives the standard encoding. */
  lemma UrlRestored(b: seq<Base64.Byte>)
    ensures FromUrl(UrlEncode(b)) + Padding(|UrlEncode(b)|) == Base64.Encode(b)
  {
    UrlEncodeUnpadded(b);
    FromUrlToUrl(Base64.Symbols(Base64.Sextets(b)));
    Base64.SextetsLength(b);
    PaddingRestored(b);
  }

  /** `fromBase64Url(s)` yields the bytes of `bin` when the padded, translated `s` decodes to `bin`. */
  lemma UrlDecodeVia(s: string, e: string, bin: string)
    requires FromUrl(s) + Padding(|s|) == e
    requires Base64.Atob(e) == Some(bin)
    ensures UrlDecode(s) == Some(CharBytes(bin))
  {
  }

  lemma CharBytesLatin1(b: seq<Base64.Byte>)
    ensures CharBytes(Base64.Latin1String(b)) == b
  {
  }

  /** Round trip: `fromBase64Url(toBase64Url(u8))` gives the bytes back. */
  lemma UrlRoundTrip(b: seq<Base64.Byte>)
    ensures UrlDecode(UrlEncode(b)) == Some(b)
  {
    UrlRestored(b);
    Base64.DecodeEncode(b);
    UrlDecodeVia(UrlEncode(b), Base64.Encode(b), Base64.Latin1String(b));
    CharBytesLatin1(b);
  }

  // ---------------------------------------------------------------------------
  // encodeCharge and decodeCharge

  /** A JSON value as `JSON.parse` produces it; an object's members by name, the last duplicate winning. */
  datatype Json =
    | Null
    | Bool(b: bool)
    | Number(x: real)
    | Str(s: string)
    | Arr(items: seq<Json>)
    | Obj(members: map<string, Json>)

  /**
   * The charge the page passes to `encodeCharge`: the amount `a`, the optional
   * note `n` and the optional creation time `t` (milliseconds, `Date.now()`).
   */
  datatype Charge = Charge(amount: real, note: Option<string>, time: Option<real>)

  /**
   * The object `JSON.stringify` sees for a charge; an absent note or time is
   * no member at all.
   */
  function ToJson(d: Charge): (j: Json)
    ensures j.Obj? && "a" in j.members && j.members["a"] == Number(d.amount)
    ensures "n" in j.members <==> d.note.Some?
    ensures d.note.Some? ==> j.members["n"] == Str(d.note.value)
    ensures "t" in j.members <==> d.time.Some?
    ensures d.time.Some? ==> j.members["t"] == Number(d.time.value)
    ensures forall k :: k in j.members ==> k == "a" || k == "n" || k == "t"
  {
    var amount := map["a" := Number(d.amount)];
    var noted := if d.note.Some? then amount["n" := Str(d.note.value)] else amount;
    Obj(if d.time.Some? then noted["t" := Number(d.time.value)] else noted)
  }

  /**
   * The platform functions the codec calls: `JSON.stringify`, `JSON.parse`
   * (None where it throws), `TextEncoder.encode` and `TextDecoder.decode`.
   */
  datatype Platform = Platform(
    stringify: Json -> string,
    parse: string -> Option<Json>,
    encode: string -> seq<Base64.Byte>,
    decode: seq<Base64.Byte> -> string)

  /** The guard of `decodeCharge`: `obj.a` is a number greater than 0. */
  predicate Accepted(j: Json)
  {
    j.Obj? && "a" in j.members && j.members["a"].Number? && j.members["a"].x > 0.0
  }

  /** What `encodeCharge(data)` returns with `key` in place of `KEY`. */
  function EncodedCharge(pl: Platform, key: string, d: Charge): string
  {
    UrlEncode(Xor(pl.encode(pl.stringify(ToJson(d))), key))
  }

  /** The JSON text carried by a token: base64url, then XOR, then UTF-8 decoding. */
  function TokenText(pl: Platform, key: string, code: string): Option<string>
  {
    match UrlDecode(code)
    case None => None
    case Some(obf) => Some(pl.decode(Xor(obf, key)))
  }

  /**
   * What `decodeCharge(code)` returns with `key` in place of `KEY`: the parsed
   * object when every step succeeds and `a` is a positive number, otherwise
   * None (`null`).
   */
  function DecodedCharge(pl: Platform, key: string, code: string): (r: Option<Json>)
    ensures r.Some? <==>
      TokenText(pl, key, code).Some? &&
      pl.parse(TokenText(pl, key, code).value).Some? &&
      Accepted(pl.parse(TokenText(pl, key, code).value).value)
    ensures r.Some? ==> Some(r.value) == pl.parse(TokenText(pl, key, code).value)
  {
    match TokenText(pl, key, code)
    case None => None
    case Some(json) =>
      match pl.parse(json)
      case None => None
      case Some(obj) => if Accepted(obj) then Some(obj) else None
  }

  /** `encodeCharge(data)`, with the key `Key`. */
  method EncodeCharge(pl: Platform, data: Charge) returns (r: string)
    ensures r == EncodedCharge(pl, Key, data)
  {
    var json := pl.stringify(ToJson(data));
    var enc := pl.encode(json);
    var u8 := new Base64.Byte[|enc|](i requires 0 <= i < |enc| => enc[i]);
    assert u8[..] == enc;
    var obf := XorBytes(u8, Key);
    r := ToBase64Url(obf);
  }

  /** `decodeCharge(code)`, with the key `Key`; every exception becomes None. */
  method DecodeCharge(pl: Platform, code: string) returns (r: Option<Json>)
    ensures r == DecodedCharge(pl, Key, code)
  {
    var obf := FromBase64Url(code);
    if obf.None? {
      return None;
    }
    var dec := XorBytes(obf.value, Key);
    var json := pl.decode(dec[..]);
    var obj := pl.parse(json);
    if obj.None? || !Accepted(obj.value) {
      return None;
    }
    r := obj;
  }

  /** The token of a charge carries the JSON text of that charge, provided UTF-8 round-trips. */
  lemma TokenTextOfEncoded(pl: Platform, key: string, d: Charge)
    requires pl.decode(pl.encode(pl.stringify(ToJson(d)))) == pl.stringify(ToJson(d))
    ensures TokenText(pl, key, EncodedCharge(pl, key, d)) == Some(pl.stringify(ToJson(d)))
  {
    var enc := pl.encode(pl.stringify(ToJson(d)));
    UrlRoundTrip(Xor(enc, key));
    XorInvolution(enc, key);
  }

  /**
   * Round trip: where UTF-8 and JSON round-trip, decoding the token of a
   * charge gives that charge's object back exactly when its amount is
   * positive, and `null` otherwise.
   */
  lemma ChargeRoundTrip(pl: Platform, key: string, d: Charge)
    requires pl.decode(pl.encode(pl.stringify(ToJson(d)))) == pl.stringify(ToJson(d))
    requires pl.parse(pl.stringify(ToJson(d))) == Some(ToJson(d))
    ensures DecodedCharge(pl, key, EncodedCharge(pl, key, d)) == if d.amount > 0.0 then Some(ToJson(d)) else None
  {
    TokenTextOfEncoded(pl, key, d);
  }
}
