/**
 * The JavaScript string and number built-ins that the QRIS library relies on,
 * restricted to the arguments the library passes them: `Number.prototype.toString`
 * for naturals (radix 10 and 16), `String.prototype.padStart` with a one-character
 * filler, `toUpperCase` on ASCII text, `Number.parseInt(s, 10)`, and
 * `Number.prototype.toFixed(2)` on integer-valued numbers.
 */
module JsText {

  predicate IsDigit(c: char) { '0' <= c <= '9' }

  function DigitValue(c: char): nat
    requires IsDigit(c)
  {
    c as int - '0' as int
  }

  function DigitChar(d: nat): char
    requires d < 10
  {
    ('0' as int + d) as char
  }

  predicate AllDigits(s: string) { forall i :: 0 <= i < |s| ==> IsDigit(s[i]) }

  /** The value of a string of decimal digits, most significant first. */
  function DigitsValue(s: string): nat
    requires AllDigits(s)
  {
    if s == [] then 0 else DigitsValue(s[..|s| - 1]) * 10 + DigitValue(s[|s| - 1])
  }

  function Pow(base: nat, e: nat): nat
  {
    if e == 0 then 1 else base * Pow(base, e - 1)
  }

  /** `String(n)` for a natural number: its decimal digits without leading zeros. */
  function Decimal(n: nat): (s: string)
    ensures |s| >= 1 && AllDigits(s)
    ensures DigitsValue(s) == n
    ensures |s| > 1 ==> s[0] != '0'
  {
    if n < 10 then [DigitChar(n)]
    else
      var s := Decimal(n / 10) + [DigitChar(n % 10)];
      assert s[..|s| - 1] == Decimal(n / 10);
      s
  }

  /** A natural below 10^k has at most k decimal digits. */
  lemma {:induction false} DecimalLength(n: nat, k: nat)
    requires 1 <= k && n < Pow(10, k)
    ensures |Decimal(n)| <= k
  {
    if n >= 10 {
      assert n / 10 < Pow(10, k - 1);
      DecimalLength(n / 10, k - 1);
    }
  }

  /** `s.padStart(len, c)` with a one-character filler. */
  function PadStart(s: string, len: nat, c: char): (r: string)
    ensures |r| == if |s| >= len then |s| else len
    ensures r[|r| - |s|..] == s
    ensures forall i :: 0 <= i < |r| - |s| ==> r[i] == c
  {
    if |s| >= len then s else seq(len - |s|, _ => c) + s
  }

  /** `String(n).padStart(2, "0")`: the TLV length prefix. */
  function Pad2(n: nat): string
  {
    PadStart(Decimal(n), 2, '0')
  }

  /** Below 100 the prefix is exactly two digits spelling `n`. */
  lemma Pad2Digits(n: nat)
    requires n < 100
    ensures |Pad2(n)| == 2 && IsDigit(Pad2(n)[0]) && IsDigit(Pad2(n)[1])
    ensures DigitValue(Pad2(n)[0]) * 10 + DigitValue(Pad2(n)[1]) == n
  {
    var d := Decimal(n);
    if n >= 10 {
      assert Decimal(n / 10) == [DigitChar(n / 10)];
      assert d == [DigitChar(n / 10), DigitChar(n % 10)];
    }
  }

  // ---------------------------------------------------------------------------
  // Hexadecimal rendering

  predicate IsHexDigit(c: char)
  {
    IsDigit(c) || 'a' <= c <= 'f' || 'A' <= c <= 'F'
  }

  predicate IsUpperHexDigit(c: char) { IsDigit(c) || 'A' <= c <= 'F' }

  /** The value of one hexadecimal digit of either case. */
  function HexDigitValue(c: char): nat
    requires IsHexDigit(c)
  {
    if IsDigit(c) then DigitValue(c)
    else if 'a' <= c <= 'f' then c as int - 'a' as int + 10
    else c as int - 'A' as int + 10
  }

  predicate AllHexDigits(s: string) { forall i :: 0 <= i < |s| ==> IsHexDigit(s[i]) }

  /** The value of a string of hexadecimal digits, most significant first. */
  function HexValue(s: string): nat
    requires AllHexDigits(s)
  {
    if s == [] then 0 else HexValue(s[..|s| - 1]) * 16 + HexDigitValue(s[|s| - 1])
  }

  /** The digit `toString(16)` writes for 0 <= d < 16 (lower case). */
  function LowerHexChar(d: nat): char
    requires d < 16
  {
    if d < 10 then DigitChar(d) else ('a' as int + d - 10) as char
  }

  /** `n.toString(16)` for a natural number. */
  function HexString(n: nat): (s: string)
    ensures 1 <= |s| && AllHexDigits(s)
    ensures HexValue(s) == n
  {
    if n < 16 then [LowerHexChar(n)]
    else
      var s := HexString(n / 16) + [LowerHexChar(n % 16)];
      assert s[..|s| - 1] == HexString(n / 16);
      s
  }

  lemma {:induction false} HexStringLength(n: nat, k: nat)
    requires 1 <= k && n < Pow(16, k)
    ensures |HexString(n)| <= k
  {
    if n >= 16 {
      assert n / 16 < Pow(16, k - 1);
      HexStringLength(n / 16, k - 1);
    }
  }

  function UpperChar(c: char): char
  {
    if 'a' <= c <= 'z' then (c as int - 32) as char else c
  }

  /** `s.toUpperCase()` on ASCII letters; other characters are left alone. */
  function ToUpperCase(s: string): (r: string)
    ensures |r| == |s| && forall i :: 0 <= i < |s| ==> r[i] == UpperChar(s[i])
  {
    seq(|s|, i requires 0 <= i < |s| => UpperChar(s[i]))
  }

  /** Upper-casing a hexadecimal string keeps its digits and its value. */
  lemma {:induction false} UpperHexValue(s: string)
    requires AllHexDigits(s)
    ensures AllHexDigits(ToUpperCase(s)) && HexValue(ToUpperCase(s)) == HexValue(s)
    ensures forall i :: 0 <= i < |s| ==> IsUpperHexDigit(ToUpperCase(s)[i])
  {
    if s != [] {
      var t := s[..|s| - 1];
      UpperHexValue(t);
      assert ToUpperCase(s)[..|s| - 1] == ToUpperCase(t);
    }
  }

  /** Prefixing zeros does not change a hexadecimal value. */
  lemma {:induction false} LeadingZerosHexValue(z: nat, s: string)
    requires AllHexDigits(s)
    ensures AllHexDigits(seq(z, _ => '0') + s)
    ensures HexValue(seq(z, _ => '0') + s) == HexValue(s)
    decreases z + |s|
  {
    var r := seq(z, _ => '0') + s;
    if s == [] {
      if z > 0 {
        assert r[..|r| - 1] == seq(z - 1, _ => '0') + [];
        LeadingZerosHexValue(z - 1, []);
      }
    } else {
      assert r[..|r| - 1] == seq(z, _ => '0') + s[..|s| - 1];
      LeadingZerosHexValue(z, s[..|s| - 1]);
    }
  }

  /** Zero-padding an upper-case hexadecimal string keeps it upper-case hexadecimal of the same value. */
  lemma PadZerosHex(u: string, len: nat)
    requires AllHexDigits(u) && forall i :: 0 <= i < |u| ==> IsUpperHexDigit(u[i])
    ensures AllHexDigits(PadStart(u, len, '0')) && HexValue(PadStart(u, len, '0')) == HexValue(u)
    ensures forall i :: 0 <= i < |PadStart(u, len, '0')| ==> IsUpperHexDigit(PadStart(u, len, '0')[i])
  {
    if |u| < len {
      LeadingZerosHexValue(len - |u|, u);
      assert PadStart(u, len, '0') == seq(len - |u|, _ => '0') + u;
    }
  }

  /**
   * `n.toString(16).toUpperCase().padStart(len, "0")` spells `n` in upper-case
   * hexadecimal with at least `len` digits, and with exactly `len` when `n` fits.
   */
  lemma PaddedUpperHex(n: nat, len: nat)
    ensures |PadStart(ToUpperCase(HexString(n)), len, '0')| >= len
    ensures AllHexDigits(PadStart(ToUpperCase(HexString(n)), len, '0'))
    ensures HexValue(PadStart(ToUpperCase(HexString(n)), len, '0')) == n
    ensures forall i :: 0 <= i < |PadStart(ToUpperCase(HexString(n)), len, '0')| ==>
      IsUpperHexDigit(PadStart(ToUpperCase(HexString(n)), len, '0')[i])
    ensures 1 <= len && n < Pow(16, len) ==> |PadStart(ToUpperCase(HexString(n)), len, '0')| == len
  {
    UpperHexValue(HexString(n));
    PadZerosHex(ToUpperCase(HexString(n)), len);
    if 1 <= len && n < Pow(16, len) {
      HexStringLength(n, len);
    }
  }

  // ---------------------------------------------------------------------------
  // Number.parseInt(s, 10)

  /** A JavaScript number as far as `parseInt` can produce one here. */
  datatype IntOrNaN = NaN | Num(n: int)

  /** The characters `parseInt` skips before the digits: WhiteSpace and LineTerminator. */
  predicate IsJsSpace(c: char)
  {
    var k := c as int;
    (0x09 <= k <= 0x0D) || k == 0x20 || k == 0xA0 || k == 0x1680
    || (0x2000 <= k <= 0x200A) || k == 0x2028 || k == 0x2029 || k == 0x202F
    || k == 0x205F || k == 0x3000 || k == 0xFEFF
  }

  function TrimStart(s: string): string
  {
    if s != [] && IsJsSpace(s[0]) then TrimStart(s[1..]) else s
  }

  /** The longest prefix of decimal digits. */
  function DigitPrefix(s: string): (d: string)
    ensures AllDigits(d)
  {
    if s != [] && IsDigit(s[0]) then [s[0]] + DigitPrefix(s[1..]) else []
  }

  /**
   * `Number.parseInt(s, 10)`: skip leading white space, read an optional sign,
   * then the longest run of decimal digits; no digits gives NaN. A value of -0
   * is the number 0.
   */
  function ParseInt(s: string): IntOrNaN
  {
    ParseSigned(TrimStart(s))
  }

  /** What `parseInt` reads once the white space is skipped: an optional sign, then digits. */
  function ParseSigned(t: string): IntOrNaN
  {
    if t != [] && t[0] == '-' then Negate(ParseDigits(t[1..]))
    else if t != [] && t[0] == '+' then ParseDigits(t[1..])
    else ParseDigits(t)
  }

  function Negate(v: IntOrNaN): IntOrNaN
  {
    match v
    case NaN => NaN
    case Num(n) => Num(-n)
  }

  /** The value of the longest run of leading digits; NaN when there is none. */
  function ParseDigits(u: string): IntOrNaN
  {
    var d := DigitPrefix(u);
    if d == [] then NaN else Num(DigitsValue(d))
  }

  /**
   * `Number.parseInt(s, 10)` on a two-character string, case by case: two
   * digits, a digit followed by anything else, or one leading space or sign
   * before a digit. Everything else is NaN.
   */
  function ParseIntOfTwo(s: string): (r: IntOrNaN)
    requires |s| == 2
    ensures r.Num? ==> -9 <= r.n <= 99
  {
    if IsDigit(s[0]) then
      if IsDigit(s[1]) then Num(DigitValue(s[0]) * 10 + DigitValue(s[1])) else Num(DigitValue(s[0]))
    else if IsJsSpace(s[0]) || s[0] == '+' then
      if IsDigit(s[1]) then Num(DigitValue(s[1])) else NaN
    else if s[0] == '-' then
      if IsDigit(s[1]) then Num(0 - DigitValue(s[1])) else NaN
    else NaN
  }

  /** `Number.parseInt(s, 10)` on a string of at most two characters. */
  function ParseIntShort(s: string): (r: IntOrNaN)
    requires |s| <= 2
  {
    if |s| == 2 then ParseIntOfTwo(s)
    else if |s| == 1 && IsDigit(s[0]) then Num(DigitValue(s[0]))
    else NaN
  }

  /** The short case table agrees with the general `parseInt`. */
  lemma ParseIntShortAgrees(s: string)
    requires |s| <= 2
    ensures ParseIntShort(s) == ParseInt(s)
  {
    if |s| == 2 {
      ParseIntOfTwoAgrees(s);
    } else if |s| == 1 {
      assert s == [s[0]];
      ParseIntOfOne(s[0]);
    }
  }

  lemma ParseIntOfOne(c: char)
    ensures ParseInt([c]) == if IsDigit(c) then Num(DigitValue(c)) else NaN
  {
    if IsJsSpace(c) {
      TrimStartSpaced([c]);
      assert [c][1..] == [];
    } else {
      TrimStartUnspaced([c]);
      if IsDigit(c) {
        ParseDigitsOne(c);
      } else {
        ParseSignedOfOne(c);
      }
    }
  }

  /** The case table agrees with the general `parseInt` on every two-character string. */
  lemma ParseIntOfTwoAgrees(s: string)
    requires |s| == 2
    ensures ParseIntOfTwo(s) == ParseInt(s)
  {
    if IsDigit(s[0]) {
      if IsDigit(s[1]) { ParseIntDigitDigit(s); } else { ParseIntDigitOther(s); }
    } else if IsJsSpace(s[0]) {
      if IsDigit(s[1]) { ParseIntSpaceDigit(s); } else { ParseIntSpaceOther(s); }
    } else if s[0] == '+' || s[0] == '-' {
      if !IsDigit(s[1]) { ParseIntSignOther(s); }
      else if s[0] == '+' { ParseIntPlusDigit(s); }
      else { ParseIntMinusDigit(s); }
    } else {
      ParseIntOther(s);
    }
  }

  lemma ParseIntDigitDigit(s: string)
    requires |s| == 2 && IsDigit(s[0]) && IsDigit(s[1])
    ensures ParseInt(s) == Num(DigitValue(s[0]) * 10 + DigitValue(s[1]))
  {
    TrimStartUnspaced(s);
    ParseDigitsTwo(s);
  }

  lemma ParseIntDigitOther(s: string)
    requires |s| == 2 && IsDigit(s[0]) && !IsDigit(s[1])
    ensures ParseInt(s) == Num(DigitValue(s[0]))
  {
    TrimStartUnspaced(s);
    ParseDigitsDigitOther(s);
  }

  lemma ParseIntSpaceDigit(s: string)
    requires |s| == 2 && IsJsSpace(s[0]) && IsDigit(s[1])
    ensures ParseInt(s) == Num(DigitValue(s[1]))
  {
    TrimStartSpaced(s);
    assert s[1..] == [s[1]];
    TrimStartUnspaced([s[1]]);
    ParseDigitsOne(s[1]);
  }

  lemma ParseIntSpaceOther(s: string)
    requires |s| == 2 && IsJsSpace(s[0]) && !IsDigit(s[1])
    ensures ParseInt(s) == NaN
  {
    TrimStartSpaced(s);
    assert s[1..] == [s[1]];
    if IsJsSpace(s[1]) {
      TrimStartSpaced([s[1]]);
      assert [s[1]][1..] == [];
    } else {
      TrimStartUnspaced([s[1]]);
      ParseSignedOfOne(s[1]);
    }
  }

  lemma ParseIntSignOther(s: string)
    requires |s| == 2 && (s[0] == '+' || s[0] == '-') && !IsDigit(s[1])
    ensures ParseInt(s) == NaN
  {
    TrimStartUnspaced(s);
    assert s[1..] == [s[1]];
    ParseDigitsNone([s[1]]);
  }

  lemma ParseIntPlusDigit(s: string)
    requires |s| == 2 && s[0] == '+' && IsDigit(s[1])
    ensures ParseInt(s) == Num(DigitValue(s[1]))
  {
    TrimStartUnspaced(s);
    assert s[1..] == [s[1]];
    ParseDigitsOne(s[1]);
  }

  lemma ParseIntMinusDigit(s: string)
    requires |s| == 2 && s[0] == '-' && IsDigit(s[1])
    ensures ParseInt(s) == Num(0 - DigitValue(s[1]))
  {
    TrimStartUnspaced(s);
    assert s[1..] == [s[1]];
    ParseDigitsOne(s[1]);
  }

  lemma ParseIntOther(s: string)
    requires |s| == 2 && !IsDigit(s[0]) && !IsJsSpace(s[0]) && s[0] != '+' && s[0] != '-'
    ensures ParseInt(s) == NaN
  {
    TrimStartUnspaced(s);
    ParseDigitsNone(s);
  }

  lemma TrimStartUnspaced(s: string)
    requires s != [] && !IsJsSpace(s[0])
    ensures TrimStart(s) == s
  {
  }

  lemma TrimStartSpaced(s: string)
    requires s != [] && IsJsSpace(s[0])
    ensures TrimStart(s) == TrimStart(s[1..])
  {
  }

  /** A lone character that is not a digit reads as NaN, with or without a sign. */
  lemma ParseSignedOfOne(c: char)
    requires !IsDigit(c)
    ensures ParseSigned([c]) == NaN
  {
    assert [c][1..] == [];
  }

  lemma ParseDigitsNone(u: string)
    requires u == [] || !IsDigit(u[0])
    ensures ParseDigits(u) == NaN
  {
  }

  lemma SingleDigitValue(c: char)
    requires IsDigit(c)
    ensures DigitsValue([c]) == DigitValue(c)
  {
    assert [c][..0] == [];
    assert DigitsValue([c]) == DigitsValue([c][..0]) * 10 + DigitValue(c);
  }

  lemma ParseDigitsOne(c: char)
    requires IsDigit(c)
    ensures ParseDigits([c]) == Num(DigitValue(c))
  {
    assert [c][1..] == [];
    assert DigitPrefix([c]) == [c];
    SingleDigitValue(c);
  }

  lemma ParseDigitsDigitOther(s: string)
    requires |s| == 2 && IsDigit(s[0]) && !IsDigit(s[1])
    ensures ParseDigits(s) == Num(DigitValue(s[0]))
  {
    assert s[1..] == [s[1]];
    assert DigitPrefix(s) == [s[0]] + DigitPrefix([s[1]]);
    assert DigitPrefix(s) == [s[0]];
    SingleDigitValue(s[0]);
  }

  lemma ParseDigitsTwo(s: string)
    requires |s| == 2 && IsDigit(s[0]) && IsDigit(s[1])
    ensures ParseDigits(s) == Num(DigitValue(s[0]) * 10 + DigitValue(s[1]))
  {
    assert s[1..] == [s[1]];
    assert [s[1]][1..] == [];
    assert DigitPrefix(s) == [s[0]] + DigitPrefix([s[1]]);
    assert DigitPrefix(s) == s;
    assert s[..1] == [s[0]];
    SingleDigitValue(s[0]);
    assert DigitsValue(s) == DigitsValue(s[..1]) * 10 + DigitValue(s[1]);
  }

  /** The TLV length prefix of every length below 100 parses back to that length. */
  lemma Pad2Parses(n: nat)
    requires n < 100
    ensures |Pad2(n)| == 2 && ParseIntOfTwo(Pad2(n)) == Num(n) && ParseInt(Pad2(n)) == Num(n)
  {
    Pad2Digits(n);
    ParseIntOfTwoAgrees(Pad2(n));
  }

  // ---------------------------------------------------------------------------
  // Number.prototype.toFixed(2)

  /** The largest integer a JavaScript number holds exactly, 2^53 - 1. */
  const MaxSafeInteger: nat := 9_007_199_254_740_991

  /** An amount: a natural number that a JavaScript number holds exactly. */
  type Amount = n: nat | n <= MaxSafeInteger

  /** `n.toFixed(2)` for an integer-valued number below 10^21: its digits and ".00". */
  function ToFixed2(n: Amount): string
  {
    Decimal(n) + ".00"
  }

  /** The formatted amount has at most 19 characters, so it fits a TLV value. */
  lemma ToFixed2Length(n: Amount)
    ensures 4 <= |ToFixed2(n)| <= 19
  {
    assert Pow(10, 1) == 10;
    assert Pow(10, 2) == 100;
    assert Pow(10, 3) == 1000;
    assert Pow(10, 4) == 10000;
    assert Pow(10, 5) == 100000;
    assert Pow(10, 6) == 1000000;
    assert Pow(10, 7) == 10000000;
    assert Pow(10, 8) == 100000000;
    assert Pow(10, 9) == 1000000000;
    assert Pow(10, 10) == 10000000000;
    assert Pow(10, 11) == 100000000000;
    assert Pow(10, 12) == 1000000000000;
    assert Pow(10, 13) == 10000000000000;
    assert Pow(10, 14) == 100000000000000;
    assert Pow(10, 15) == 1000000000000000;
    assert Pow(10, 16) == 10000000000000000;
    DecimalLength(n, 16);
  }

  /** The worked example of the QRIS amount field: 75000 becomes "75000.00". */
  lemma ToFixed2Example()
    ensures ToFixed2(75000) == "75000.00"
  {
    assert Decimal(7) == "7";
    assert Decimal(75) == "75";
    assert Decimal(750) == "750";
    assert Decimal(7500) == "7500";
    assert Decimal(75000) == "75000";
  }
}
