/**
 * The browser's `btoa` and `atob`: base 64 encoding with padding as in
 * section 4 of RFC 4648, and the HTML standard's "forgiving-base64 decode",
 * which skips ASCII white space, accepts missing padding and ignores the
 * unused low bits of a final group. Binary data travels as a string of
 * characters U+0000..U+00FF, one per byte.
 */
module Base64 {
  import opened Wrappers

  predicate IsSymbol(c: char)
  {
    'A' <= c <= 'Z' || 'a' <= c <= 'z' || '0' <= c <= '9' || c == '+' || c == '/'
  }

  /** The alphabet of Table 1 of RFC 4648, by index. */
  function SymbolAt(k: int): (c: char)
    requires 0 <= k < 64
    ensures IsSymbol(c)
  {
    if k < 26 then ('A' as int + k) as char
    else if k < 52 then ('a' as int + k - 26) as char
    else if k < 62 then ('0' as int + k - 52) as char
    else if k == 62 then '+'
    else '/'
  }

  /** The index of an alphabet character; the inverse of SymbolAt. */
  function IndexOf(c: char): (k: int)
    requires IsSymbol(c)
    ensures 0 <= k < 64 && SymbolAt(k) == c
  {
    if 'A' <= c <= 'Z' then c as int - 'A' as int
    else if 'a' <= c <= 'z' then c as int - 'a' as int + 26
    else if '0' <= c <= '9' then c as int - '0' as int + 52
    else if c == '+' then 62
    else 63
  }

  /** A byte, as the numbers a `Uint8Array` holds. */
  type Byte = b: int | 0 <= b < 256

  /** A 6-bit value, the index of one base 64 character. */
  type Sextet = v: int | 0 <= v < 64

  /** The 6-bit value of an alphabet character; the inverse of SymbolAt. */
  function SymbolValue(c: char): (v: Sextet)
    requires IsSymbol(c)
    ensures SymbolAt(v) == c
  {
    IndexOf(c)
  }

  /** Number of 6-bit groups that `n` bytes make: four per three bytes, 2 or 3 for a short tail. */
  function SextetCount(n: nat): nat
  {
    4 * (n / 3) + (if n % 3 == 0 then 0 else n % 3 + 1)
  }

  /** Number of '=' characters that pad the encoding of `n` bytes to a multiple of four. */
  function PadCount(n: nat): nat
  {
    if n % 3 == 0 then 0 else 3 - n % 3
  }

  /** The padded encoding is a whole number of 4-character groups, and its unpadded part never leaves a lone character. */
  lemma SextetsPadded(n: nat)
    ensures (SextetCount(n) + PadCount(n)) % 4 == 0
    ensures SextetCount(n) % 4 != 1
    ensures PadCount(n) <= 2
    ensures PadCount(n) == 1 ==> SextetCount(n) % 4 == 3
    ensures PadCount(n) == 2 ==> SextetCount(n) % 4 == 2
  {
    var q := n / 3;
    if n % 3 == 0 {
      FourTimes(q, 0);
    } else if n % 3 == 1 {
      FourTimes(q, 2);
      FourTimes(q + 1, 0);
    } else {
      FourTimes(q, 3);
      FourTimes(q + 1, 0);
    }
  }

  lemma FourTimes(q: nat, k: nat)
    requires k < 4
    ensures (4 * q + k) % 4 == k
  {
  }

  /** The four 6-bit groups of three bytes, most significant bits first. */
  function Group(b0: Byte, b1: Byte, b2: Byte): (s: seq<Sextet>)
    ensures |s| == 4
  {
    var x, y, z := b0 as int, b1 as int, b2 as int;
    [x / 4, x % 4 * 16 + y / 16, y % 16 * 4 + z / 64, z % 64]
  }

  /** The 6-bit groups of `b`; a short tail is zero-filled to a whole group count. */
  function Sextets(b: seq<Byte>): seq<Sextet>
  {
    if |b| == 0 then []
    else if |b| == 1 then [b[0] as int / 4, b[0] as int % 4 * 16]
    else if |b| == 2 then [b[0] as int / 4, b[0] as int % 4 * 16 + b[1] as int / 16, b[1] as int % 16 * 4]
    else Group(b[0], b[1], b[2]) + Sextets(b[3..])
  }

  lemma {:induction false} SextetsLength(b: seq<Byte>)
    ensures |Sextets(b)| == SextetCount(|b|)
  {
    if |b| >= 3 {
      SextetsLength(b[3..]);
      assert SextetCount(|b|) == 4 + SextetCount(|b| - 3);
    }
  }

  function Symbols(s: seq<Sextet>): (r: string)
    ensures |r| == |s| && forall i :: 0 <= i < |r| ==> IsSymbol(r[i])
  {
    seq(|s|, i requires 0 <= i < |s| => SymbolAt(s[i]))
  }

  function Values(r: string): (s: seq<Sextet>)
    requires forall i :: 0 <= i < |r| ==> IsSymbol(r[i])
    ensures |s| == |r|
  {
    seq(|r|, i requires 0 <= i < |r| => SymbolValue(r[i]))
  }

  /** Base 64 encoding of `b` with padding (section 4 of RFC 4648). */
  function Encode(b: seq<Byte>): string
  {
    Symbols(Sextets(b)) + seq(PadCount(|b|), _ => '=')
  }

  /** The byte made of all six bits of `a` and the high two bits of `b`. */
  function JoinFirst(a: Sextet, b: Sextet): Byte
  {
    (a as int) * 4 + (b as int) / 16
  }

  /** The byte made of the low four bits of `a` and the high four bits of `b`. */
  function JoinSecond(a: Sextet, b: Sextet): Byte
  {
    (a as int) % 16 * 16 + (b as int) / 4
  }

  /** The byte made of the low two bits of `a` and all six bits of `b`. */
  function JoinThird(a: Sextet, b: Sextet): Byte
  {
    (a as int) % 4 * 64 + (b as int)
  }

  /**
   * Reassemble bytes from 6-bit groups; a tail of 2 or 3 groups gives 1 or 2
   * bytes and its leftover low bits are dropped. A lone final group, which
   * `Atob` rejects before joining, gives nothing.
   */
  function Join(s: seq<Sextet>): (b: seq<Byte>)
  {
    if |s| <= 1 then []
    else if |s| == 2 then [JoinFirst(s[0], s[1])]
    else if |s| == 3 then [JoinFirst(s[0], s[1]), JoinSecond(s[1], s[2])]
    else [JoinFirst(s[0], s[1]), JoinSecond(s[1], s[2]), JoinThird(s[2], s[3])] + Join(s[4..])
  }

  lemma FirstByte(x: int, y: int)
    requires 0 <= x < 256 && 0 <= y < 256
    ensures JoinFirst(x / 4, x % 4 * 16 + y / 16) == x
  {
    assert (x % 4 * 16 + y / 16) / 16 == x % 4;
  }

  lemma SecondByte(x: int, y: int, z: int)
    requires 0 <= x < 256 && 0 <= y < 256 && 0 <= z < 256
    ensures JoinSecond(x % 4 * 16 + y / 16, y % 16 * 4 + z / 64) == y
  {
    assert (x % 4 * 16 + y / 16) % 16 == y / 16;
    assert (y % 16 * 4 + z / 64) / 4 == y % 16;
  }

  lemma TailSecondByte(x: int, y: int)
    requires 0 <= x < 256 && 0 <= y < 256
    ensures JoinSecond(x % 4 * 16 + y / 16, y % 16 * 4) == y
  {
    var a, c := x % 4 * 16 + y / 16, y % 16 * 4;
    assert a % 16 == y / 16;
    assert c / 4 == y % 16;
    assert y / 16 * 16 + y % 16 == y;
  }

  lemma ThirdByte(y: int, z: int)
    requires 0 <= y < 256 && 0 <= z < 256
    ensures JoinThird(y % 16 * 4 + z / 64, z % 64) == z
  {
    assert (y % 16 * 4 + z / 64) % 4 == z / 64;
  }

  lemma JoinGroup(b0: Byte, b1: Byte, b2: Byte, t: seq<Sextet>)
    ensures Join(Group(b0, b1, b2) + t) == [b0, b1, b2] + Join(t)
  {
    var s := Group(b0, b1, b2) + t;
    var x, y, z := b0 as int, b1 as int, b2 as int;
    assert s[0] == x / 4 && s[1] == x % 4 * 16 + y / 16;
    assert s[2] == y % 16 * 4 + z / 64 && s[3] == z % 64;
    assert s[4..] == t;
    FirstByte(x, y);
    SecondByte(x, y, z);
    ThirdByte(y, z);
    assert Join(s) == [JoinFirst(s[0], s[1]), JoinSecond(s[1], s[2]), JoinThird(s[2], s[3])] + Join(t);
  }

  lemma JoinOne(b: seq<Byte>)
    requires |b| == 1
    ensures Join(Sextets(b)) == b
  {
    var x := b[0] as int;
    var s := Sextets(b);
    assert s == [x / 4, x % 4 * 16];
    assert (x % 4 * 16) / 16 == x % 4;
    assert JoinFirst(s[0], s[1]) == x;
    calc {
      Join(s);
      [JoinFirst(s[0], s[1])];
      [x];
      b;
    }
  }

  lemma JoinTwo(b: seq<Byte>)
    requires |b| == 2
    ensures Join(Sextets(b)) == b
  {
    var x, y := b[0] as int, b[1] as int;
    var s := Sextets(b);
    assert s == [x / 4, x % 4 * 16 + y / 16, y % 16 * 4];
    FirstByte(x, y);
    TailSecondByte(x, y);
    assert JoinFirst(s[0], s[1]) == x;
    assert JoinSecond(s[1], s[2]) == y;
    calc {
      Join(s);
      [JoinFirst(s[0], s[1]), JoinSecond(s[1], s[2])];
      [x, y];
      b;
    }
  }

  /** Joining the groups of `b` gives `b` back. */
  lemma {:induction false} JoinSextets(b: seq<Byte>)
    ensures Join(Sextets(b)) == b
  {
    if |b| == 1 {
      JoinOne(b);
    } else if |b| == 2 {
      JoinTwo(b);
    } else if |b| >= 3 {
      var t := Sextets(b[3..]);
      JoinSextets(b[3..]);
      JoinGroup(b[0], b[1], b[2], t);
      calc {
        Join(Sextets(b));
        Join(Group(b[0], b[1], b[2]) + t);
        [b[0], b[1], b[2]] + Join(t);
        [b[0], b[1], b[2]] + b[3..];
        b;
      }
    }
  }

  // ---------------------------------------------------------------------------
  // Binary strings and the browser functions

  /** `String.fromCharCode` of each byte. */
  function Latin1String(b: seq<Byte>): (s: string)
    ensures |s| == |b| && forall i :: 0 <= i < |b| ==> s[i] as int == b[i]
  {
    seq(|b|, i requires 0 <= i < |b| => b[i] as char)
  }

  predicate IsLatin1(s: string) { forall i :: 0 <= i < |s| ==> s[i] as int < 256 }

  function Latin1Bytes(s: string): (b: seq<Byte>)
    requires IsLatin1(s)
    ensures |b| == |s| && forall i :: 0 <= i < |s| ==> b[i] == s[i] as int
  {
    seq(|s|, i requires 0 <= i < |s| => s[i] as int)
  }

  /** `btoa(s)`: None where it throws, on a character above U+00FF. */
  function Btoa(s: string): Option<string>
  {
    if IsLatin1(s) then Some(Encode(Latin1Bytes(s))) else None
  }

  /** ASCII white space as the HTML standard defines it: TAB, LF, FF, CR and SPACE. */
  predicate IsAsciiWhitespace(c: char)
  {
    c as int == 9 || c as int == 10 || c as int == 12 || c as int == 13 || c as int == 32
  }

  function RemoveWhitespace(s: string): (r: string)
    ensures forall i :: 0 <= i < |r| ==> !IsAsciiWhitespace(r[i])
    ensures (forall i :: 0 <= i < |s| ==> !IsAsciiWhitespace(s[i])) ==> r == s
  {
    if s == [] then []
    else if IsAsciiWhitespace(s[0]) then RemoveWhitespace(s[1..])
    else [s[0]] + RemoveWhitespace(s[1..])
  }

  /** Drop one or two final '=' from a string whose length is a multiple of four. */
  function DropPadding(d: string): string
  {
    if |d| % 4 != 0 then d
    else if |d| >= 2 && d[|d| - 2] == '=' && d[|d| - 1] == '=' then d[..|d| - 2]
    else if |d| >= 1 && d[|d| - 1] == '=' then d[..|d| - 1]
    else d
  }

  /** `atob(s)`: the forgiving-base64 decode; None where it throws. */
  function Atob(s: string): Option<string>
  {
    var d := DropPadding(RemoveWhitespace(s));
    if |d| % 4 == 1 then None
    else if !(forall i :: 0 <= i < |d| ==> IsSymbol(d[i])) then None
    else Some(Latin1String(Join(Values(d))))
  }

  lemma SymbolsValues(s: seq<Sextet>)
    ensures Values(Symbols(s)) == s
  {
  }

  /** Removing the padding of a padded run of alphabet characters leaves the run. */
  lemma DropPaddingOfPadded(body: string, k: nat)
    requires forall i :: 0 <= i < |body| ==> IsSymbol(body[i])
    requires k <= 2 && (|body| + k) % 4 == 0
    requires k == 1 ==> |body| % 4 == 3
    requires k == 2 ==> |body| % 4 == 2
    ensures DropPadding(body + seq(k, _ => '=')) == body
  {
    var e := body + seq(k, _ => '=');
    if k == 2 {
      assert e[..|e| - 2] == body;
    } else if k == 1 {
      assert e[|e| - 2] == body[|body| - 1];
      assert e[..|e| - 1] == body;
    } else {
      assert e == body;
      assert |e| >= 1 ==> e[|e| - 1] == body[|body| - 1];
    }
  }

  /** `atob` undoes the encoding: decoding the padded encoding of `b` gives the characters of `b`. */
  lemma DecodeEncode(b: seq<Byte>)
    ensures Atob(Encode(b)) == Some(Latin1String(b))
  {
    var s := Sextets(b);
    var body := Symbols(s);
    var e := Encode(b);
    SextetsLength(b);
    SextetsPadded(|b|);
    assert forall i :: 0 <= i < |e| ==> !IsAsciiWhitespace(e[i]);
    DropPaddingOfPadded(body, PadCount(|b|));
    var d := DropPadding(RemoveWhitespace(e));
    assert d == body;
    assert |d| % 4 != 1;
    SymbolsValues(s);
    JoinSextets(b);
    assert Join(Values(d)) == b;
  }

  /** `atob(btoa(s)) == s` for every string that `btoa` accepts. */
  lemma AtobBtoa(s: string)
    requires IsLatin1(s)
    ensures Btoa(s) == Some(Encode(Latin1Bytes(s)))
    ensures Atob(Btoa(s).value) == Some(s)
  {
    DecodeEncode(Latin1Bytes(s));
    assert Latin1String(Latin1Bytes(s)) == s;
  }
}
