/**
 * The structural QRIS toolkit of lib/qris-utils.ts: the EMVCo payload read as
 * a list of TLV data objects (two-character tag, two-digit length, value),
 * written back, and turned into a dynamic payload by setting the Transaction
 * Amount (tag "54"), dropping any CRC object (tag "63") and appending a fresh
 * CRC-16/CCITT-FALSE over everything up to and including "6304".
 */
module QrisUtils {
  import opened Wrappers
  import opened JsText
  import Crc16

  /** One data object of the payload: its tag and its value. */
  datatype Tlv = Tlv(id: string, value: string)

  // ---------------------------------------------------------------------------
  // hex, toAsciiBytes and crc16ccitt

  /** `hex(num, len)`: upper-case hexadecimal, left-padded with zeros to `len` digits. */
  function Hex(num: nat, len: nat): (r: string)
    ensures |r| >= len && AllHexDigits(r) && HexValue(r) == num
    ensures forall i :: 0 <= i < |r| ==> IsUpperHexDigit(r[i])
    ensures 1 <= len && num < Pow(16, len) ==> |r| == len
  {
    PaddedUpperHex(num, len);
    PadStart(ToUpperCase(HexString(num)), len, '0')
  }

  lemma PowSixteenFour()
    ensures Pow(16, 4) == 65536
  {
    assert Pow(16, 2) == 256;
  }

  /** What a `Uint8Array` element keeps of a character code: its low eight bits. */
  function ByteOf(c: char): bv8
  {
    Crc16.LowByte(c as bv32)
  }

  /** A character below 256 is stored as its own code. */
  lemma ByteOfLatin1(c: char)
    requires c as int < 256
    ensures ByteOf(c) == (c as int) as bv8
  {
  }

  /** The bytes `toAsciiBytes` produces, one per character (a UTF-16 code unit for text up to U+FFFF). */
  function AsciiBytes(s: string): (b: seq<bv8>)
    ensures |b| == |s|
  {
    seq(|s|, i requires 0 <= i < |s| => ByteOf(s[i]))
  }

  method ToAsciiBytes(str: string) returns (bytes: array<bv8>)
    ensures fresh(bytes)
    ensures bytes[..] == AsciiBytes(str)
  {
    bytes := new bv8[|str|];
    for i := 0 to |str|
      invariant bytes[..i] == AsciiBytes(str)[..i]
    {
      bytes[i] := ByteOf(str[i]);
    }
  }

  /** The CRC object's value for `input`: the checksum of its bytes as four upper-case hex digits. */
  function Crc(input: string): (r: string)
    ensures |r| == 4 && forall i :: 0 <= i < 4 ==> IsUpperHexDigit(r[i])
    ensures AllHexDigits(r) && HexValue(r) == Crc16.Checksum(AsciiBytes(input)) as nat
  {
    PowSixteenFour();
    Hex(Crc16.Checksum(AsciiBytes(input)) as nat, 4)
  }

  /** One pass of the outer loop of `crc16ccitt`: mix the byte into the high half, then eight steps. */
  method FeedByte(crc0: bv32, ghost reg: bv16, b: bv8) returns (crc: bv32)
    requires crc0 == Crc16.Widen(reg)
    ensures crc == Crc16.Widen(Crc16.Update(reg, b))
  {
    crc := crc0 ^ ((b as bv32) << 8);
    crc := Crc16.ShiftEight(crc);
    Crc16.ByteUpdateAgrees(reg, b);
  }

  /** `crc16ccitt(input)`: the library's bit loop on a JavaScript number masked to 16 bits. */
  method Crc16Ccitt(input: string) returns (r: string)
    ensures r == Crc(input)
  {
    var crc: bv32 := 0xFFFF;
    var data := ToAsciiBytes(input);
    ghost var reg := Crc16.Init;
    for k := 0 to data.Length
      invariant data[..] == AsciiBytes(input)
      invariant reg == Crc16.Register(Crc16.Init, data[..k])
      invariant crc == Crc16.Widen(reg)
    {
      var b := data[k];
      crc := FeedByte(crc, reg, b);
      Crc16.RegisterSnoc(Crc16.Init, data[..k], b);
      assert data[..k + 1] == data[..k] + [b];
      reg := Crc16.Update(reg, b);
    }
    assert data[..] == data[..data.Length];
    Crc16.WidenValue(reg);
    r := Hex(Crc16.Value(crc), 4);
  }

  /** The standard check input "123456789" yields the CRC-16/CCITT-FALSE check value 0x29B1. */
  lemma CrcCheckValue()
    ensures Crc("123456789") == "29B1"
  {
    CheckBytes();
    Crc16.CheckValue();
    CheckHexString();
    assert ToUpperCase("29b1") == "29B1";
  }

  lemma CheckBytes()
    ensures AsciiBytes("123456789") == Crc16.CheckInput
  {
    forall k | 0 <= k < 9
      ensures AsciiBytes("123456789")[k] == Crc16.CheckInput[k]
    {
      ByteOfLatin1("123456789"[k]);
    }
  }

  lemma HexStringStep(n: nat)
    requires n >= 16
    ensures HexString(n) == HexString(n / 16) + [LowerHexChar(n % 16)]
  {
  }

  lemma CheckHexString()
    ensures HexString(0x29B1) == "29b1"
  {
    HexStringStep(0x29B1);
    HexStringStep(0x29B);
    HexStringStep(0x29);
    assert LowerHexChar(1) == '1';
    assert LowerHexChar(11) == 'b';
    assert LowerHexChar(9) == '9';
    assert HexString(2) == "2";
  }

  // ---------------------------------------------------------------------------
  // parseTLV

  /** The length field at cursor `i`, as `parseInt` reads it. */
  function LengthAt(p: string, i: nat): IntOrNaN
    requires i + 4 <= |p|
  {
    ParseIntOfTwo(p[i + 2..i + 4])
  }

  /**
   * The data objects `parseTLV` reads from cursor `i` of `p` on, with the scan
   * ending at a length field that names no non-negative length: a
   * two-character tag, a length field read by `parseInt`, and a value of that
   * many characters, cut short when the payload ends first. A length field
   * that parses as NaN, or as a negative number, yields its tag with an empty
   * value and ends the scan.
   */
  function ParseFrom(p: string, i: nat): (r: seq<Tlv>)
    ensures forall k :: 0 <= k < |r| ==> |r[k].id| == 2 && |r[k].value| <= 99
    decreases |p| - i
  {
    if |p| < i + 4 then []
    else
      match LengthAt(p, i)
      case NaN => [Tlv(p[i..i + 2], "")]
      case Num(n) =>
        if n < 0 then [Tlv(p[i..i + 2], "")]
        else if i + 4 + n <= |p| then [Tlv(p[i..i + 2], p[i + 4..i + 4 + n])] + ParseFrom(p, i + 4 + n)
        else [Tlv(p[i..i + 2], p[i + 4..])]
  }

  /** What `parseTLV(p)` returns. */
  function Parse(p: string): (r: seq<Tlv>)
    ensures forall k :: 0 <= k < |r| ==> |r[k].id| == 2 && |r[k].value| <= 99
  {
    ParseFrom(p, 0)
  }

  /** `parseTLV(payload)`: a cursor loop pushing one data object per pass. */
  method ParseTlv(payload: string) returns (out: seq<Tlv>)
    ensures out == Parse(payload)
  {
    out := [];
    var i := 0;
    while i + 4 <= |payload|
      invariant out + ParseFrom(payload, i) == Parse(payload)
      decreases |payload| - i
    {
      var id := payload[i..i + 2];
      var len := ParseIntOfTwo(payload[i + 2..i + 4]);
      assert len == LengthAt(payload, i);
      if len.NaN? || len.n < 0 {
        // NaN makes the cursor NaN and ends the loop; a negative length ends it too.
        ParseFromStop(payload, i);
        out := out + [Tlv(id, "")];
        break;
      }
      var end := i + 4 + len.n;
      if end <= |payload| {
        ParseFromNext(payload, i, len.n, end);
        out := out + [Tlv(id, payload[i + 4..end])];
      } else {
        ParseFromTruncated(payload, i, len.n);
        out := out + [Tlv(id, payload[i + 4..])];
      }
      i := end;
    }
  }

  /** A complete data object at cursor `i` is emitted and the scan resumes after its value, at `j`. */
  lemma ParseFromNext(p: string, i: nat, n: nat, j: nat)
    requires j == i + 4 + n <= |p| && LengthAt(p, i) == Num(n)
    ensures ParseFrom(p, i) == [Tlv(p[i..i + 2], p[i + 4..j])] + ParseFrom(p, j)
  {
  }

  /** At a length field that names no non-negative length the tag is emitted alone and the scan stops. */
  lemma ParseFromStop(p: string, i: nat)
    requires i + 4 <= |p| && (LengthAt(p, i).NaN? || LengthAt(p, i).n < 0)
    ensures ParseFrom(p, i) == [Tlv(p[i..i + 2], "")]
  {
  }

  /** A value cut short by the end of the payload is emitted as far as it goes, and the scan stops. */
  lemma ParseFromTruncated(p: string, i: nat, n: nat)
    requires i + 4 <= |p| < i + 4 + n && LengthAt(p, i) == Num(n)
    ensures ParseFrom(p, i) == [Tlv(p[i..i + 2], p[i + 4..])]
  {
  }

  /** The scan as written on a payload whose length fields never name a negative length. */
  predicate ForwardFrom(p: string, i: nat)
    decreases |p| - i
  {
    |p| < i + 4 ||
    match LengthAt(p, i)
    case NaN => true
    case Num(n) => 0 <= n && ForwardFrom(p, i + 4 + n)
  }

  // ---------------------------------------------------------------------------
  // buildTLV

  /** One data object as `buildTLV` writes it: tag, the value's length padded to two digits, value. */
  function Field(t: Tlv): string
  {
    t.id + Pad2(|t.value|) + t.value
  }

  /** `buildTLV(tlvs)`: the data objects written one after another. */
  function BuildTlv(ts: seq<Tlv>): string
  {
    if ts == [] then "" else Field(ts[0]) + BuildTlv(ts[1..])
  }

  /** A data object `buildTLV` can write so that `parseTLV` reads it back: a two-character tag and a value of at most 99 characters. */
  predicate WellFormedTlv(t: Tlv)
  {
    |t.id| == 2 && |t.value| <= 99
  }

  predicate WellFormed(ts: seq<Tlv>)
  {
    forall t | t in ts :: WellFormedTlv(t)
  }

  /** Every list Parse returns is well formed. */
  lemma ParseWellFormed(p: string)
    ensures WellFormed(Parse(p))
  {
    var r := Parse(p);
    forall t | t in r
      ensures WellFormedTlv(t)
    {
      var k :| 0 <= k < |r| && r[k] == t;
    }
  }

  /** The characters a list of data objects takes when all of them are well formed. */
  function Size(ts: seq<Tlv>): nat
  {
    if ts == [] then 0 else 4 + |ts[0].value| + Size(ts[1..])
  }

  /** `buildTLV` of two lists joined is the two outputs joined. */
  lemma {:induction false} BuildTlvConcat(f: seq<Tlv>, g: seq<Tlv>)
    ensures BuildTlv(f + g) == BuildTlv(f) + BuildTlv(g)
  {
    if f == [] {
      assert f + g == g;
    } else {
      assert (f + g)[1..] == f[1..] + g;
      BuildTlvConcat(f[1..], g);
    }
  }

  /** A well-formed data object takes four characters more than its value. */
  lemma FieldLength(t: Tlv)
    requires WellFormedTlv(t)
    ensures |Field(t)| == 4 + |t.value|
  {
    Pad2Digits(|t.value|);
  }

  /** On well-formed lists the output is four characters per object plus the values. */
  lemma {:induction false} BuildTlvLength(ts: seq<Tlv>)
    requires WellFormed(ts)
    ensures |BuildTlv(ts)| == Size(ts)
  {
    if ts != [] {
      assert ts[0] in ts;
      FieldLength(ts[0]);
      assert forall t | t in ts[1..] :: t in ts;
      BuildTlvLength(ts[1..]);
    }
  }

  /** Reading from cursor `|a| + i` of `a + b` is reading from cursor `i` of `b`. */
  lemma {:induction false} ParseFromShift(a: string, b: string, i: nat, k: nat)
    requires k == |a| + i
    ensures ParseFrom(a + b, k) == ParseFrom(b, i)
    decreases |b| - i
  {
    var q := a + b;
    if i + 4 <= |b| {
      assert q[k + 2..k + 4] == b[i + 2..i + 4];
      assert q[k..k + 2] == b[i..i + 2];
      ShiftedLength(a, b, i, k);
      match LengthAt(b, i)
      case NaN =>
        ParseFromStop(q, k);
        ParseFromStop(b, i);
      case Num(n) =>
        if n < 0 {
          ParseFromStop(q, k);
          ParseFromStop(b, i);
        } else if i + 4 + n <= |b| {
          var j := i + 4 + n;
          var m := k + 4 + n;
          assert q[k + 4..m] == b[i + 4..j];
          ParseFromNext(q, k, n, m);
          ParseFromNext(b, i, n, j);
          ParseFromShift(a, b, j, m);
        } else {
          assert q[k + 4..] == b[i + 4..];
          ParseFromTruncated(q, k, n);
          ParseFromTruncated(b, i, n);
        }
    }
  }

  lemma ShiftedLength(a: string, b: string, i: nat, k: nat)
    requires k == |a| + i && i + 4 <= |b|
    ensures LengthAt(a + b, k) == LengthAt(b, i)
  {
    assert (a + b)[k + 2..k + 4] == b[i + 2..i + 4];
  }

  /** The first object of a written list is read back, and reading resumes where the rest was written. */
  lemma ParseField(t: Tlv, rest: string)
    requires WellFormedTlv(t)
    ensures Parse(Field(t) + rest) == [t] + Parse(rest)
  {
    var n := |t.value|;
    var q := Field(t) + rest;
    Pad2Parses(n);
    assert q[2..4] == Pad2(n);
    assert q[..2] == t.id && q[4..4 + n] == t.value;
    ParseFromNext(q, 0, n, 4 + n);
    ParseFromShift(Field(t), rest, 0, 4 + n);
  }

  /** Round trip: `parseTLV(buildTLV(F)) == F` for every well-formed list. */
  lemma {:induction false} ParseBuild(ts: seq<Tlv>)
    requires WellFormed(ts)
    ensures Parse(BuildTlv(ts)) == ts
  {
    if ts != [] {
      assert ts[0] in ts;
      assert forall t | t in ts[1..] :: t in ts;
      ParseBuild(ts[1..]);
      ParseField(ts[0], BuildTlv(ts[1..]));
      assert ts == [ts[0]] + ts[1..];
    }
  }

  // ---------------------------------------------------------------------------
  // setOrReplace

  /** `tlvs.findIndex(t => t.id === id)`: the first index carrying tag `id`, or -1. */
  function FindIndex(ts: seq<Tlv>, id: string): (r: int)
    ensures -1 <= r < |ts|
    ensures 0 <= r ==> ts[r].id == id && forall k :: 0 <= k < r ==> ts[k].id != id
    ensures r == -1 ==> forall k :: 0 <= k < |ts| ==> ts[k].id != id
  {
    if ts == [] then -1
    else if ts[0].id == id then 0
    else
      var r := FindIndex(ts[1..], id);
      if r < 0 then -1 else r + 1
  }

  /** The list after `setOrReplace(tlvs, id, value)`. */
  function SetOrReplaced(ts: seq<Tlv>, id: string, value: string): seq<Tlv>
  {
    var k := FindIndex(ts, id);
    if k >= 0 then ts[k := Tlv(id, value)] else ts + [Tlv(id, value)]
  }

  /** When the tag is present only its first object is overwritten; length and every other object stay. */
  lemma SetOrReplacedFound(ts: seq<Tlv>, id: string, value: string, k: nat)
    requires k < |ts| && ts[k].id == id && forall j :: 0 <= j < k ==> ts[j].id != id
    ensures SetOrReplaced(ts, id, value) == ts[k := Tlv(id, value)]
  {
  }

  /** When the tag is absent exactly one object is appended at the end. */
  lemma SetOrReplacedAppended(ts: seq<Tlv>, id: string, value: string)
    requires forall t | t in ts :: t.id != id
    ensures SetOrReplaced(ts, id, value) == ts + [Tlv(id, value)]
  {
    assert forall j | 0 <= j < |ts| :: ts[j] in ts;
  }

  /** The list `setOrReplace` works on: a JavaScript array of data objects updated in place. */
  class TlvList {
    var items: seq<Tlv>

    constructor (items0: seq<Tlv>)
      ensures items == items0
    {
      items := items0;
    }

    /** `setOrReplace(tlvs, id, value)`. */
    method SetOrReplace(id: string, value: string)
      modifies this
      ensures items == SetOrReplaced(old(items), id, value)
    {
      var idx := FindIndex(items, id);
      if idx >= 0 {
        items := items[idx := Tlv(id, value)];
      } else {
        items := items + [Tlv(id, value)];
      }
    }
  }

  // ---------------------------------------------------------------------------
  // Looking objects up by tag

  /** The value of the first object tagged `id`, as `findIndex` would find it. */
  function Lookup(ts: seq<Tlv>, id: string): Option<string>
  {
    var k := FindIndex(ts, id);
    if k < 0 then None else Some(ts[k].value)
  }

  /** Lookup on a list with a first object `t`: `t` itself if it carries the tag, otherwise the rest. */
  lemma LookupCons(t: Tlv, ts: seq<Tlv>, id: string)
    ensures Lookup([t] + ts, id) == if t.id == id then Some(t.value) else Lookup(ts, id)
  {
    assert ([t] + ts)[1..] == ts;
  }

  /** After `setOrReplace(tlvs, id, value)` the first object tagged `id` holds `value`. */
  lemma LookupSetOrReplaced(ts: seq<Tlv>, id: string, value: string)
    ensures Lookup(SetOrReplaced(ts, id, value), id) == Some(value)
  {
    var k := FindIndex(ts, id);
    if k >= 0 {
      SetOrReplacedFound(ts, id, value, k);
      var r := ts[k := Tlv(id, value)];
      assert r[k].id == id;
      assert forall j :: 0 <= j < k ==> r[j] == ts[j];
    } else {
      var r := ts + [Tlv(id, value)];
      assert r[|ts|].id == id;
      assert forall j :: 0 <= j < |ts| ==> r[j] == ts[j];
    }
  }

  /** A lookup that finds something in a list finds the same thing once more objects are appended. */
  lemma LookupAppend(f: seq<Tlv>, g: seq<Tlv>, id: string)
    requires Lookup(f, id).Some?
    ensures Lookup(f + g, id) == Lookup(f, id)
  {
    assert forall j :: 0 <= j < |f| ==> (f + g)[j] == f[j];
  }

  /** The first object tagged `id` at index `j` is what a lookup finds. */
  lemma LookupAt(ts: seq<Tlv>, id: string, j: nat)
    requires j < |ts| && ts[j].id == id && forall i :: 0 <= i < j ==> ts[i].id != id
    ensures Lookup(ts, id) == Some(ts[j].value)
  {
  }

  /** With no object tagged `id` a lookup finds nothing. */
  lemma LookupNone(ts: seq<Tlv>, id: string)
    requires forall i :: 0 <= i < |ts| ==> ts[i].id != id
    ensures Lookup(ts, id) == None
  {
  }

  /** Appending an object of another tag does not change what a lookup finds. */
  lemma LookupAppendOther(f: seq<Tlv>, t: Tlv, id: string)
    requires t.id != id
    ensures Lookup(f + [t], id) == Lookup(f, id)
  {
    if Lookup(f, id).Some? {
      LookupAppend(f, [t], id);
    } else {
      assert forall i :: 0 <= i < |f| ==> (f + [t])[i] == f[i];
      LookupNone(f + [t], id);
    }
  }

  /** Two lists of one length that agree on where `id` occurs, and on those values, look `id` up alike. */
  lemma LookupSameTags(a: seq<Tlv>, b: seq<Tlv>, id: string)
    requires |a| == |b|
    requires forall j :: 0 <= j < |a| ==> (a[j].id == id <==> b[j].id == id)
    requires forall j :: 0 <= j < |a| && a[j].id == id ==> a[j].value == b[j].value
    ensures Lookup(a, id) == Lookup(b, id)
  {
    var k := FindIndex(a, id);
    if k >= 0 {
      LookupAt(b, id, k);
    } else {
      LookupNone(b, id);
    }
  }

  /** `setOrReplace` on one tag does not change what any other tag looks up to. */
  lemma LookupSetOrReplacedOther(ts: seq<Tlv>, id: string, other: string, value: string)
    requires id != other
    ensures Lookup(SetOrReplaced(ts, other, value), id) == Lookup(ts, id)
  {
    var k := FindIndex(ts, other);
    if k >= 0 {
      LookupSameTags(ts[k := Tlv(other, value)], ts, id);
    } else {
      LookupAppendOther(ts, Tlv(other, value), id);
    }
  }

  // ---------------------------------------------------------------------------
  // filter(t => t.id !== "63")

  /** `tlvs.filter(t => t.id !== id)`. */
  function WithoutTag(ts: seq<Tlv>, id: string): (r: seq<Tlv>)
    ensures forall t :: t in r <==> t in ts && t.id != id
    ensures |r| <= |ts|
  {
    if ts == [] then []
    else if ts[0].id == id then WithoutTag(ts[1..], id)
    else [ts[0]] + WithoutTag(ts[1..], id)
  }

  /** Filtering two lists joined is filtering each. */
  lemma {:induction false} WithoutTagConcat(f: seq<Tlv>, g: seq<Tlv>, id: string)
    ensures WithoutTag(f + g, id) == WithoutTag(f, id) + WithoutTag(g, id)
  {
    if f == [] {
      assert f + g == g;
    } else {
      assert (f + g)[1..] == f[1..] + g;
      WithoutTagConcat(f[1..], g, id);
    }
  }

  /** A list with no object tagged `id` is kept as it is, in order. */
  lemma {:induction false} WithoutTagAbsent(ts: seq<Tlv>, id: string)
    requires forall t | t in ts :: t.id != id
    ensures WithoutTag(ts, id) == ts
  {
    if ts != [] {
      assert ts[0] in ts;
      assert forall t | t in ts[1..] :: t in ts;
      WithoutTagAbsent(ts[1..], id);
      assert ts == [ts[0]] + ts[1..];
    }
  }

  /** Dropping the objects of another tag does not change which value a lookup finds. */
  lemma {:induction false} LookupWithoutTag(ts: seq<Tlv>, id: string, other: string)
    requires id != other
    ensures Lookup(WithoutTag(ts, other), id) == Lookup(ts, id)
  {
    if ts != [] {
      LookupWithoutTag(ts[1..], id, other);
      assert ts == [ts[0]] + ts[1..];
      LookupCons(ts[0], ts[1..], id);
      if ts[0].id != other {
        LookupCons(ts[0], WithoutTag(ts[1..], other), id);
      }
    }
  }

  // ---------------------------------------------------------------------------
  // setAmount and buildDynamicFromStatic

  /** The tag of the Transaction Amount object. */
  const AmountTag: string := "54"

  /** The tag of the CRC object. */
  const CrcTag: string := "63"

  /** The data objects `setAmount(payload, amount)` writes before the CRC object. */
  function Fields(p: string, amount: Amount): seq<Tlv>
  {
    WithoutTag(SetOrReplaced(Parse(p), AmountTag, ToFixed2(amount)), CrcTag)
  }

  /** The CRC object `setAmount` appends: tag "63", length "04", the CRC of everything before its value. */
  function CrcObject(p: string, amount: Amount): Tlv
  {
    Tlv(CrcTag, Crc(BuildTlv(Fields(p, amount)) + "6304"))
  }

  /** `setAmount(payload, amount)` as a value. */
  function DynamicPayload(p: string, amount: Amount): string
  {
    var base := BuildTlv(Fields(p, amount));
    base + "6304" + Crc(base + "6304")
  }

  /** `setAmount(payload, amount)`. */
  method SetAmount(payload: string, amount: Amount) returns (r: string)
    ensures r == DynamicPayload(payload, amount)
  {
    var tlvs := ParseTlv(payload);
    var amt := ToFixed2(amount);
    var list := new TlvList(tlvs);
    list.SetOrReplace(AmountTag, amt);
    var noCrc := WithoutTag(list.items, CrcTag);
    var base := BuildTlv(noCrc);
    var crc := Crc16Ccitt(base + "6304");
    r := base + "6304" + crc;
  }

  /** `buildDynamicFromStatic(staticPayload, amount)`: an empty payload is refused, anything else goes to `setAmount`. */
  method BuildDynamicFromStatic(staticPayload: string, amount: Amount) returns (r: Result<string, string>)
    ensures staticPayload == [] ==> r == Failure("Static QRIS payload missing.")
    ensures staticPayload != [] ==> r == Success(DynamicPayload(staticPayload, amount))
  {
    if staticPayload == [] {
      return Failure("Static QRIS payload missing.");
    }
    var s := SetAmount(staticPayload, amount);
    r := Success(s);
  }

  /** `setOrReplace` with a well-formed object keeps a list well formed. */
  lemma SetOrReplacedWellFormed(ts: seq<Tlv>, id: string, value: string)
    requires WellFormed(ts) && WellFormedTlv(Tlv(id, value))
    ensures WellFormed(SetOrReplaced(ts, id, value))
  {
  }

  /** The objects written before the CRC object are well formed, so `parseTLV` reads them back. */
  lemma FieldsWellFormed(p: string, amount: Amount)
    ensures WellFormed(Fields(p, amount))
  {
    ParseWellFormed(p);
    ToFixed2Length(amount);
    SetOrReplacedWellFormed(Parse(p), AmountTag, ToFixed2(amount));
  }

  /** The first Transaction Amount object written holds `amount.toFixed(2)`. */
  lemma FieldsAmount(p: string, amount: Amount)
    ensures Lookup(Fields(p, amount), AmountTag) == Some(ToFixed2(amount))
  {
    var ts := SetOrReplaced(Parse(p), AmountTag, ToFixed2(amount));
    LookupSetOrReplaced(Parse(p), AmountTag, ToFixed2(amount));
    LookupWithoutTag(ts, AmountTag, CrcTag);
  }

  /** A CRC object whose value has four characters is written as "6304" and those four characters. */
  lemma CrcField(c: Tlv)
    requires c.id == CrcTag && |c.value| == 4
    ensures Field(c) == "6304" + c.value
  {
    assert Decimal(4) == "4";
  }

  /** Objects followed by "6304" and a four-character CRC value are the objects and the CRC object written out. */
  lemma BuildWithCrc(f: seq<Tlv>, crc: string)
    requires |crc| == 4
    ensures BuildTlv(f) + "6304" + crc == BuildTlv(f + [Tlv(CrcTag, crc)])
  {
    var c := Tlv(CrcTag, crc);
    var b := BuildTlv(f);
    BuildTlvConcat(f, [c]);
    BuildTlvOne(c);
    CrcField(c);
    assert b + "6304" + crc == b + ("6304" + crc);
  }

  lemma BuildTlvOne(t: Tlv)
    ensures BuildTlv([t]) == Field(t)
  {
    assert BuildTlv([t]) == Field(t) + BuildTlv([]);
  }

  /** ... and are read back as those objects and the CRC object. */
  lemma ParseWithCrc(f: seq<Tlv>, crc: string)
    requires WellFormed(f) && |crc| == 4
    ensures Parse(BuildTlv(f) + "6304" + crc) == f + [Tlv(CrcTag, crc)]
  {
    var g := f + [Tlv(CrcTag, crc)];
    BuildWithCrc(f, crc);
    assert forall t | t in g :: t in f || t == Tlv(CrcTag, crc);
    ParseBuild(g);
  }

  /** Reading the dynamic payload gives back the objects written and then the CRC object. */
  lemma DynamicParses(p: string, amount: Amount)
    ensures Parse(DynamicPayload(p, amount)) == Fields(p, amount) + [CrcObject(p, amount)]
  {
    var f := Fields(p, amount);
    FieldsWellFormed(p, amount);
    ParseWithCrc(f, Crc(BuildTlv(f) + "6304"));
  }

  /** In the dynamic payload the first Transaction Amount object holds `amount.toFixed(2)`. */
  lemma DynamicAmount(p: string, amount: Amount)
    ensures Lookup(Parse(DynamicPayload(p, amount)), AmountTag) == Some(ToFixed2(amount))
  {
    DynamicParses(p, amount);
    FieldsAmount(p, amount);
    LookupAppend(Fields(p, amount), [CrcObject(p, amount)], AmountTag);
  }

  /** In the dynamic payload exactly one object carries tag "63", and it is the last. */
  lemma DynamicCrcLast(p: string, amount: Amount)
    ensures var r := Parse(DynamicPayload(p, amount));
            |r| > 0 && r[|r| - 1].id == CrcTag && forall k :: 0 <= k < |r| - 1 ==> r[k].id != CrcTag
  {
    DynamicParses(p, amount);
    var f := Fields(p, amount);
    assert forall k :: 0 <= k < |f| ==> f[k] in f;
  }

  /** A payload that ends in "6304" and the CRC of everything before the CRC's four characters. */
  predicate HasValidCrc(q: string)
  {
    |q| >= 8 && q[|q| - 8..|q| - 4] == "6304" && q[|q| - 4..] == Crc(q[..|q| - 4])
  }

  lemma DynamicValidCrc(p: string, amount: Amount)
    ensures HasValidCrc(DynamicPayload(p, amount))
  {
    var base := BuildTlv(Fields(p, amount));
    var q := DynamicPayload(p, amount);
    assert q[..|q| - 4] == base + "6304";
    assert q[|q| - 8..|q| - 4] == "6304";
  }

  /** The dynamic payload is the rebuilt objects and eight more characters. */
  lemma DynamicPayloadLength(p: string, amount: Amount)
    ensures |DynamicPayload(p, amount)| == |BuildTlv(Fields(p, amount))| + 8
  {
  }

  /** Any tag found among the rebuilt objects reads back from the dynamic payload with the same value. */
  lemma DynamicKeeps(p: string, amount: Amount, id: string)
    requires Lookup(Fields(p, amount), id).Some?
    ensures Lookup(Parse(DynamicPayload(p, amount)), id) == Lookup(Fields(p, amount), id)
  {
    DynamicParses(p, amount);
    LookupAppend(Fields(p, amount), [CrcObject(p, amount)], id);
  }

  /**
   * Every tag other than the amount and the CRC reads back from the dynamic
   * payload with the value it has in the static payload, or stays absent.
   */
  lemma SetAmountKeepsOthers(p: string, amount: Amount, id: string)
    requires id != AmountTag && id != CrcTag
    ensures Lookup(Parse(DynamicPayload(p, amount)), id) == Lookup(Parse(p), id)
  {
    var updated := SetOrReplaced(Parse(p), AmountTag, ToFixed2(amount));
    DynamicParses(p, amount);
    LookupAppendOther(Fields(p, amount), CrcObject(p, amount), id);
    LookupWithoutTag(updated, id, CrcTag);
    LookupSetOrReplacedOther(Parse(p), id, AmountTag, ToFixed2(amount));
  }

  /** Setting a tag to the value its first object already holds changes nothing. */
  lemma SetOrReplacedSame(ts: seq<Tlv>, id: string, value: string)
    requires Lookup(ts, id) == Some(value)
    ensures SetOrReplaced(ts, id, value) == ts
  {
    var k := FindIndex(ts, id);
    assert ts[k] == Tlv(id, value);
  }

  /** Dropping the CRC object again leaves the objects written before it. */
  lemma WithoutCrcObject(f: seq<Tlv>, c: Tlv)
    requires c.id == CrcTag && forall t | t in f :: t.id != CrcTag
    ensures WithoutTag(f + [c], CrcTag) == f
  {
    WithoutTagConcat(f, [c], CrcTag);
    WithoutTagAbsent(f, CrcTag);
    assert WithoutTag([c], CrcTag) == [];
  }

  /** Setting the same amount twice gives the payload setting it once gives. */
  lemma SetAmountIdempotent(p: string, amount: Amount)
    ensures DynamicPayload(DynamicPayload(p, amount), amount) == DynamicPayload(p, amount)
  {
    var q := DynamicPayload(p, amount);
    var f := Fields(p, amount);
    var c := CrcObject(p, amount);
    DynamicParses(p, amount);
    FieldsAmount(p, amount);
    LookupAppend(f, [c], AmountTag);
    SetOrReplacedSame(f + [c], AmountTag, ToFixed2(amount));
    WithoutCrcObject(f, c);
    assert Fields(q, amount) == f;
  }

  // ---------------------------------------------------------------------------
  // parseTLV as written

  /** A `slice` index as JavaScript normalises it: a negative one counts from the end; then clamped. */
  function RelativeIndex(k: int, n: nat): (r: nat)
    ensures r <= n
    ensures 0 <= k <= n ==> r == k
  {
    if k < 0 then (if n + k < 0 then 0 else n + k) else if k > n then n else k
  }

  /** `s.slice(start, end)`. */
  function Slice(s: string, start: int, end: int): (r: string)
    ensures start <= end ==> |r| <= end - start
    ensures 0 <= start <= end <= |s| ==> r == s[start..end]
  {
    var a := RelativeIndex(start, |s|);
    var b := RelativeIndex(end, |s|);
    if a < b then s[a..b] else []
  }

  /**
   * One pass of the `parseTLV` loop exactly as written, at a cursor `i` that
   * may have become negative: the object pushed and the next cursor
   * `i + 4 + len`. A NaN length makes the next cursor NaN, and `slice(i + 4, NaN)`
   * ends at index 0.
   */
  function ScanStep(p: string, i: int): (Tlv, IntOrNaN)
  {
    var id := Slice(p, i, i + 2);
    match ParseIntShort(Slice(p, i + 2, i + 4))
    case NaN => (Tlv(id, Slice(p, i + 4, 0)), NaN)
    case Num(n) => (Tlv(id, Slice(p, i + 4, i + 4 + n)), Num(i + 4 + n))
  }

  /** The loop condition `i + 4 <= payload.length`, false for a NaN cursor. */
  predicate Continues(p: string, c: IntOrNaN)
  {
    c.Num? && c.n + 4 <= |p|
  }

  /**
   * The `parseTLV` loop as written, run from cursor `c` for at most `fuel`
   * passes: what it pushes if it stops within them, None if it is still running.
   */
  function Scan(p: string, c: IntOrNaN, fuel: nat): Option<seq<Tlv>>
    decreases fuel
  {
    if !Continues(p, c) then Some([])
    else if fuel == 0 then None
    else
      var (t, next) := ScanStep(p, c.n);
      match Scan(p, next, fuel - 1)
      case None => None
      case Some(rest) => Some([t] + rest)
  }

  /** At a NaN length field the loop as written pushes the tag with an empty value and stops. */
  lemma ScanStopsAtNaN(p: string, i: nat, fuel: nat)
    requires i + 4 <= |p| && LengthAt(p, i) == NaN
    ensures Scan(p, Num(i), fuel + 1) == Some([Tlv(p[i..i + 2], "")])
  {
    assert Slice(p, i + 2, i + 4) == p[i + 2..i + 4];
    assert ScanStep(p, i) == (Tlv(p[i..i + 2], []), NaN);
    assert [Tlv(p[i..i + 2], [])] + [] == [Tlv(p[i..i + 2], [])];
  }

  /** A complete data object: the loop as written pushes it and carries on after its value, at `j`. */
  lemma ScanAtNext(p: string, i: nat, n: nat, j: nat, fuel: nat, rest: seq<Tlv>)
    requires j == i + 4 + n <= |p| && LengthAt(p, i) == Num(n) && 0 < fuel
    requires Scan(p, Num(j), fuel - 1) == Some(rest)
    ensures Scan(p, Num(i), fuel) == Some([Tlv(p[i..i + 2], p[i + 4..j])] + rest)
  {
    assert Slice(p, i + 2, i + 4) == p[i + 2..i + 4];
    assert ScanStep(p, i) == (Tlv(p[i..i + 2], p[i + 4..j]), Num(j));
  }

  /** A value cut short by the end of the payload: the loop as written pushes what there is and stops. */
  lemma ScanAtTruncated(p: string, i: nat, n: nat, fuel: nat)
    requires i + 4 <= |p| < i + 4 + n && LengthAt(p, i) == Num(n)
    ensures Scan(p, Num(i), fuel + 1) == Some([Tlv(p[i..i + 2], p[i + 4..])])
  {
    assert Slice(p, i + 2, i + 4) == p[i + 2..i + 4];
    assert Slice(p, i + 4, i + 4 + n) == p[i + 4..];
    assert ScanStep(p, i) == (Tlv(p[i..i + 2], p[i + 4..]), Num(i + 4 + n));
    assert [Tlv(p[i..i + 2], p[i + 4..])] + [] == [Tlv(p[i..i + 2], p[i + 4..])];
  }

  /** The cursor a complete data object at `i` moves the scan to, if there is one there. */
  predicate HasNext(p: string, i: nat)
  {
    i + 4 <= |p| && LengthAt(p, i).Num? && 0 <= LengthAt(p, i).n && i + 4 + LengthAt(p, i).n <= |p|
  }

  lemma ForwardNext(p: string, i: nat, n: nat, j: nat)
    requires ForwardFrom(p, i) && i + 4 <= |p| && LengthAt(p, i) == Num(n) && j == i + 4 + n
    ensures ForwardFrom(p, j)
  {
  }

  /** The last pass: the loop stops, at the end of the payload, at a NaN length or at a cut-short value. */
  lemma ScanParseLast(p: string, i: nat, fuel: nat)
    requires ForwardFrom(p, i) && !HasNext(p, i) && |p| - i < fuel
    ensures Scan(p, Num(i), fuel) == Some(ParseFrom(p, i))
  {
    if i + 4 <= |p| {
      var len := LengthAt(p, i);
      if len.NaN? {
        ScanStopsAtNaN(p, i, fuel - 1);
      } else {
        ScanAtTruncated(p, i, len.n, fuel - 1);
      }
    }
  }

  /**
   * On a payload whose length fields never go negative the loop as written
   * stops, within one pass per character, and pushes exactly what ParseFrom reads.
   */
  lemma {:induction false} ScanMatchesParse(p: string, i: nat, fuel: nat)
    requires ForwardFrom(p, i) && |p| - i < fuel
    ensures Scan(p, Num(i), fuel) == Some(ParseFrom(p, i))
    decreases |p| - i
  {
    if HasNext(p, i) {
      var n := LengthAt(p, i).n;
      var j := i + 4 + n;
      ForwardNext(p, i, n, j);
      ScanMatchesParse(p, j, fuel - 1);
      ParseFromNext(p, i, n, j);
      ScanAtNext(p, i, n, j, fuel, ParseFrom(p, j));
    } else {
      ScanParseLast(p, i, fuel);
    }
  }

  /** On such payloads `parseTLV` as written terminates and returns Parse's result. */
  lemma ScanTerminates(p: string)
    requires ForwardFrom(p, 0)
    ensures Scan(p, Num(0), |p| + 1) == Some(Parse(p))
  {
    ScanMatchesParse(p, 0, |p| + 1);
  }

  /** A payload on which `parseTLV` as written never returns: its cursor cycles 0, 3, 0, ... */
  const HangingPayload: string := "00-10-70"

  lemma HangingStepFromZero()
    ensures ScanStep(HangingPayload, 0) == (Tlv("00", ""), Num(3))
  {
    assert Slice(HangingPayload, 0, 2) == "00";
    assert Slice(HangingPayload, 2, 4) == "-1";
    assert ParseIntShort("-1") == Num(-1);
    assert Slice(HangingPayload, 4, 3) == "";
  }

  lemma HangingStepFromThree()
    ensures ScanStep(HangingPayload, 3) == (Tlv("10", ""), Num(0))
  {
    assert Slice(HangingPayload, 3, 5) == "10";
    assert Slice(HangingPayload, 5, 7) == "-7";
    assert ParseIntShort("-7") == Num(-7);
    assert Slice(HangingPayload, 7, 0) == "";
  }

  /** However many passes it is given, the loop as written is still running on HangingPayload. */
  lemma {:induction false} ScanNeverStops(fuel: nat)
    ensures Scan(HangingPayload, Num(0), fuel) == None && Scan(HangingPayload, Num(3), fuel) == None
  {
    HangingStepFromZero();
    HangingStepFromThree();
    if fuel > 0 {
      ScanNeverStops(fuel - 1);
    }
  }

  /**
   * A payload on which the loop as written terminates but reads differently:
   * the length "-3" moves the cursor from 0 to 1, where "1-" is read as a tag
   * and "3a" as the length 3.
   */
  const ShiftingPayload: string := "01-3abcd"

  lemma ShiftingStepFromZero()
    ensures ScanStep(ShiftingPayload, 0) == (Tlv("01", ""), Num(1))
  {
    assert Slice(ShiftingPayload, 0, 2) == "01";
    assert Slice(ShiftingPayload, 2, 4) == "-3";
    assert ParseIntShort("-3") == Num(-3);
    assert Slice(ShiftingPayload, 4, 1) == "";
  }

  lemma ShiftingStepFromOne()
    ensures ScanStep(ShiftingPayload, 1) == (Tlv("1-", "bcd"), Num(8))
  {
    assert Slice(ShiftingPayload, 1, 3) == "1-";
    assert Slice(ShiftingPayload, 3, 5) == "3a";
    assert ParseIntShort("3a") == Num(3);
    assert Slice(ShiftingPayload, 5, 8) == "bcd";
  }

  /** One pass of the loop as written that moves the cursor from `i` to `j`. */
  lemma ScanPass(p: string, i: int, t: Tlv, j: int, fuel: nat, rest: seq<Tlv>)
    requires Continues(p, Num(i)) && ScanStep(p, i) == (t, Num(j)) && 0 < fuel
    requires Scan(p, Num(j), fuel - 1) == Some(rest)
    ensures Scan(p, Num(i), fuel) == Some([t] + rest)
  {
  }

  /** The loop as written reads two objects from ShiftingPayload, the second one misaligned. */
  lemma ScanShifts()
    ensures Scan(ShiftingPayload, Num(0), 2) == Some([Tlv("01", ""), Tlv("1-", "bcd")])
  {
    ShiftingStepFromZero();
    ShiftingStepFromOne();
    assert |ShiftingPayload| == 8;
    ScanPass(ShiftingPayload, 1, Tlv("1-", "bcd"), 8, 1, []);
    assert [Tlv("1-", "bcd")] + [] == [Tlv("1-", "bcd")];
    ScanPass(ShiftingPayload, 0, Tlv("01", ""), 1, 2, [Tlv("1-", "bcd")]);
    assert [Tlv("01", "")] + [Tlv("1-", "bcd")] == [Tlv("01", ""), Tlv("1-", "bcd")];
  }

  /** The corrected reading stops at the length "-3". */
  lemma ParseStopsAtNegative()
    ensures Parse(ShiftingPayload) == [Tlv("01", "")]
  {
    assert |ShiftingPayload| == 8 && ShiftingPayload[2..4] == "-3";
    assert LengthAt(ShiftingPayload, 0) == Num(-3);
    assert ShiftingPayload[0..2] == "01";
    ParseFromStop(ShiftingPayload, 0);
  }

  /** On ShiftingPayload the loop as written and the corrected reading disagree. */
  lemma ScanDiffersFromParse()
    ensures Scan(ShiftingPayload, Num(0), 2) != Some(Parse(ShiftingPayload))
  {
    ScanShifts();
    ParseStopsAtNegative();
  }
}
