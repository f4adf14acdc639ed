/**
 * Facts relating the two library files: the two copies of the CRC agree, and
 * the two amount injectors do not.
 */
module CrossChecks {
  import opened Wrappers
  import opened JsText
  import QrisUtils
  import QrisCodec

  /** The codec's copy of the CRC is always four upper-case hexadecimal digits. */
  lemma CodecCrcShape(data: string)
    ensures |QrisCodec.CodecCrc(data)| == 4 &&
      forall i :: 0 <= i < 4 ==> IsUpperHexDigit(QrisCodec.CodecCrc(data)[i])
  {
    QrisCodec.CrcCopiesAgree(data);
  }

  /** The codec's copy of the CRC gives the CRC-16/CCITT-FALSE check value. */
  lemma CodecCheckValue()
    ensures QrisCodec.CodecCrc("123456789") == "29B1"
  {
    QrisCodec.CrcCopiesAgree("123456789");
    QrisUtils.CrcCheckValue();
  }

  /** The objects of `SwallowingPayload`: an amount of 75000.00 and the Country Code "ID". */
  const SwallowingObjects: seq<QrisUtils.Tlv> := [QrisUtils.Tlv("54", "75000.00"), QrisUtils.Tlv("58", "ID")]

  lemma BuildTlvTwo(a: QrisUtils.Tlv, b: QrisUtils.Tlv)
    ensures QrisUtils.BuildTlv([a, b]) == QrisUtils.Field(a) + QrisUtils.Field(b)
  {
    assert [a, b][1..] == [b];
    assert QrisUtils.BuildTlv([b]) == QrisUtils.Field(b) + QrisUtils.BuildTlv([]);
  }

  lemma SwallowingBuilt()
    ensures QrisUtils.BuildTlv(SwallowingObjects) == QrisCodec.SwallowingPayload
  {
    BuildTlvTwo(SwallowingObjects[0], SwallowingObjects[1]);
    assert Pad2(8) == "08" by {
      assert Decimal(8) == "8";
    }
    assert Pad2(2) == "02" by {
      assert Decimal(2) == "2";
    }
  }

  lemma SwallowingParsed()
    ensures QrisUtils.Parse(QrisCodec.SwallowingPayload) == SwallowingObjects
  {
    SwallowingBuilt();
    assert QrisUtils.WellFormed(SwallowingObjects);
    QrisUtils.ParseBuild(SwallowingObjects);
  }

  /** `setAmount` reads `SwallowingPayload` as its two objects and keeps both. */
  lemma SwallowingFields()
    ensures QrisUtils.Fields(QrisCodec.SwallowingPayload, 75000) == SwallowingObjects
  {
    var ts := SwallowingObjects;
    SwallowingParsed();
    ToFixed2Example();
    assert QrisUtils.Lookup(ts, "54") == Some("75000.00");
    QrisUtils.SetOrReplacedSame(ts, "54", "75000.00");
    QrisUtils.WithoutTagAbsent(ts, "63");
  }

  /** `setAmount` keeps the Country Code object of `SwallowingPayload`. */
  lemma SetAmountKeepsCountry()
    ensures QrisUtils.Lookup(QrisUtils.Parse(QrisUtils.DynamicPayload(QrisCodec.SwallowingPayload, 75000)), "58") == Some("ID")
  {
    SwallowingFields();
    assert QrisUtils.Lookup(SwallowingObjects, "58") == Some("ID");
    QrisUtils.DynamicKeeps(QrisCodec.SwallowingPayload, 75000, "58");
  }

  /** The two injectors give different payloads for `SwallowingPayload` and 75000. */
  lemma InjectorsDisagree()
    ensures QrisUtils.DynamicPayload(QrisCodec.SwallowingPayload, 75000) !=
      QrisCodec.DynamicQris(QrisCodec.SwallowingPayload, 75000)
  {
    SwallowingFields();
    SwallowingBuilt();
    QrisUtils.DynamicPayloadLength(QrisCodec.SwallowingPayload, 75000);
    QrisCodec.SwallowingUnstripped();
    QrisCodec.SwallowedField();
    QrisCodec.DynamicQrisLength(QrisCodec.SwallowingPayload, 75000);
  }
}
