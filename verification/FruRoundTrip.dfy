/** Encoding a record and reading the image back gives the record, in whatever order its TLVs are
    written.
 */
module FruRoundTrip {
  import opened Wrappers
  import opened Fru
  import opened FruImages

  /** The TLV types that carry a field, in the order of the record's fields. */
  const FIELD_CODES: seq<byte> := [
    COUNTRY_CODE, DEVICE_VERSION, DIAG_VERSION, LABEL_REVISION, BASE_MAC_ADDRESS, MANUFACTURE_DATE,
    MANUFACTURER, NUM_MAC, ONIE_VERSION, PART_NUMBER, PLATFORM_NAME, PRODUCT_NAME, SERIAL_NUMBER,
    SERVICE_TAG, VENDOR]

  /** The bytes of the field a TLV type stands for; None for a string that is not there. */
  function Field(r: Record, code: byte): Option<bytes> {
    if code == COUNTRY_CODE then Some(r.countryCode)
    else if code == DEVICE_VERSION then Some([r.deviceVersion])
    else if code == DIAG_VERSION then r.diagVersion
    else if code == LABEL_REVISION then r.labelRevision
    else if code == BASE_MAC_ADDRESS then Some(r.baseMacAddress)
    else if code == MANUFACTURE_DATE then Some(r.manufactureDate)
    else if code == MANUFACTURER then r.manufacturer
    else if code == NUM_MAC then Some([High(r.numMacs), Low(r.numMacs)])
    else if code == ONIE_VERSION then r.onieVersion
    else if code == PART_NUMBER then r.partNumber
    else if code == PLATFORM_NAME then r.platformName
    else if code == PRODUCT_NAME then r.productName
    else if code == SERIAL_NUMBER then r.serialNumber
    else if code == SERVICE_TAG then r.serviceTag
    else if code == VENDOR then r.vendor
    else None
  }

  predicate IsText(code: byte) {
    IsString(code) || code == COUNTRY_CODE || code == MANUFACTURE_DATE
  }

  /** A record the format can hold: fields within their limits, no NUL inside a string. */
  ghost predicate Encodable(r: Record) {
    forall c :: c in FIELD_CODES && Field(r, c).Some? ==>
      var f := Field(r, c).value;
      |f| < 256 && Fits(Tlv(c, f)) && (IsText(c) ==> 0 !in f)
  }

  /** One TLV for each field that is there. */
  function FieldTlvs(r: Record, codes: seq<byte>): seq<Tlv>
    requires forall c :: c in codes && Field(r, c).Some? ==> |Field(r, c).value| < 256
  {
    if codes == [] then []
    else
      (if Field(r, codes[0]).Some? then [Tlv(codes[0], Field(r, codes[0]).value)] else [])
      + FieldTlvs(r, codes[1..])
  }

  lemma {:induction false} FieldTlvsMembers(r: Record, codes: seq<byte>, t: Tlv)
    requires forall c :: c in codes && Field(r, c).Some? ==> |Field(r, c).value| < 256
    ensures t in FieldTlvs(r, codes) <==> t.code in codes && Field(r, t.code) == Some(t.value)
  {
    if codes != [] {
      FieldTlvsMembers(r, codes[1..], t);
    }
  }

  lemma {:induction false} CStrOfText(s: bytes)
    requires 0 !in s
    ensures CStr(s) == s
  {
    if s != [] {
      CStrOfText(s[1..]);
    }
  }

  /** Applying a TLV sets the field of its own type and no other. */
  lemma ApplyField(r: Record, t: Tlv, c: byte)
    requires Fits(t) && c in FIELD_CODES
    requires IsText(t.code) ==> 0 !in t.value
    ensures Field(Apply(r, t), c) == if c == t.code then Some(t.value) else Field(r, c)
  {
    if IsText(t.code) {
      CStrOfText(t.value);
    } else if t.code == NUM_MAC {
      assert [High(Apply(r, t).numMacs), Low(Apply(r, t).numMacs)] == t.value;
    } else if t.code == DEVICE_VERSION {
      assert [Apply(r, t).deviceVersion] == t.value;
    }
  }

  /** After all TLVs, a field holds what the TLVs of its type agree on. */
  lemma {:induction false} ApplyAllField(r: Record, tlvs: seq<Tlv>, c: byte, f: Option<bytes>)
    requires c in FIELD_CODES
    requires forall t :: t in tlvs ==> Fits(t) && (IsText(t.code) ==> 0 !in t.value)
    requires forall t :: t in tlvs && t.code == c ==> f == Some(t.value)
    requires (exists t :: t in tlvs && t.code == c) || Field(r, c) == f
    ensures Field(ApplyAll(r, tlvs), c) == f
    decreases |tlvs|
  {
    if tlvs != [] {
      ApplyField(r, tlvs[0], c);
      ApplyAllField(Apply(r, tlvs[0]), tlvs[1..], c, f);
    }
  }

  /** The record, put together from its fields again. */
  function Rebuilt(r: Record): (r': Record)
    ensures r' == r
  {
    BigEndian16RoundTrip(r.numMacs);
    Record(
      Field(r, COUNTRY_CODE).value,
      Field(r, DEVICE_VERSION).value[0],
      Field(r, DIAG_VERSION),
      Field(r, LABEL_REVISION),
      Field(r, BASE_MAC_ADDRESS).value,
      Field(r, MANUFACTURE_DATE).value,
      Field(r, MANUFACTURER),
      BigEndian16(Field(r, NUM_MAC).value[0], Field(r, NUM_MAC).value[1]),
      Field(r, ONIE_VERSION),
      Field(r, PART_NUMBER),
      Field(r, PLATFORM_NAME),
      Field(r, PRODUCT_NAME),
      Field(r, SERIAL_NUMBER),
      Field(r, SERVICE_TAG),
      Field(r, VENDOR))
  }

  /** A record is determined by its fields. */
  lemma FieldsDetermine(a: Record, b: Record)
    requires forall c :: c in FIELD_CODES ==> Field(a, c) == Field(b, c)
    ensures a == b
  {
    assert Rebuilt(a) == Rebuilt(b);
  }

  lemma BlankFields(c: byte)
    requires c in FIELD_CODES
    ensures Field(BLANK, c).None? || forall r :: Field(r, c).Some?
  {
  }

  /** The TLVs of a record, in any order, turn the blank record into it. */
  lemma ApplyFieldTlvs(r: Record, tlvs: seq<Tlv>)
    requires Encodable(r)
    requires multiset(tlvs) == multiset(FieldTlvs(r, FIELD_CODES))
    ensures forall t :: t in tlvs ==> Fits(t)
    ensures ApplyAll(BLANK, tlvs) == r
  {
    forall t: Tlv
      ensures t in tlvs <==> t.code in FIELD_CODES && Field(r, t.code) == Some(t.value)
    {
      FieldTlvsMembers(r, FIELD_CODES, t);
      assert t in tlvs <==> t in multiset(tlvs);
      assert t in FieldTlvs(r, FIELD_CODES) <==> t in multiset(FieldTlvs(r, FIELD_CODES));
    }
    forall c | c in FIELD_CODES
      ensures Field(ApplyAll(BLANK, tlvs), c) == Field(r, c)
    {
      if Field(r, c).Some? {
        assert Tlv(c, Field(r, c).value) in tlvs;
      } else {
        BlankFields(c);
      }
      ApplyAllField(BLANK, tlvs, c, Field(r, c));
    }
    FieldsDetermine(ApplyAll(BLANK, tlvs), r);
  }

  lemma ReadHeld(checksum: Checksum, device: bytes, id: bytes, version: byte, tlvs: seq<Tlv>, r: Record)
    requires forall t :: t in tlvs ==> Fits(t)
    requires version <= SUPPORTED_OCP_FRU_EEPROM_VERSION && HoldsImage(checksum, device, id, version, tlvs)
    ensures ReadDevice(checksum, device, r) == (Accepted, ApplyAll(r, tlvs))
  {
    ImageLayout(checksum, device, id, version, tlvs);
    ReadFramed(checksum, device, tlvs, r);
  }

  lemma ReadImage(checksum: Checksum, tlvs: seq<Tlv>, id: bytes, version: byte, rest: bytes, r: Record)
    requires forall t :: t in tlvs ==> Fits(t)
    requires |id| == 8 && version <= SUPPORTED_OCP_FRU_EEPROM_VERSION
    requires Size(tlvs) + 6 < 0x1_0000
    requires rest != []
    ensures ReadDevice(checksum, Image(checksum, id, version, tlvs) + rest, r) == (Accepted, ApplyAll(r, tlvs))
  {
    var image := Image(checksum, id, version, tlvs);
    assert (image + rest)[..|image|] == image;
    ReadHeld(checksum, image + rest, id, version, tlvs, r);
  }

  /** Encode, then read: the same record, for every order of the TLVs and whatever follows the image
      on the device, as long as one byte does. */
  lemma RoundTrip(checksum: Checksum, r: Record, tlvs: seq<Tlv>, id: bytes, version: byte, rest: bytes)
    requires Encodable(r)
    requires multiset(tlvs) == multiset(FieldTlvs(r, FIELD_CODES))
    requires |id| == 8 && version <= SUPPORTED_OCP_FRU_EEPROM_VERSION
    requires Size(tlvs) + 6 < 0x1_0000
    requires rest != []
    ensures ReadDevice(checksum, Image(checksum, id, version, tlvs) + rest, BLANK) == (Accepted, r)
  {
    ApplyFieldTlvs(r, tlvs);
    ReadImage(checksum, tlvs, id, version, rest, BLANK);
  }
}
