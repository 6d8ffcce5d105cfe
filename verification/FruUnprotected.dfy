/** What the checksum of an image does not protect: the bytes that say how long things are, and the type
    of the CRC TLV.
 */
module FruUnprotected {
  import opened Fru
  import opened FruImages
  import opened FruDamage
  import Crc32

  lemma {:induction false} AreAtUnder(s: bytes, t: bytes, pos: nat, tlvs: seq<Tlv>)
    requires AreAt(s, pos, tlvs) && |s| == |t|
    requires forall i :: pos <= i < pos + Size(tlvs) && i < |s| ==> s[i] == t[i]
    ensures AreAt(t, pos, tlvs)
    decreases |tlvs|
  {
    if tlvs != [] {
      var n := 2 + |tlvs[0].value|;
      assert t[pos + 2..pos + n] == s[pos + 2..pos + n];
      AreAtUnder(s, t, pos + n, tlvs[1..]);
    }
  }

  lemma ReadFits(checksum: Checksum, device: bytes, len: nat, tlvs: seq<Tlv>, r: Record)
    requires forall u :: u in tlvs ==> Fits(u)
    requires HEADER_LEN + len < |device| && Size(tlvs) <= len && AreAt(device, HEADER_LEN, tlvs)
    requires device[8] <= SUPPORTED_OCP_FRU_EEPROM_VERSION && BigEndian16(device[9], device[10]) == len
    ensures ReadDevice(checksum, device, r) ==
            Walk(checksum, device[..len + HEADER_LEN + 1], len, Size(tlvs), ApplyAll(r, tlvs))
  {
    AreAtPrefix(device, len + HEADER_LEN + 1, HEADER_LEN, tlvs);
    WalkFits(checksum, device[..len + HEADER_LEN + 1], len, 0, tlvs, r);
  }

  lemma WalkVendorExtension(checksum: Checksum, buf: bytes, len: nat, idx: nat, r: Record)
    requires HEADER_LEN + idx + 2 <= |buf| && idx < len
    requires buf[HEADER_LEN + idx] == VENDOR_EXTENSION && idx + 2 + buf[HEADER_LEN + idx + 1] >= len
    ensures Walk(checksum, buf, len, idx, r) == (Accepted, r)
  {
  }

  /** The types a four-byte TLV at the end can have and be accepted unseen. */
  predicate AcceptsFourBytes(code: byte) {
    IsString(code) || code == NUM_MAC || code == MANUFACTURE_DATE || code == DEVICE_VERSION || code == VENDOR_EXTENSION
  }

  lemma WalkLastFour(checksum: Checksum, buf: bytes, len: nat, r: Record)
    requires 6 <= len && |buf| == HEADER_LEN + len + 1
    requires buf[CrcValueAt(len) - 2] != CRC && buf[CrcValueAt(len) - 1] == 4
    ensures Walk(checksum, buf, len, len - 6, r).0 == Accepted <==> AcceptsFourBytes(buf[CrcValueAt(len) - 2])
  {
    StrNCpyInside(buf, CrcValueAt(len), 4);
    StrNCpyInside(buf, CrcValueAt(len), 5);
    var (v, r') := Store(checksum, buf, len, CrcValueAt(len) - 2, r);
    assert v == Accepted ==> Walk(checksum, buf, len, len - 6, r) == Walk(checksum, buf, len, len, r');
  }

  /** With the type of its CRC TLV changed, and nothing else, a sealed image is accepted if and only if the
      new type is one of these. */
  lemma CrcTypeAcceptedIff(checksum: Checksum, s: bytes, t: bytes, tlvs: seq<Tlv>, r: Record)
    requires Sealed(checksum, s, tlvs)
    requires forall u :: u in tlvs ==> Fits(u)
    requires s[8] <= SUPPORTED_OCP_FRU_EEPROM_VERSION
    requires ByteChanged(s, t, HEADER_LEN + Size(tlvs))
    ensures ReadDevice(checksum, t, r).0 == Accepted <==> AcceptsFourBytes(t[HEADER_LEN + Size(tlvs)])
  {
    var len := Size(tlvs) + 6;
    AreAtUnder(s, t, HEADER_LEN, tlvs);
    ReadFits(checksum, t, len, tlvs, r);
    WalkLastFour(checksum, t[..len + HEADER_LEN + 1], len, ApplyAll(r, tlvs));
  }

  /** As a vendor extension, it even leaves the record as it was, whatever the checksum says from then
      on. */
  lemma CrcTypeUnprotected(checksum: Checksum, s: bytes, t: bytes, tlvs: seq<Tlv>, r: Record)
    requires Sealed(checksum, s, tlvs)
    requires forall u :: u in tlvs ==> Fits(u)
    requires s[8] <= SUPPORTED_OCP_FRU_EEPROM_VERSION
    requires var p := HEADER_LEN + Size(tlvs);
             AgreeOutside(s, t, p, p + 1) && p < |t| && t[p] == VENDOR_EXTENSION
    ensures ReadDevice(checksum, t, r) == (Accepted, ApplyAll(r, tlvs))
  {
    var len := Size(tlvs) + 6;
    AreAtUnder(s, t, HEADER_LEN, tlvs);
    ReadFits(checksum, t, len, tlvs, r);
    WalkVendorExtension(checksum, t[..len + HEADER_LEN + 1], len, Size(tlvs), ApplyAll(r, tlvs));
  }

  /** A CRC TLV of the last four bytes or more is checked against as many bytes less. */
  lemma WalkLongCrc(checksum: Checksum, buf: bytes, len: nat, r: Record)
    requires 6 <= len && |buf| == HEADER_LEN + len + 1
    requires buf[CrcValueAt(len) - 2] == CRC && buf[CrcValueAt(len) - 1] >= 4
    ensures Walk(checksum, buf, len, len - 6, r).0 == Accepted <==>
            var covered := HEADER_LEN + len - buf[CrcValueAt(len) - 1];
            0 <= covered && checksum(buf[..covered]) == Number32At(buf, CrcValueAt(len))
    ensures Walk(checksum, buf, len, len - 6, r).1 == r
  {
    var (v, r') := Store(checksum, buf, len, CrcValueAt(len) - 2, r);
    var idx := len - 4 + buf[CrcValueAt(len) - 1];
    assert v == Accepted ==> Walk(checksum, buf, len, len - 6, r) == Walk(checksum, buf, len, idx, r');
  }

  /** With the CRC TLV's own length made larger, an image is accepted if and only if the stored value is
      also the checksum of the shorter prefix that is covered then. */
  lemma CrcLengthAcceptedIff(checksum: Checksum, s: bytes, t: bytes, tlvs: seq<Tlv>, r: Record)
    requires Sealed(checksum, s, tlvs)
    requires forall u :: u in tlvs ==> Fits(u)
    requires s[8] <= SUPPORTED_OCP_FRU_EEPROM_VERSION
    requires var p := HEADER_LEN + Size(tlvs) + 1; ByteChanged(s, t, p) && t[p] > 4
    ensures var len := Size(tlvs) + 6;
            var covered := HEADER_LEN + len - t[HEADER_LEN + Size(tlvs) + 1];
            (ReadDevice(checksum, t, r).0 == Accepted <==>
               0 <= covered && checksum(s[..covered]) == checksum(s[..CrcValueAt(len)]))
            && ReadDevice(checksum, t, r).1 == ApplyAll(r, tlvs)
  {
    var len := Size(tlvs) + 6;
    var buf := t[..len + HEADER_LEN + 1];
    AreAtUnder(s, t, HEADER_LEN, tlvs);
    ReadFits(checksum, t, len, tlvs, r);
    WalkLongCrc(checksum, buf, len, ApplyAll(r, tlvs));
    var covered := HEADER_LEN + len - t[HEADER_LEN + Size(tlvs) + 1];
    assert 0 <= covered ==> buf[..covered] == s[..covered];
  }

  const LOOP_HEAD: bytes := [0xff, 0xff, 0xff, 0xff, 0, 0, 0, 0, 0, 0, 0x0c, 0xfd, 0x04]
  const LOOP_VALUE: bytes := [0x0f, 0xae, 0x87, 0x15]

  lemma ByteIs(b: byte, hi: bv4, lo: bv4, v: bv8)
    requires b == hi as int * 16 + lo as int && Join(hi, lo) == v
    ensures ByteToBv(b) == v
  {
    assert b / 16 == hi as int && b % 16 == lo as int;
    assert (b / 16) as bv4 == hi && (b % 16) as bv4 == lo;
  }

  lemma LoopHeadBytes()
    ensures ByteToBv(0xff) == 0xff && ByteToBv(0) == 0 && ByteToBv(0x0c) == 0x0c
    ensures ByteToBv(0xfd) == 0xfd && ByteToBv(0x04) == 0x04
  {
    ByteIs(0xff, 0xf, 0xf, 0xff);
    ByteIs(0, 0, 0, 0);
    ByteIs(0x0c, 0, 0xc, 0x0c);
    ByteIs(0xfd, 0xf, 0xd, 0xfd);
    ByteIs(0x04, 0, 0x4, 0x04);
  }

  lemma LoopTailBytes()
    ensures ByteToBv(0x0f) == 0x0f && ByteToBv(0xae) == 0xae && ByteToBv(0x87) == 0x87
    ensures ByteToBv(0x15) == 0x15 && ByteToBv(0xfe) == 0xfe
  {
    ByteIs(0x0f, 0, 0xf, 0x0f);
    ByteIs(0xae, 0xa, 0xe, 0xae);
    ByteIs(0x87, 0x8, 0x7, 0x87);
    ByteIs(0x15, 0x1, 0x5, 0x15);
    ByteIs(0xfe, 0xf, 0xe, 0xfe);
  }

  lemma LoopBytes()
    ensures ToBv(LOOP_HEAD) == Crc32.LOOP_HEAD
    ensures ToBv(LOOP_VALUE + [CRC, 4]) == Crc32.LOOP_TAIL
  {
    LoopHeadBytes();
    LoopTailBytes();
  }

  lemma LoopChecksum()
    ensures CalcCrc(LOOP_HEAD + (LOOP_VALUE + [CRC, 4])) == CalcCrc(LOOP_HEAD)
  {
    LoopBytes();
    var tail := LOOP_VALUE + [CRC, 4];
    assert ToBv(LOOP_HEAD + tail) == ToBv(LOOP_HEAD) + ToBv(tail);
    Crc32.LoopValue();
  }

  const LOOP_ID: bytes := [0xff, 0xff, 0xff, 0xff, 0, 0, 0, 0]
  const LOOP_TLV: Tlv := Tlv(VENDOR_EXTENSION, LOOP_VALUE)

  lemma LoopCovered()
    ensures Size([LOOP_TLV]) == 6
    ensures Covered(LOOP_ID, 0, [LOOP_TLV]) == LOOP_HEAD + (LOOP_VALUE + [CRC, 4])
  {
    assert [LOOP_TLV][1..] == [];
    assert Flatten([LOOP_TLV]) == [VENDOR_EXTENSION, 4] + LOOP_VALUE;
    assert LOOP_HEAD == LOOP_ID + [0, High(12), Low(12)] + [VENDOR_EXTENSION, 4];
  }

  lemma LoopAccepted(checksum: Checksum, s: bytes, t: bytes, r: Record)
    requires Sealed(checksum, s, [LOOP_TLV]) && Size([LOOP_TLV]) == 6 && s[8] == 0
    requires t == s[HEADER_LEN + 7 := 10]
    requires checksum(s[..13]) == checksum(s[..19])
    ensures ReadDevice(checksum, t, r) == (Accepted, r)
  {
    CrcLengthAcceptedIff(checksum, s, t, [LOOP_TLV], r);
    assert [LOOP_TLV][1..] == [];
    assert Apply(r, LOOP_TLV) == r && ApplyAll(r, [LOOP_TLV]) == ApplyAll(r, []) == r;
  }

  lemma LoopUnprotected(checksum: Checksum, r: Record) returns (s: bytes, t: bytes)
    requires checksum(LOOP_HEAD + (LOOP_VALUE + [CRC, 4])) == checksum(LOOP_HEAD)
    ensures Fits(LOOP_TLV) && Sealed(checksum, s, [LOOP_TLV])
    ensures ByteChanged(s, t, HEADER_LEN + Size([LOOP_TLV]) + 1)
    ensures ReadDevice(checksum, t, r) == (Accepted, r)
  {
    LoopCovered();
    var covered, image := Covered(LOOP_ID, 0, [LOOP_TLV]), Image(checksum, LOOP_ID, 0, [LOOP_TLV]);
    s := image + [0];
    assert s[..|image|] == image;
    ImagesAreSealed(checksum, s, LOOP_ID, 0, [LOOP_TLV]);
    t := s[HEADER_LEN + 7 := 10];
    Concatenation(s, covered, Bytes32(checksum(covered)));
    assert s[..13] == covered[..13] == LOOP_HEAD;
    LoopAccepted(checksum, s, t, r);
  }

  /** There is such an image: with the real checksum, sealed around one vendor extension, and still
      accepted when the length byte of its CRC TLV is damaged. */
  lemma CrcLengthUnprotected(r: Record) returns (s: bytes, t: bytes)
    ensures Fits(LOOP_TLV) && Sealed(CalcCrc, s, [LOOP_TLV])
    ensures ByteChanged(s, t, HEADER_LEN + Size([LOOP_TLV]) + 1)
    ensures ReadDevice(CalcCrc, t, r) == (Accepted, r)
  {
    LoopChecksum();
    s, t := LoopUnprotected(CalcCrc, r);
  }

  /** Shortening the total length by the size of the CRC TLV does the same. */
  lemma TotalLengthUnprotected(checksum: Checksum, s: bytes, t: bytes, tlvs: seq<Tlv>, r: Record)
    requires Sealed(checksum, s, tlvs)
    requires forall u :: u in tlvs ==> Fits(u)
    requires s[8] <= SUPPORTED_OCP_FRU_EEPROM_VERSION
    requires AgreeOutside(s, t, 9, 11) && 10 < |t| && BigEndian16(t[9], t[10]) == Size(tlvs)
    ensures ReadDevice(checksum, t, r) == (Accepted, ApplyAll(r, tlvs))
  {
    AreAtUnder(s, t, HEADER_LEN, tlvs);
    ReadFits(checksum, t, Size(tlvs), tlvs, r);
  }

  /** Lengthening a vendor extension that comes last by the size of the CRC TLV swallows it. */
  lemma TlvLengthUnprotected(checksum: Checksum, s: bytes, t: bytes, tlvs: seq<Tlv>,
                             last: Tlv, r: Record)
    requires Sealed(checksum, s, tlvs + [last])
    requires forall u :: u in tlvs ==> Fits(u)
    requires s[8] <= SUPPORTED_OCP_FRU_EEPROM_VERSION
    requires last.code == VENDOR_EXTENSION
    requires var p := HEADER_LEN + Size(tlvs) + 1;
             AgreeOutside(s, t, p, p + 1) && p < |t| && t[p] == |last.value| + 6
    ensures ReadDevice(checksum, t, r) == (Accepted, ApplyAll(r, tlvs))
  {
    AreAtSplit(s, HEADER_LEN, tlvs, last);
    var len := Size(tlvs + [last]) + 6;
    AreAtUnder(s, t, HEADER_LEN, tlvs);
    ReadFits(checksum, t, len, tlvs, r);
    WalkVendorExtension(checksum, t[..len + HEADER_LEN + 1], len, Size(tlvs), ApplyAll(r, tlvs));
  }

  lemma {:induction false} AreAtSplit(buf: bytes, pos: nat, tlvs: seq<Tlv>, last: Tlv)
    requires AreAt(buf, pos, tlvs + [last])
    ensures AreAt(buf, pos, tlvs) && IsAt(buf, pos + Size(tlvs), last)
    ensures Size(tlvs + [last]) == Size(tlvs) + 2 + |last.value|
    decreases |tlvs|
  {
    if tlvs == [] {
      assert tlvs + [last] == [last];
    } else {
      assert (tlvs + [last])[1..] == tlvs[1..] + [last];
      AreAtSplit(buf, pos + 2 + |tlvs[0].value|, tlvs[1..], last);
    }
  }
}
