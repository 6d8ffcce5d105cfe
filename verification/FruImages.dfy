/** Images as an encoder writes them, and what the reader makes of them: every record survives the
    trip, whatever the order of its TLVs, and a damaged image is noticed.
 */
module FruImages {
  import opened Wrappers
  import opened Fru

  datatype RawTlv = Tlv(code: byte, value: bytes)

  /** The length of a value has to fit its length byte. */
  type Tlv = t: RawTlv | |t.value| < 256 witness RawTlv.Tlv(0, [])

  // ----- the encoder

  function Size(tlvs: seq<Tlv>): nat {
    if tlvs == [] then 0 else 2 + |tlvs[0].value| + Size(tlvs[1..])
  }

  function Flatten(tlvs: seq<Tlv>): (r: bytes)
    ensures |r| == Size(tlvs)
  {
    if tlvs == [] then []
    else [tlvs[0].code, |tlvs[0].value|] + tlvs[0].value + Flatten(tlvs[1..])
  }

  function High(w: uint16): byte { w / 0x100 }
  function Low(w: uint16): byte { w % 0x100 }

  function Bytes32(c: uint32): bytes {
    var hi, lo := c / 0x1_0000, c % 0x1_0000;
    [High(hi), Low(hi), High(lo), Low(lo)]
  }

  /** Everything the checksum covers: the header, the TLVs, and the CRC TLV's own code and length. */
  function Covered(id: bytes, version: byte, tlvs: seq<Tlv>): bytes
    requires Size(tlvs) + 6 < 0x1_0000
  {
    var len := Size(tlvs) + 6;
    id + [version, High(len), Low(len)] + Flatten(tlvs) + [CRC, 4]
  }

  function Image(checksum: Checksum, id: bytes, version: byte, tlvs: seq<Tlv>): bytes
    requires Size(tlvs) + 6 < 0x1_0000
  {
    var covered := Covered(id, version, tlvs);
    covered + Bytes32(checksum(covered))
  }

  // ----- what a TLV with a fitting length does to a record

  function CStr(s: bytes): bytes {
    if s == [] || s[0] == 0 then [] else [s[0]] + CStr(s[1..])
  }

  /** A TLV whose length fits its field. */
  predicate Fits(t: Tlv) {
    (|| IsString(t.code)
        || (t.code == NUM_MAC && |t.value| == 2)
        || (t.code == BASE_MAC_ADDRESS && |t.value| == BASE_MAC_ADDRESS_LEN)
        || (t.code == MANUFACTURE_DATE && |t.value| <= MANUFACTURE_DATE_LEN)
        || (t.code == DEVICE_VERSION && |t.value| == 1)
        || (t.code == COUNTRY_CODE && |t.value| <= COUNTRY_CODE_LEN)
        || t.code == VENDOR_EXTENSION)
  }

  function Apply(r: Record, t: Tlv): Record
    requires Fits(t)
  {
    if IsString(t.code) then SetString(r, t.code, CStr(t.value))
    else if t.code == NUM_MAC then r.(numMacs := BigEndian16(t.value[0], t.value[1]))
    else if t.code == BASE_MAC_ADDRESS then r.(baseMacAddress := t.value)
    else if t.code == MANUFACTURE_DATE then r.(manufactureDate := CStr(t.value))
    else if t.code == DEVICE_VERSION then r.(deviceVersion := t.value[0])
    else if t.code == COUNTRY_CODE then r.(countryCode := CStr(t.value))
    else r
  }

  function ApplyAll(r: Record, tlvs: seq<Tlv>): Record
    requires forall t :: t in tlvs ==> Fits(t)
    decreases |tlvs|
  {
    if tlvs == [] then r else ApplyAll(Apply(r, tlvs[0]), tlvs[1..])
  }

  lemma {:induction false} StrNCpyInside(buf: bytes, at: nat, n: nat)
    requires at + n <= |buf|
    ensures StrNCpy(buf, at, n) == Some(CStr(buf[at..at + n]))
    decreases n
  {
    if n != 0 && buf[at] != 0 {
      StrNCpyInside(buf, at + 1, n - 1);
      assert buf[at..at + n][1..] == buf[at + 1..at + 1 + (n - 1)];
    }
  }

  /** Copying one byte more than the value holds and cutting the result off again is harmless. */
  lemma {:induction false} CStrOfLonger(s: bytes, b: byte)
    ensures Take(CStr(s + [b]), |s|) == CStr(s)
    ensures |CStr(s)| <= |s|
    decreases |s|
  {
    if s != [] && s[0] != 0 {
      assert (s + [b])[1..] == s[1..] + [b];
      CStrOfLonger(s[1..], b);
    }
  }

  /** The TLV lies in the buffer at pos. */
  predicate IsAt(buf: bytes, pos: nat, t: Tlv) {
    && pos + 2 + |t.value| <= |buf|
    && buf[pos] == t.code
    && buf[pos + 1] == |t.value|
    && buf[pos + 2..pos + 2 + |t.value|] == t.value
  }

  /** The TLVs lie in the buffer one after the other, the first at pos. */
  predicate AreAt(buf: bytes, pos: nat, tlvs: seq<Tlv>)
    decreases |tlvs|
  {
    tlvs == [] || (IsAt(buf, pos, tlvs[0]) && AreAt(buf, pos + 2 + |tlvs[0].value|, tlvs[1..]))
  }

  lemma {:induction false} FlattenIsAt(buf: bytes, pos: nat, tlvs: seq<Tlv>)
    requires pos + Size(tlvs) <= |buf|
    requires forall i :: 0 <= i < Size(tlvs) ==> buf[pos + i] == Flatten(tlvs)[i]
    ensures AreAt(buf, pos, tlvs)
    decreases |tlvs|
  {
    if tlvs != [] {
      var t, n := tlvs[0], 2 + |tlvs[0].value|;
      var flat, tail := Flatten(tlvs), Flatten(tlvs[1..]);
      assert buf[pos + 0] == flat[0] && buf[pos + 1] == flat[1];
      forall k | 0 <= k < |t.value|
        ensures buf[pos + 2 + k] == t.value[k]
      {
        assert buf[pos + (2 + k)] == flat[2 + k];
      }
      forall k | 0 <= k < Size(tlvs[1..])
        ensures buf[pos + n + k] == tail[k]
      {
        assert buf[pos + (n + k)] == flat[n + k];
      }
      FlattenIsAt(buf, pos + n, tlvs[1..]);
    }
  }

  lemma StoreFixed(checksum: Checksum, buf: bytes, len: nat, pos: nat, t: Tlv, r: Record)
    requires t.code in {NUM_MAC, BASE_MAC_ADDRESS, DEVICE_VERSION, VENDOR_EXTENSION}
    requires Fits(t) && IsAt(buf, pos, t)
    ensures Store(checksum, buf, len, pos, r) == (Accepted, Apply(r, t))
  {
    var value := buf[pos + 2..pos + 2 + |t.value|];
    if t.code == NUM_MAC {
      assert buf[pos + 2] == value[0] && buf[pos + 3] == value[1];
    } else if t.code == DEVICE_VERSION {
      assert buf[pos + 2] == value[0];
    }
  }

  lemma StoreStrings(checksum: Checksum, buf: bytes, len: nat, pos: nat, t: Tlv, r: Record)
    requires IsString(t.code) || t.code == MANUFACTURE_DATE || t.code == COUNTRY_CODE
    requires Fits(t) && IsAt(buf, pos, t) && pos + 2 + |t.value| < |buf|
    ensures Store(checksum, buf, len, pos, r) == (Accepted, Apply(r, t))
  {
    var at, n := pos + 2, |t.value|;
    StrNCpyInside(buf, at, n);
    StrNCpyInside(buf, at, n + 1);
    assert buf[at..at + (n + 1)] == t.value + [buf[at + n]];
    CStrOfLonger(t.value, buf[at + n]);
  }

  lemma StoreFits(checksum: Checksum, buf: bytes, len: nat, pos: nat, t: Tlv, r: Record)
    requires Fits(t) && IsAt(buf, pos, t) && pos + 2 + |t.value| < |buf|
    ensures Store(checksum, buf, len, pos, r) == (Accepted, Apply(r, t))
  {
    if IsString(t.code) || t.code == MANUFACTURE_DATE || t.code == COUNTRY_CODE {
      StoreStrings(checksum, buf, len, pos, t, r);
    } else {
      StoreFixed(checksum, buf, len, pos, t, r);
    }
  }

  lemma {:induction false} WalkFits(checksum: Checksum, buf: bytes, len: nat, idx: nat, tlvs: seq<Tlv>, r: Record)
    requires forall t :: t in tlvs ==> Fits(t)
    requires HEADER_LEN + len < |buf| && idx + Size(tlvs) <= len
    requires AreAt(buf, HEADER_LEN + idx, tlvs)
    ensures Walk(checksum, buf, len, idx, r) == Walk(checksum, buf, len, idx + Size(tlvs), ApplyAll(r, tlvs))
    decreases |tlvs|
  {
    if tlvs != [] {
      var t := tlvs[0];
      StoreFits(checksum, buf, len, HEADER_LEN + idx, t, r);
      WalkFits(checksum, buf, len, idx + 2 + |t.value|, tlvs[1..], Apply(r, t));
    }
  }

  // ----- the encoder's image, as the reader sees it

  lemma BigEndian16RoundTrip(w: uint16)
    ensures BigEndian16(High(w), Low(w)) == w
  {
  }

  lemma BigEndian32RoundTrip(c: uint32)
    ensures var b := Bytes32(c); BigEndian32(b[0], b[1], b[2], b[3]) == c
  {
    BigEndian16RoundTrip(c / 0x1_0000);
    BigEndian16RoundTrip(c % 0x1_0000);
  }

  /** The number stored in the buffer at this place. */
  function Number32At(buf: bytes, at: nat): uint32
    requires at + 4 <= |buf|
  {
    BigEndian32(buf[at], buf[at + 1], buf[at + 2], buf[at + 3])
  }

  /** A buffer that starts with the encoder's image and holds at least one byte more. */
  ghost predicate HoldsImage(checksum: Checksum, buf: bytes, id: bytes, version: byte, tlvs: seq<Tlv>) {
    && |id| == 8
    && Size(tlvs) + 6 < 0x1_0000
    && var image := Image(checksum, id, version, tlvs);
       |image| < |buf| && buf[..|image|] == image
  }

  /** Where the value of the CRC TLV starts in an image of len bytes of TLVs. */
  function CrcValueAt(len: nat): int {
    HEADER_LEN + len - 4
  }

  /** The header fits the length, and the image ends in a four-byte CRC TLV. */
  predicate Framed(buf: bytes, len: nat) {
    && 6 <= len
    && HEADER_LEN + len < |buf|
    && BigEndian16(buf[9], buf[10]) == len
    && buf[CrcValueAt(len) - 2] == CRC
    && buf[CrcValueAt(len) - 1] == 4
  }

  ghost predicate CrcVerifies(checksum: Checksum, buf: bytes, len: nat)
    requires 6 <= len && HEADER_LEN + len < |buf|
  {
    checksum(buf[..CrcValueAt(len)]) == Number32At(buf, CrcValueAt(len))
  }

  lemma CoveredLayout(id: bytes, version: byte, tlvs: seq<Tlv>)
    requires |id| == 8 && Size(tlvs) + 6 < 0x1_0000
    ensures var c := Covered(id, version, tlvs);
            && |c| == HEADER_LEN + Size(tlvs) + 2
            && c[8] == version
            && BigEndian16(c[9], c[10]) == Size(tlvs) + 6
            && (forall i :: 0 <= i < Size(tlvs) ==> c[HEADER_LEN + i] == Flatten(tlvs)[i])
            && c[HEADER_LEN + Size(tlvs)] == CRC && c[HEADER_LEN + Size(tlvs) + 1] == 4
  {
    BigEndian16RoundTrip(Size(tlvs) + 6);
  }

  lemma Concatenation(buf: bytes, a: bytes, b: bytes)
    requires |a| + |b| <= |buf| && buf[..|a| + |b|] == a + b
    ensures buf[..|a|] == a
    ensures forall i :: 0 <= i < |a| ==> buf[i] == a[i]
    ensures forall i :: 0 <= i < |b| ==> buf[|a| + i] == b[i]
  {
    assert forall i :: 0 <= i < |a| + |b| ==> buf[i] == buf[..|a| + |b|][i];
    assert buf[..|a|] == a;
    forall i | 0 <= i < |b|
      ensures buf[|a| + i] == b[i]
    {
      assert buf[|a| + i] == (a + b)[|a| + i];
    }
  }

  lemma HeldCrc(checksum: Checksum, buf: bytes, covered: bytes)
    requires |covered| + 4 <= |buf| && buf[..|covered| + 4] == covered + Bytes32(checksum(covered))
    ensures checksum(buf[..|covered|]) == Number32At(buf, |covered|)
  {
    var value := Bytes32(checksum(covered));
    Concatenation(buf, covered, value);
    BigEndian32RoundTrip(checksum(covered));
    assert buf[|covered| + 0] == value[0] && buf[|covered| + 1] == value[1];
    assert buf[|covered| + 2] == value[2] && buf[|covered| + 3] == value[3];
  }

  lemma LayoutOf(checksum: Checksum, buf: bytes, covered: bytes, tlvs: seq<Tlv>)
    requires |covered| == HEADER_LEN + Size(tlvs) + 2
    requires BigEndian16(covered[9], covered[10]) == Size(tlvs) + 6
    requires forall i :: 0 <= i < Size(tlvs) ==> covered[HEADER_LEN + i] == Flatten(tlvs)[i]
    requires covered[HEADER_LEN + Size(tlvs)] == CRC && covered[HEADER_LEN + Size(tlvs) + 1] == 4
    requires |covered| + 4 < |buf| && buf[..|covered| + 4] == covered + Bytes32(checksum(covered))
    ensures Framed(buf, Size(tlvs) + 6)
    ensures buf[8] == covered[8]
    ensures AreAt(buf, HEADER_LEN, tlvs)
    ensures CrcVerifies(checksum, buf, Size(tlvs) + 6)
  {
    Concatenation(buf, covered, Bytes32(checksum(covered)));
    HeldCrc(checksum, buf, covered);
    assert AreAt(buf, HEADER_LEN, tlvs) by {
      forall i | 0 <= i < Size(tlvs)
        ensures buf[HEADER_LEN + i] == Flatten(tlvs)[i]
      {
        assert buf[HEADER_LEN + i] == covered[HEADER_LEN + i];
      }
      FlattenIsAt(buf, HEADER_LEN, tlvs);
    }
  }

  /** What the reader finds where in the encoder's image. */
  lemma ImageLayout(checksum: Checksum, buf: bytes, id: bytes, version: byte, tlvs: seq<Tlv>)
    requires HoldsImage(checksum, buf, id, version, tlvs)
    ensures |Image(checksum, id, version, tlvs)| == HEADER_LEN + Size(tlvs) + 6
    ensures Framed(buf, Size(tlvs) + 6)
    ensures buf[8] == version
    ensures AreAt(buf, HEADER_LEN, tlvs)
    ensures CrcVerifies(checksum, buf, Size(tlvs) + 6)
  {
    CoveredLayout(id, version, tlvs);
    LayoutOf(checksum, buf, Covered(id, version, tlvs), tlvs);
  }

  /** A CRC TLV of four bytes at the very end is accepted exactly when it holds the checksum of
      everything before its value. */
  lemma StoreFinalCrc(checksum: Checksum, buf: bytes, len: nat, r: Record)
    requires 6 <= len && HEADER_LEN + len < |buf|
    requires buf[CrcValueAt(len) - 2] == CRC && buf[CrcValueAt(len) - 1] == 4
    ensures Walk(checksum, buf, len, len - 6, r) == (if CrcVerifies(checksum, buf, len) then Accepted else Refused, r)
  {
  }

  /** A framed image of fitting TLVs is accepted exactly when its CRC verifies. */
  lemma WalkFramed(checksum: Checksum, buf: bytes, tlvs: seq<Tlv>, r: Record)
    requires forall t :: t in tlvs ==> Fits(t)
    requires Framed(buf, Size(tlvs) + 6) && AreAt(buf, HEADER_LEN, tlvs)
    ensures Walk(checksum, buf, Size(tlvs) + 6, 0, r) ==
            (if CrcVerifies(checksum, buf, Size(tlvs) + 6) then Accepted else Refused, ApplyAll(r, tlvs))
  {
    WalkFits(checksum, buf, Size(tlvs) + 6, 0, tlvs, r);
    StoreFinalCrc(checksum, buf, Size(tlvs) + 6, ApplyAll(r, tlvs));
  }

  lemma {:induction false} AreAtPrefix(buf: bytes, n: nat, pos: nat, tlvs: seq<Tlv>)
    requires AreAt(buf, pos, tlvs) && pos + Size(tlvs) <= n <= |buf|
    ensures AreAt(buf[..n], pos, tlvs)
    decreases |tlvs|
  {
    if tlvs != [] {
      var t := tlvs[0];
      assert buf[..n][pos + 2..pos + 2 + |t.value|] == buf[pos + 2..pos + 2 + |t.value|];
      AreAtPrefix(buf, n, pos + 2 + |t.value|, tlvs[1..]);
    }
  }

  /** The same for a device: what it holds after the image and one more byte does not matter. */
  lemma ReadFramed(checksum: Checksum, device: bytes, tlvs: seq<Tlv>, r: Record)
    requires forall t :: t in tlvs ==> Fits(t)
    requires Framed(device, Size(tlvs) + 6) && AreAt(device, HEADER_LEN, tlvs)
    ensures ReadDevice(checksum, device, r) ==
            if device[8] > SUPPORTED_OCP_FRU_EEPROM_VERSION then (Refused, r)
            else (if CrcVerifies(checksum, device, Size(tlvs) + 6) then Accepted else Refused, ApplyAll(r, tlvs))
  {
    var len := Size(tlvs) + 6;
    var buf := device[..len + HEADER_LEN + 1];
    AreAtPrefix(device, |buf|, HEADER_LEN, tlvs);
    WalkFramed(checksum, buf, tlvs, r);
    assert buf[..CrcValueAt(len)] == device[..CrcValueAt(len)];
  }
}
