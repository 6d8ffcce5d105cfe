/** The image layout byte by byte, with the numbers of the format written out: what a device that holds
    one TLV is read as, for every type and every length, and what is refused before any TLV is looked at.
 */
module FruWire {
  import opened Wrappers
  import opened Fru
  import opened FruImages

  /** Eight bytes of identifier, the version, the total length, and one TLV; then whatever follows. */
  function OneTlv(id: bytes, version: byte, hi: byte, lo: byte, code: byte, value: bytes, rest: bytes): bytes
    requires |value| < 256
  {
    id + [version, hi, lo, code, |value|] + value + rest
  }

  /** Such a device, with a supported version and the right length, and at least one byte more. */
  ghost predicate HoldsOne(device: bytes, code: byte, value: bytes) {
    |value| < 256
    && exists id: bytes, version: byte, hi: byte, lo: byte, rest: bytes ::
         && |id| == 8 && version <= 1 && 256 * (hi as int) + lo as int == |value| + 2 && rest != []
         && device == OneTlv(id, version, hi, lo, code, value, rest)
  }

  /** s is text up to its first NUL. */
  ghost predicate IsTextOf(s: bytes, text: bytes) {
    s <= text && 0 !in s && (|s| < |text| ==> text[|s|] == 0)
  }

  lemma {:induction false} CStrMeans(text: bytes, s: bytes)
    ensures s == CStr(text) <==> IsTextOf(s, text)
    decreases |text|
  {
    if text != [] && text[0] != 0 {
      if IsTextOf(s, text) {
        if s == [] {
          assert false;
        } else {
          assert s[0] == text[0] && s == [s[0]] + s[1..];
          CStrMeans(text[1..], s[1..]);
        }
      }
      if s == CStr(text) {
        CStrMeans(text[1..], s[1..]);
      }
    }
  }

  /** What the reader finds where. */
  lemma Layout(device: bytes, code: byte, value: bytes)
    requires HoldsOne(device, code, value)
    ensures |value| + 14 <= |device|
    ensures device[8] <= 1 && 256 * (device[9] as int) + device[10] as int == |value| + 2
    ensures device[11] == code && device[12] == |value| && device[13..13 + |value|] == value
  {
    var id: bytes, version: byte, hi: byte, lo: byte, rest: bytes :|
      && |id| == 8 && version <= 1 && 256 * (hi as int) + lo as int == |value| + 2 && rest != []
      && device == OneTlv(id, version, hi, lo, code, value, rest);
    assert id + [version, hi, lo, code, |value|] + value + rest
        == (id + [version, hi, lo, code, |value|]) + (value + rest);
  }

  /** The one TLV decides. */
  lemma ReadsOne(checksum: Checksum, device: bytes, code: byte, value: bytes, r: Record)
    requires HoldsOne(device, code, value)
    ensures |value| + 14 <= |device|
    ensures ReadDevice(checksum, device, r) == Store(checksum, device[..|value| + 14], |value| + 2, 11, r)
  {
    Layout(device, code, value);
    var buf, len := device[..|value| + 14], |value| + 2;
    assert Walk(checksum, buf, len, 0, r) == Store(checksum, buf, len, 11, r) by {
      var (v, r') := Store(checksum, buf, len, 11, r);
      assert buf[12] == |value|;
      assert Walk(checksum, buf, len, len, r') == (Accepted, r');
    }
  }

  lemma TextAt(buf: bytes, at: nat, value: bytes)
    requires at + |value| < |buf| && buf[at..at + |value|] == value
    ensures StrNCpy(buf, at, |value|) == Some(CStr(value))
    ensures var longer := StrNCpy(buf, at, |value| + 1);
            longer.Some? && Take(longer.value, |value|) == CStr(value)
  {
    var n := |value|;
    StrNCpyInside(buf, at, n);
    StrNCpyInside(buf, at, n + 1);
    assert buf[at..at + (n + 1)] == value + [buf[at + n]];
    CStrOfLonger(value, buf[at + n]);
  }

  lemma TextStored(device: bytes, code: byte, value: bytes)
    requires HoldsOne(device, code, value) && |value| + 14 <= |device|
    ensures var buf := device[..|value| + 14];
            && StrNCpy(buf, 13, |value|) == Some(CStr(value))
            && StrNCpy(buf, 13, |value| + 1).Some?
            && Take(StrNCpy(buf, 13, |value| + 1).value, |value|) == CStr(value)
  {
    Layout(device, code, value);
    var buf := device[..|value| + 14];
    assert buf[13..13 + |value|] == device[13..13 + |value|] == value;
    TextAt(buf, 13, value);
  }

  /** The ten types whose value is a string of any length. */
  lemma ReadsString(checksum: Checksum, device: bytes, code: byte, value: bytes, r: Record)
    requires HoldsOne(device, code, value)
    ensures var text, o := Some(CStr(value)), ReadDevice(checksum, device, r);
            && (code == 0x21 ==> o == (Accepted, r.(productName := text)))
            && (code == 0x22 ==> o == (Accepted, r.(partNumber := text)))
            && (code == 0x23 ==> o == (Accepted, r.(serialNumber := text)))
            && (code == 0x27 ==> o == (Accepted, r.(labelRevision := text)))
            && (code == 0x28 ==> o == (Accepted, r.(platformName := text)))
            && (code == 0x29 ==> o == (Accepted, r.(onieVersion := text)))
            && (code == 0x2b ==> o == (Accepted, r.(manufacturer := text)))
            && (code == 0x2d ==> o == (Accepted, r.(vendor := text)))
            && (code == 0x2e ==> o == (Accepted, r.(diagVersion := text)))
            && (code == 0x2f ==> o == (Accepted, r.(serviceTag := text)))
  {
    ReadsOne(checksum, device, code, value, r);
    Layout(device, code, value);
    TextStored(device, code, value);
  }

  /** The types with a field of fixed size.  The reader does not look at the TLV's own length: it takes as
      many bytes as the field has, if the buffer still has them; text that is longer than its field
      overruns it. */
  lemma ReadsFixed(checksum: Checksum, device: bytes, code: byte, value: bytes, r: Record)
    requires HoldsOne(device, code, value)
    ensures |value| + 14 <= |device|
    ensures var n, o := |value|, ReadDevice(checksum, device, r);
            && (code == 0x24 ==> o == if n < 5 then (OutOfBounds, r)
                                      else (Accepted, r.(baseMacAddress := device[13..19])))
            && (code == 0x25 ==> o == if n > 19 then (OutOfBounds, r)
                                      else (Accepted, r.(manufactureDate := CStr(value))))
            && (code == 0x26 ==> o == (Accepted, r.(deviceVersion := device[13])))
            && (code == 0x2a ==> o == if n < 1 then (OutOfBounds, r)
                                      else (Accepted, r.(numMacs := 256 * (device[13] as int) + device[14] as int)))
            && (code == 0x2c ==> o == if n > 2 then (OutOfBounds, r)
                                      else (Accepted, r.(countryCode := CStr(value))))
  {
    ReadsOne(checksum, device, code, value, r);
    Layout(device, code, value);
    TextStored(device, code, value);
    var buf := device[..|value| + 14];
    if |value| >= 5 {
      assert buf[13..19] == device[13..19];
    }
  }

  /** A vendor extension changes nothing, a CRC is compared with the checksum of the first thirteen bytes,
      and every other type is refused. */
  lemma ReadsRest(checksum: Checksum, device: bytes, code: byte, value: bytes, r: Record)
    requires HoldsOne(device, code, value)
    ensures |value| + 14 <= |device|
    ensures var n, o := |value|, ReadDevice(checksum, device, r);
            && (code == 0xfd ==> o == (Accepted, r))
            && (code == 0xfe ==>
                  var covered := checksum(device[..13]) as int;
                  o == if n < 3 then (OutOfBounds, r)
                       else (if covered == 0x100_0000 * (device[13] as int) + 0x1_0000 * (device[14] as int)
                                           + 0x100 * (device[15] as int) + device[16] as int
                             then Accepted else Refused, r))
            && (!(0x21 <= code <= 0x2f) && code != 0xfd && code != 0xfe ==> o == (Refused, r))
  {
    ReadsOne(checksum, device, code, value, r);
    Layout(device, code, value);
    assert device[..|value| + 14][..13] == device[..13];
  }

  /** Before any TLV: a device without a whole header, with a newer version, or shorter than its header
      announces and one byte more, is refused; one without TLVs is accepted as it is. */
  lemma ReadsHeader(checksum: Checksum, device: bytes, r: Record)
    ensures |device| < 11 ==> ReadDevice(checksum, device, r) == (Refused, r)
    ensures |device| >= 11 && device[8] > 1 ==> ReadDevice(checksum, device, r) == (Refused, r)
    ensures |device| >= 11 && |device| < 256 * (device[9] as int) + device[10] as int + 12 ==>
              ReadDevice(checksum, device, r) == (Refused, r)
    ensures |device| >= 12 && device[8] <= 1 && device[9] == device[10] == 0 ==>
              ReadDevice(checksum, device, r) == (Accepted, r)
  {
  }

  /** The types and lengths that the encoder uses. */
  lemma FitsMeans(t: Tlv)
    ensures var c, n := t.code, |t.value|;
            Fits(t) <==>
            || c in {0x21, 0x22, 0x23, 0x27, 0x28, 0x29, 0x2b, 0x2d, 0x2e, 0x2f, 0xfd}
            || (c == 0x24 && n == 6) || (c == 0x25 && n <= 19) || (c == 0x26 && n == 1)
            || (c == 0x2a && n == 2) || (c == 0x2c && n <= 2)
  {
  }
}
