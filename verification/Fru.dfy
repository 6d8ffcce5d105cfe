/** The FRU EEPROM reader: a TLV image in the ONIE / OCP TlvInfo layout, decoded in place into a
    record.  Reads that leave the buffer and writes that leave a fixed-size field, which C leaves
    undefined, are a verdict of their own, so the decoder is defined on every image.
 */
module Fru {
  import opened Wrappers

  type byte = b: int | 0 <= b < 256
  type uint16 = w: int | 0 <= w < 0x1_0000
  type uint32 = w: int | 0 <= w < 0x1_0000_0000
  type bytes = seq<byte>

  const SUPPORTED_OCP_FRU_EEPROM_VERSION: byte := 0x01
  const HEADER_LEN := 11

  const PRODUCT_NAME: byte := 0x21
  const PART_NUMBER: byte := 0x22
  const SERIAL_NUMBER: byte := 0x23
  const BASE_MAC_ADDRESS: byte := 0x24
  const MANUFACTURE_DATE: byte := 0x25
  const DEVICE_VERSION: byte := 0x26
  const LABEL_REVISION: byte := 0x27
  const PLATFORM_NAME: byte := 0x28
  const ONIE_VERSION: byte := 0x29
  const NUM_MAC: byte := 0x2a
  const MANUFACTURER: byte := 0x2b
  const COUNTRY_CODE: byte := 0x2c
  const VENDOR: byte := 0x2d
  const DIAG_VERSION: byte := 0x2e
  const SERVICE_TAG: byte := 0x2f
  const VENDOR_EXTENSION: byte := 0xfd
  const CRC: byte := 0xfe

  const COUNTRY_CODE_LEN := 2
  const BASE_MAC_ADDRESS_LEN := 6
  const MANUFACTURE_DATE_LEN := 19

  /** The contents of a fru_eeprom_t; a string that was never allocated is None. */
  datatype Record = Record(
    countryCode: bytes,
    deviceVersion: byte,
    diagVersion: Option<bytes>,
    labelRevision: Option<bytes>,
    baseMacAddress: bytes,
    manufactureDate: bytes,
    manufacturer: Option<bytes>,
    numMacs: uint16,
    onieVersion: Option<bytes>,
    partNumber: Option<bytes>,
    platformName: Option<bytes>,
    productName: Option<bytes>,
    serialNumber: Option<bytes>,
    serviceTag: Option<bytes>,
    vendor: Option<bytes>)

  /** The zeroed record sysd allocates. */
  const BLANK := Record([], 0, None, None, [0, 0, 0, 0, 0, 0], [], None, 0,
                        None, None, None, None, None, None, None)

  datatype Verdict = Accepted | Refused | OutOfBounds

  type Checksum = bytes -> uint32

  function BigEndian16(hi: byte, lo: byte): uint16 {
    hi * 0x100 + lo
  }

  function BigEndian32(b0: byte, b1: byte, b2: byte, b3: byte): uint32 {
    b0 * 0x100_0000 + b1 * 0x1_0000 + b2 * 0x100 + b3
  }

  // ----- what one TLV does

  /** The string strncpy copies when given n bytes of room, or None when it reads past the end of
      the buffer before it has met a NUL or filled the room. */
  function StrNCpy(buf: bytes, at: nat, n: nat): Option<bytes>
    decreases n
  {
    if n == 0 then Some([])
    else if at >= |buf| then None
    else if buf[at] == 0 then Some([])
    else match StrNCpy(buf, at + 1, n - 1)
      case None => None
      case Some(rest) => Some([buf[at]] + rest)
  }

  function Take(s: bytes, n: nat): bytes {
    if |s| <= n then s else s[..n]
  }

  predicate IsString(code: byte) {
    || code == PRODUCT_NAME || code == PART_NUMBER || code == SERIAL_NUMBER
    || code == LABEL_REVISION || code == PLATFORM_NAME || code == ONIE_VERSION
    || code == MANUFACTURER || code == VENDOR || code == DIAG_VERSION || code == SERVICE_TAG
  }

  function SetString(r: Record, code: byte, s: bytes): Record {
    if code == PRODUCT_NAME then r.(productName := Some(s))
    else if code == PART_NUMBER then r.(partNumber := Some(s))
    else if code == SERIAL_NUMBER then r.(serialNumber := Some(s))
    else if code == LABEL_REVISION then r.(labelRevision := Some(s))
    else if code == PLATFORM_NAME then r.(platformName := Some(s))
    else if code == ONIE_VERSION then r.(onieVersion := Some(s))
    else if code == MANUFACTURER then r.(manufacturer := Some(s))
    else if code == VENDOR then r.(vendor := Some(s))
    else if code == DIAG_VERSION then r.(diagVersion := Some(s))
    else if code == SERVICE_TAG then r.(serviceTag := Some(s))
    else r
  }

  /** The effect of the TLV at pos in a buffer whose header announced len bytes of TLVs.
      The lengths of fixed-size fields are not checked against the TLV's own length. */
  function Store(checksum: Checksum, buf: bytes, len: nat, pos: nat, r: Record): (Verdict, Record) {
    if pos + 2 > |buf| then (OutOfBounds, r) else
    var code, n, at := buf[pos], buf[pos + 1], pos + 2;
    if IsString(code) then
      match StrNCpy(buf, at, n)
      case None => (OutOfBounds, r)
      case Some(s) => (Accepted, SetString(r, code, s))
    else if code == NUM_MAC then
      if at + 2 > |buf| then (OutOfBounds, r)
      else (Accepted, r.(numMacs := BigEndian16(buf[at], buf[at + 1])))
    else if code == BASE_MAC_ADDRESS then
      if at + BASE_MAC_ADDRESS_LEN > |buf| then (OutOfBounds, r)
      else (Accepted, r.(baseMacAddress := buf[at..at + BASE_MAC_ADDRESS_LEN]))
    else if code == MANUFACTURE_DATE then
      var s := StrNCpy(buf, at, n + 1);
      if n > MANUFACTURE_DATE_LEN || s.None? then (OutOfBounds, r)
      else (Accepted, r.(manufactureDate := Take(s.value, n)))
    else if code == DEVICE_VERSION then
      if at + 1 > |buf| then (OutOfBounds, r)
      else (Accepted, r.(deviceVersion := buf[at]))
    else if code == COUNTRY_CODE then
      var s := StrNCpy(buf, at, n + 1);
      if n > COUNTRY_CODE_LEN || s.None? then (OutOfBounds, r)
      else (Accepted, r.(countryCode := Take(s.value, n)))
    else if code == VENDOR_EXTENSION then
      (Accepted, r)
    else if code == CRC then
      var covered := len + HEADER_LEN - n;
      if covered < 0 || covered > |buf| || at + 4 > |buf| then (OutOfBounds, r)
      else if checksum(buf[..covered]) != BigEndian32(buf[at], buf[at + 1], buf[at + 2], buf[at + 3]) then (Refused, r)
      else (Accepted, r)
    else
      (Refused, r)
  }

  /** The TLV loop from offset idx on. */
  function Walk(checksum: Checksum, buf: bytes, len: nat, idx: nat, r: Record): (Verdict, Record)
    decreases len - idx
  {
    if idx >= len then (Accepted, r) else
    var (v, r') := Store(checksum, buf, len, HEADER_LEN + idx, r);
    if v != Accepted then (v, r')
    else Walk(checksum, buf, len, idx + buf[HEADER_LEN + idx + 1] + 2, r')
  }

  /** Reading a device: the header gives the total length, then the whole image and one byte more
      are read.  The device refuses to read past its end. */
  function ReadDevice(checksum: Checksum, device: bytes, r: Record): (Verdict, Record) {
    if |device| < HEADER_LEN || device[8] > SUPPORTED_OCP_FRU_EEPROM_VERSION then (Refused, r) else
    var len := BigEndian16(device[9], device[10]);
    if |device| < len + HEADER_LEN + 1 then (Refused, r)
    else Walk(checksum, device[..len + HEADER_LEN + 1], len, 0, r)
  }

  // ----- the decoder, in place

  class FruEeprom {
    var countryCode: bytes
    var deviceVersion: byte
    var diagVersion: Option<bytes>
    var labelRevision: Option<bytes>
    var baseMacAddress: bytes
    var manufactureDate: bytes
    var manufacturer: Option<bytes>
    var numMacs: uint16
    var onieVersion: Option<bytes>
    var partNumber: Option<bytes>
    var platformName: Option<bytes>
    var productName: Option<bytes>
    var serialNumber: Option<bytes>
    var serviceTag: Option<bytes>
    var vendor: Option<bytes>

    function Contents(): Record
      reads this
    {
      Record(countryCode, deviceVersion, diagVersion, labelRevision, baseMacAddress, manufactureDate,
             manufacturer, numMacs, onieVersion, partNumber, platformName, productName, serialNumber,
             serviceTag, vendor)
    }

    constructor ()
      ensures Contents() == BLANK
      ensures numMacs == 0 && deviceVersion == 0 && countryCode == manufactureDate == []
      ensures |baseMacAddress| == 6 && forall i :: 0 <= i < 6 ==> baseMacAddress[i] == 0
      ensures diagVersion == labelRevision == manufacturer == onieVersion == partNumber == None
      ensures platformName == productName == serialNumber == serviceTag == vendor == None
    {
      countryCode, deviceVersion, diagVersion, labelRevision := [], 0, None, None;
      baseMacAddress, manufactureDate, manufacturer, numMacs := [0, 0, 0, 0, 0, 0], [], None, 0;
      onieVersion, partNumber, platformName, productName := None, None, None, None;
      serialNumber, serviceTag, vendor := None, None, None;
    }

    /** sysd_read_fru_eeprom, reading from the device.  The C function returns 0 when the verdict is
        Accepted and -1 when it is Refused. */
    method ReadFruEeprom(checksum: Checksum, device: bytes) returns (v: Verdict)
      modifies this
      ensures (v, Contents()) == ReadDevice(checksum, device, old(Contents()))
    {
      if |device| < HEADER_LEN {
        return Refused;
      }
      if device[8] > SUPPORTED_OCP_FRU_EEPROM_VERSION {
        return Refused;
      }
      var len := BigEndian16(device[9], device[10]);
      if |device| < len + HEADER_LEN + 1 {
        return Refused;
      }
      var buf := new byte[len + HEADER_LEN + 1](i requires 0 <= i < len + HEADER_LEN + 1 => device[i]);
      assert buf[..] == device[..len + HEADER_LEN + 1];
      v := ProcessEeprom(checksum, buf, len);
    }

    /** sysd_process_eeprom: decode len bytes of TLVs after the header into this record. */
    method ProcessEeprom(checksum: Checksum, buf: array<byte>, len: nat) returns (v: Verdict)
      modifies this
      ensures (v, Contents()) == Walk(checksum, buf[..], len, 0, old(Contents()))
    {
      var idx := 0;
      while idx < len
        invariant Walk(checksum, buf[..], len, idx, Contents()) == Walk(checksum, buf[..], len, 0, old(Contents()))
        decreases len - idx
      {
        v := StoreTlv(checksum, buf, len, HEADER_LEN + idx);
        if v != Accepted {
          return;
        }
        idx := idx + buf[HEADER_LEN + idx + 1] + 2;
      }
      v := Accepted;
    }

    /** The string cases of the switch on the TLV type. */
    method StoreString(code: byte, s: bytes)
      modifies this
      ensures Contents() == SetString(old(Contents()), code, s)
    {
      match code {
        case 0x21 => productName := Some(s);
        case 0x22 => partNumber := Some(s);
        case 0x23 => serialNumber := Some(s);
        case 0x27 => labelRevision := Some(s);
        case 0x28 => platformName := Some(s);
        case 0x29 => onieVersion := Some(s);
        case 0x2b => manufacturer := Some(s);
        case 0x2d => vendor := Some(s);
        case 0x2e => diagVersion := Some(s);
        case 0x2f => serviceTag := Some(s);
        case _ =>
      }
    }

    /** The switch on the TLV type. */
    method StoreTlv(checksum: Checksum, buf: array<byte>, len: nat, pos: nat) returns (v: Verdict)
      modifies this
      ensures (v, Contents()) == Store(checksum, buf[..], len, pos, old(Contents()))
      ensures v == Accepted ==> pos + 2 <= buf.Length
    {
      if pos + 2 > buf.Length {
        return OutOfBounds;
      }
      var code, n, at := buf[pos], buf[pos + 1], pos + 2;
      v := Accepted;
      if IsString(code) {
        var s := StrNCpy(buf[..], at, n);
        if s.None? {
          return OutOfBounds;
        }
        StoreString(code, s.value);
      } else if code == NUM_MAC {
        if at + 2 > buf.Length {
          return OutOfBounds;
        }
        numMacs := BigEndian16(buf[at], buf[at + 1]);
      } else if code == BASE_MAC_ADDRESS {
        if at + BASE_MAC_ADDRESS_LEN > buf.Length {
          return OutOfBounds;
        }
        baseMacAddress := buf[at..at + BASE_MAC_ADDRESS_LEN];
      } else if code == MANUFACTURE_DATE {
        var s := StrNCpy(buf[..], at, n + 1);
        if n > MANUFACTURE_DATE_LEN || s.None? {
          return OutOfBounds;
        }
        manufactureDate := Take(s.value, n);
      } else if code == DEVICE_VERSION {
        if at + 1 > buf.Length {
          return OutOfBounds;
        }
        deviceVersion := buf[at];
      } else if code == COUNTRY_CODE {
        var s := StrNCpy(buf[..], at, n + 1);
        if n > COUNTRY_CODE_LEN || s.None? {
          return OutOfBounds;
        }
        countryCode := Take(s.value, n);
      } else if code == VENDOR_EXTENSION {
      } else if code == CRC {
        var covered := len + HEADER_LEN - n;
        if covered < 0 || covered > buf.Length || at + 4 > buf.Length {
          return OutOfBounds;
        }
        assert buf[..covered] == buf[..][..covered];
        if checksum(buf[..covered]) != BigEndian32(buf[at], buf[at + 1], buf[at + 2], buf[at + 3]) {
          v := Refused;
        }
      } else {
        v := Refused;
      }
    }
  }
}
