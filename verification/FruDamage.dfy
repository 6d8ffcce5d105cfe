/** Damaged images.  If the last TLV of an image is a four-byte CRC TLV that verifies, then no change
    confined to four consecutive bytes gets past the reader, as long as it leaves alone the bytes
    that say how long things are and the type of the CRC TLV.  Each of those exceptions is real.
 */
module FruDamage {
  import opened Fru
  import opened FruImages
  import Crc32

  // ----- the checksum over bytes

  function Join(hi: bv4, lo: bv4): bv8 {
    ((hi as bv8) << 4) | (lo as bv8)
  }

  /** A byte as the CRC register takes it, nibble by nibble. */
  function ByteToBv(b: byte): bv8 {
    Join((b / 16) as bv4, (b % 16) as bv4)
  }

  function ToBv(s: bytes): (r: seq<bv8>)
    ensures |r| == |s|
    ensures forall i :: 0 <= i < |s| ==> r[i] == ByteToBv(s[i])
  {
    seq(|s|, i requires 0 <= i < |s| => ByteToBv(s[i]))
  }

  function Number(c: bv32): uint32 {
    c as int
  }

  /** calc_crc over bytes, as a number. */
  function CalcCrc(s: bytes): uint32 {
    Number(Crc32.CalcCrc(ToBv(s)))
  }

  ghost predicate AgreeOutside(s: bytes, t: bytes, lo: int, hi: int) {
    |s| == |t| && forall i :: 0 <= i < |s| && (i < lo || hi <= i) ==> s[i] == t[i]
  }

  /** No change within four consecutive bytes leaves the checksum as it was. */
  ghost predicate DetectsBursts(checksum: Checksum) {
    forall s, t, lo: nat, hi: nat |
      AgreeOutside(s, t, lo, hi) && lo <= hi <= |s| && hi - lo <= 4 && checksum(s) == checksum(t) ::
      s == t
  }

  lemma NumberInjective(a: bv32, b: bv32)
    requires Number(a) == Number(b)
    ensures a == b
  {
    assert (a as int) as bv32 == a;
    assert (b as int) as bv32 == b;
  }

  lemma NibbleThroughBv(a: int)
    requires 0 <= a < 16
    ensures (a as bv4) as int == a
  {
  }

  lemma JoinInjective(hi: bv4, lo: bv4, hi': bv4, lo': bv4)
    requires Join(hi, lo) == Join(hi', lo')
    ensures hi == hi' && lo == lo'
  {
  }

  lemma ByteToBvInjective(a: byte, b: byte)
    requires ByteToBv(a) == ByteToBv(b)
    ensures a == b
  {
    JoinInjective((a / 16) as bv4, (a % 16) as bv4, (b / 16) as bv4, (b % 16) as bv4);
    NibbleThroughBv(a / 16);
    NibbleThroughBv(a % 16);
    NibbleThroughBv(b / 16);
    NibbleThroughBv(b % 16);
  }

  lemma ToBvInjective(s: bytes, t: bytes)
    requires ToBv(s) == ToBv(t)
    ensures s == t
  {
    assert |s| == |ToBv(s)| == |t|;
    forall i | 0 <= i < |s|
      ensures s[i] == t[i]
    {
      assert ToBv(s)[i] == ToBv(t)[i];
      ByteToBvInjective(s[i], t[i]);
    }
  }

  lemma CalcCrcDetectsBursts()
    ensures DetectsBursts(CalcCrc)
  {
    forall s, t, lo: nat, hi: nat |
      AgreeOutside(s, t, lo, hi) && lo <= hi <= |s| && hi - lo <= 4 && CalcCrc(s) == CalcCrc(t)
      ensures s == t
    {
      CalcCrcBurst(s, t, lo, hi);
    }
  }

  lemma CalcCrcBurst(s: bytes, t: bytes, lo: nat, hi: nat)
    requires AgreeOutside(s, t, lo, hi) && lo <= hi <= |s| && hi - lo <= 4
    ensures CalcCrc(s) == CalcCrc(t) <==> s == t
  {
    if CalcCrc(s) == CalcCrc(t) {
      var u, v := ToBv(s), ToBv(t);
      assert u[..lo] == v[..lo];
      assert u[hi..] == v[hi..];
      NumberInjective(Crc32.CalcCrc(u), Crc32.CalcCrc(v));
      Crc32.BurstDetected(u, v, lo, hi);
      ToBvInjective(s, t);
    }
  }

  // ----- what damage does to the checksum

  /** t is s with a change inside [lo, hi), which is at most four bytes of an image of len bytes of
      TLVs and lies on one side of the start of the CRC value. */
  ghost predicate Damaged(s: bytes, t: bytes, len: nat, lo: nat, hi: nat) {
    && AgreeOutside(s, t, lo, hi) && s != t
    && lo <= hi <= HEADER_LEN + len < |s| && hi - lo <= 4
    && (hi <= CrcValueAt(len) || CrcValueAt(len) <= lo)
  }

  lemma BigEndian16Injective(hi: byte, lo: byte, hi': byte, lo': byte)
    requires BigEndian16(hi, lo) == BigEndian16(hi', lo')
    ensures hi == hi' && lo == lo'
  {
  }

  lemma BigEndian32Injective(a0: byte, a1: byte, a2: byte, a3: byte, b0: byte, b1: byte, b2: byte, b3: byte)
    requires BigEndian32(a0, a1, a2, a3) == BigEndian32(b0, b1, b2, b3)
    ensures a0 == b0 && a1 == b1 && a2 == b2 && a3 == b3
  {
    assert BigEndian16(a0, a1) == BigEndian16(b0, b1);
    BigEndian16Injective(a0, a1, b0, b1);
    BigEndian16Injective(a2, a3, b2, b3);
  }

  /** After such damage the CRC no longer verifies. */
  lemma DamageBreaksCrc(checksum: Checksum, s: bytes, t: bytes, len: nat, lo: nat, hi: nat)
    requires DetectsBursts(checksum)
    requires 6 <= len && Damaged(s, t, len, lo, hi)
    requires CrcVerifies(checksum, s, len)
    ensures !CrcVerifies(checksum, t, len)
  {
    var at := CrcValueAt(len);
    if CrcVerifies(checksum, t, len) {
      if hi <= at {
        // the value is intact, so the covered bytes have the same checksum
        assert AgreeOutside(s[..at], t[..at], lo, hi);
        assert s[..at] == t[..at];
        assert forall i :: 0 <= i < at ==> s[i] == s[..at][i] == t[..at][i] == t[i];
      } else {
        // the covered bytes are intact, so the value is the same
        assert s[..at] == t[..at];
        BigEndian32Injective(s[at], s[at + 1], s[at + 2], s[at + 3], t[at], t[at + 1], t[at + 2], t[at + 3]);
      }
    }
  }

  // ----- images by their shape

  /** The length bytes of consecutive TLVs from pos on. */
  predicate Skeleton(buf: bytes, pos: nat, lengths: seq<byte>)
    decreases |lengths|
  {
    lengths == []
    || (pos + 2 <= |buf| && buf[pos + 1] == lengths[0] && Skeleton(buf, pos + 2 + lengths[0], lengths[1..]))
  }

  function Span(lengths: seq<byte>): nat {
    if lengths == [] then 0 else 2 + lengths[0] + Span(lengths[1..])
  }

  /** TLVs of the given lengths are followed, at the very end, by a four-byte CRC TLV. */
  ghost predicate EndsInCrc(buf: bytes, len: nat, lengths: seq<byte>) {
    && len == Span(lengths) + 6
    && Skeleton(buf, HEADER_LEN, lengths)
    && Framed(buf, len)
  }

  /** Whatever the TLVs are, an accepted walk has come past all of them. */
  lemma {:induction false} WalkSkeleton(checksum: Checksum, buf: bytes, len: nat, idx: nat, lengths: seq<byte>,
                                        r: Record)
    returns (r': Record)
    requires Skeleton(buf, HEADER_LEN + idx, lengths)
    requires idx + Span(lengths) <= len
    ensures Walk(checksum, buf, len, idx, r).0 == Accepted ==>
              Walk(checksum, buf, len, idx, r) == Walk(checksum, buf, len, idx + Span(lengths), r')
    decreases |lengths|
  {
    r' := r;
    if lengths != [] {
      var (v, r1) := Store(checksum, buf, len, HEADER_LEN + idx, r);
      r' := WalkSkeleton(checksum, buf, len, idx + 2 + lengths[0], lengths[1..], r1);
    }
  }

  /** An image that ends in a CRC TLV is accepted only if that CRC verifies. */
  lemma AcceptedVerifies(checksum: Checksum, buf: bytes, len: nat, lengths: seq<byte>, r: Record)
    requires EndsInCrc(buf, len, lengths)
    requires Walk(checksum, buf, len, 0, r).0 == Accepted
    ensures CrcVerifies(checksum, buf, len)
  {
    var r' := WalkSkeleton(checksum, buf, len, 0, lengths, r);
    StoreFinalCrc(checksum, buf, len, r');
  }

  /** Damage that leaves the length bytes and the CRC TLV's type alone is never accepted, be it to
      the header, to TLV types, to values or to the checksum. */
  lemma DamageNeverAccepted(checksum: Checksum, s: bytes, t: bytes, len: nat, lengths: seq<byte>,
                            lo: nat, hi: nat, r: Record)
    requires DetectsBursts(checksum)
    requires EndsInCrc(s, len, lengths) && CrcVerifies(checksum, s, len)
    requires Damaged(s, t, len, lo, hi)
    requires EndsInCrc(t, len, lengths)
    ensures Walk(checksum, t, len, 0, r).0 != Accepted
  {
    DamageBreaksCrc(checksum, s, t, len, lo, hi);
    if Walk(checksum, t, len, 0, r).0 == Accepted {
      AcceptedVerifies(checksum, t, len, lengths, r);
    }
  }

  // ----- sealed images

  /** The buffer starts with these TLVs, a CRC TLV that verifies comes last, and at least one more
      byte follows. */
  ghost predicate Sealed(checksum: Checksum, buf: bytes, tlvs: seq<Tlv>) {
    && Framed(buf, Size(tlvs) + 6)
    && AreAt(buf, HEADER_LEN, tlvs)
    && CrcVerifies(checksum, buf, Size(tlvs) + 6)
  }

  /** Every image the encoder writes is sealed. */
  lemma ImagesAreSealed(checksum: Checksum, buf: bytes, id: bytes, version: byte, tlvs: seq<Tlv>)
    requires HoldsImage(checksum, buf, id, version, tlvs)
    ensures Sealed(checksum, buf, tlvs) && buf[8] == version
  {
    ImageLayout(checksum, buf, id, version, tlvs);
  }

  /** The bytes of an image that say where things are: TLV types and lengths, the CRC TLV's own
      included. */
  function Structural(pos: nat, tlvs: seq<Tlv>): set<nat>
    decreases |tlvs|
  {
    if tlvs == [] then {pos, pos + 1}
    else {pos, pos + 1} + Structural(pos + 2 + |tlvs[0].value|, tlvs[1..])
  }

  ghost predicate SameStructure(s: bytes, t: bytes, pos: nat, tlvs: seq<Tlv>) {
    |s| == |t| && forall p :: p in Structural(pos, tlvs) && p < |s| ==> s[p] == t[p]
  }

  lemma SameStructureStep(s: bytes, t: bytes, pos: nat, tlvs: seq<Tlv>)
    requires SameStructure(s, t, pos, tlvs) && pos + 1 < |s|
    ensures s[pos] == t[pos] && s[pos + 1] == t[pos + 1]
    ensures tlvs != [] ==> SameStructure(s, t, pos + 2 + |tlvs[0].value|, tlvs[1..])
  {
    assert pos in Structural(pos, tlvs) && pos + 1 in Structural(pos, tlvs);
  }

  /** If types and lengths are where they were, TLVs of the same types and lengths are there, and the
      head of the CRC TLV comes after them as before. */
  lemma {:induction false} Reread(s: bytes, t: bytes, pos: nat, tlvs: seq<Tlv>) returns (tlvs': seq<Tlv>)
    requires AreAt(s, pos, tlvs) && SameStructure(s, t, pos, tlvs) && pos + Size(tlvs) + 2 <= |s|
    requires forall u :: u in tlvs ==> Fits(u)
    ensures Size(tlvs') == Size(tlvs) && AreAt(t, pos, tlvs')
    ensures forall u :: u in tlvs' ==> Fits(u)
    ensures s[pos + Size(tlvs)] == t[pos + Size(tlvs)]
    ensures s[pos + Size(tlvs) + 1] == t[pos + Size(tlvs) + 1]
    decreases |tlvs|
  {
    SameStructureStep(s, t, pos, tlvs);
    if tlvs == [] {
      tlvs' := [];
    } else {
      var n := 2 + |tlvs[0].value|;
      var u: Tlv := Tlv(tlvs[0].code, t[pos + 2..pos + n]);
      var rest := Reread(s, t, pos + n, tlvs[1..]);
      assert Fits(tlvs[0]) && Fits(u);
      tlvs' := [u] + rest;
      assert tlvs'[1..] == rest;
    }
  }

  /** Damage to a sealed image that leaves its structural bytes alone makes the read fail. */
  lemma DamageRefused(checksum: Checksum, s: bytes, t: bytes, tlvs: seq<Tlv>,
                      lo: nat, hi: nat, r: Record)
    requires DetectsBursts(checksum)
    requires Sealed(checksum, s, tlvs)
    requires forall u :: u in tlvs ==> Fits(u)
    requires Damaged(s, t, Size(tlvs) + 6, lo, hi)
    requires s[9] == t[9] && s[10] == t[10]
    requires SameStructure(s, t, HEADER_LEN, tlvs)
    ensures ReadDevice(checksum, t, r).0 == Refused
  {
    DamageBreaksCrc(checksum, s, t, Size(tlvs) + 6, lo, hi);
    var tlvs' := Reread(s, t, HEADER_LEN, tlvs);
    ReadFramed(checksum, t, tlvs', r);
  }

  /** Position p of such an image holds neither a TLV type, nor a TLV length, nor the total length. */
  predicate IsContent(tlvs: seq<Tlv>, p: nat) {
    p < HEADER_LEN + Size(tlvs) + 6 && p !in Structural(HEADER_LEN, tlvs) && p != 9 && p != 10
  }

  /** t is s with another byte at position p. */
  predicate ByteChanged(s: bytes, t: bytes, p: nat) {
    p < |s| == |t| && s[p] != t[p] && t == s[p := t[p]]
  }

  lemma OneByteBreaksRead(checksum: Checksum, s: bytes, t: bytes, tlvs: seq<Tlv>, p: nat, r: Record)
    requires DetectsBursts(checksum)
    requires Sealed(checksum, s, tlvs)
    requires forall u :: u in tlvs ==> Fits(u)
    requires IsContent(tlvs, p) && ByteChanged(s, t, p)
    ensures ReadDevice(checksum, t, r).0 == Refused
  {
    DamageRefused(checksum, s, t, tlvs, p, p + 1, r);
  }

  ghost predicate RefusesOneByte(checksum: Checksum) {
    forall s, tlvs, t, p, r |
      Sealed(checksum, s, tlvs) && (forall u :: u in tlvs ==> Fits(u)) && IsContent(tlvs, p) && ByteChanged(s, t, p) ::
      ReadDevice(checksum, t, r).0 == Refused
  }

  /** Changing any one byte of a sealed image, other than a TLV type, a TLV length or the total
      length, makes the read with the real checksum fail. */
  lemma OneByteRefused()
    ensures RefusesOneByte(CalcCrc)
  {
    CalcCrcDetectsBursts();
    forall s, tlvs, t, p, r |
      Sealed(CalcCrc, s, tlvs) && (forall u :: u in tlvs ==> Fits(u)) && IsContent(tlvs, p) && ByteChanged(s, t, p)
      ensures ReadDevice(CalcCrc, t, r).0 == Refused
    {
      OneByteBreaksRead(CalcCrc, s, t, tlvs, p, r);
    }
  }
}
