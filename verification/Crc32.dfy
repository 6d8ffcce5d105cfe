/** CRC-32 as zlib computes it, written after the sample code in section 8 of RFC 1952.

    The table-driven update of the register is shown to be a linear, invertible shift applied to
    the register with a byte mixed in.  From that alone it follows that messages which differ only
    inside a window of four consecutive bytes have different checksums.  The part of the argument
    that needs no bit vectors is carried out for any register type and any such shift.
 */
module Crc32 {

  // ----- the checksum

  /** The reflected generator polynomial. */
  const POLY: bv32 := 0xedb88320

  function Xor(a: bv32, b: bv32): bv32 { a ^ b }

  const ONES: bv32 := 0xffff_ffff

  function Complement(a: bv32): bv32 { Xor(a, ONES) }

  /** One round of the loop that fills an entry of the CRC table. */
  function BitStep(c: bv32): bv32 {
    if c & 1 == 1 then POLY ^ (c >> 1) else c >> 1
  }

  function Eight<T>(f: T -> T, c: T): T {
    f(f(f(f(f(f(f(f(c))))))))
  }

  function ByteShift(c: bv32): bv32 {
    Eight(BitStep, c)
  }

  function TableEntry(n: bv8): bv32 {
    ByteShift(n as bv32)
  }

  function Low(c: bv32): bv8 { (c & 0xff) as bv8 }
  function Drop(c: bv32): bv32 { c >> 8 }
  function Lane0(b: bv8): bv32 { b as bv32 }

  /** The update of a register with one byte, through a table: the byte is mixed in to select the
      entry, which is mixed into what is left of the register. */
  function TableStep<T, B>(table: B -> T, low: T -> B, drop: T -> T, xor: (T, T) -> T, lane: B -> T, c: T, b: B): T {
    xor(table(low(xor(c, lane(b)))), drop(c))
  }

  function CrcStep(c: bv32, b: bv8): bv32 {
    TableStep(TableEntry, Low, Drop, Xor, Lane0, c, b)
  }

  function Fold<T, B>(step: (T, B) -> T, c: T, buf: seq<B>): T {
    if buf == [] then c
    else step(Fold(step, c, buf[..|buf| - 1]), buf[|buf| - 1])
  }

  /** zlib's crc32: the register is complemented on entry and on exit. */
  function ZlibCrc32(crc: bv32, buf: seq<bv8>): bv32 {
    Complement(Fold(CrcStep, Complement(crc), buf))
  }

  /** calc_crc: the initial value zlib hands out, then the bytes. */
  function CalcCrc(buf: seq<bv8>): bv32 {
    ZlibCrc32(ZlibCrc32(0, []), buf)
  }

  // ----- folds over messages, for any register and any alphabet

  ghost predicate Hom<T(!new)>(f: T -> T, op: (T, T) -> T) {
    forall a, b :: f(op(a, b)) == op(f(a), f(b))
  }

  ghost predicate Injective<T(!new)>(f: T -> T) {
    forall a, b :: f(a) == f(b) ==> a == b
  }

  /** The step shifts the register after a byte has been mixed into its lowest lane. */
  ghost predicate StepShifts<T(!new), B(!new)>(step: (T, B) -> T, shift: T -> T, xor: (T, T) -> T, lane: B -> T) {
    forall c, b :: step(c, b) == shift(xor(c, lane(b)))
  }

  /** A shift takes the upper lane to the lower one. */
  ghost predicate LaneBelow<T(!new), B(!new)>(shift: T -> T, lower: B -> T, upper: B -> T) {
    forall b :: shift(upper(b)) == lower(b)
  }

  ghost predicate StepInjective<T(!new), B(!new)>(step: (T, B) -> T) {
    forall c, d, b :: step(c, b) == step(d, b) ==> c == d
  }

  ghost predicate WordInjective<T(!new), B(!new)>(step: (T, B) -> T) {
    forall c, v, w :: |v| == |w| == 4 && Fold(step, c, v) == Fold(step, c, w) ==> v == w
  }

  lemma {:induction false} FoldConcat<T, B>(step: (T, B) -> T, c: T, a: seq<B>, b: seq<B>)
    ensures Fold(step, c, a + b) == Fold(step, Fold(step, c, a), b)
  {
    if b == [] {
      assert a + b == a;
    } else {
      assert (a + b)[..|a + b| - 1] == a + b[..|b| - 1];
      FoldConcat(step, c, a, b[..|b| - 1]);
    }
  }

  /** The register after a message determines the register before it. */
  lemma {:induction false} FoldInjective<T(!new), B(!new)>(step: (T, B) -> T, c: T, d: T, buf: seq<B>)
    requires StepInjective(step)
    requires Fold(step, c, buf) == Fold(step, d, buf)
    ensures c == d
  {
    if buf != [] {
      FoldInjective(step, c, d, buf[..|buf| - 1]);
    }
  }

  function Mixed<T, B>(xor: (T, T) -> T, lanes: (B -> T, B -> T, B -> T, B -> T), c: T, w: seq<B>): T
    requires |w| == 4
  {
    xor(xor(xor(xor(c, lanes.0(w[0])), lanes.1(w[1])), lanes.2(w[2])), lanes.3(w[3]))
  }

  /** Mixing four bytes in one by one, a shift after each, is mixing each into its own lane and
      then shifting four times. */
  lemma FoldWord<T(!new), B(!new)>(step: (T, B) -> T, shift: T -> T, xor: (T, T) -> T,
                                   lanes: (B -> T, B -> T, B -> T, B -> T), c: T, w: seq<B>)
    requires |w| == 4
    requires StepShifts(step, shift, xor, lanes.0) && Hom(shift, xor)
    requires LaneBelow(shift, lanes.0, lanes.1) && LaneBelow(shift, lanes.1, lanes.2)
    requires LaneBelow(shift, lanes.2, lanes.3)
    ensures Fold(step, c, w) == shift(shift(shift(shift(Mixed(xor, lanes, c, w)))))
  {
    assert w[..1][..0] == [] && w[..2][..1] == w[..1] && w[..3][..2] == w[..2];
    var x0 := xor(c, lanes.0(w[0]));
    assert Fold(step, c, w[..1]) == shift(x0);
    var x1 := xor(x0, lanes.1(w[1]));
    assert Fold(step, c, w[..2]) == shift(shift(x1));
    var x2 := xor(x1, lanes.2(w[2]));
    assert shift(shift(x2)) == xor(shift(shift(x1)), lanes.0(w[2]));
    assert Fold(step, c, w[..3]) == shift(shift(shift(x2)));
    var x3 := xor(x2, lanes.3(w[3]));
    assert shift(shift(x3)) == xor(shift(shift(x2)), lanes.1(w[3]));
    assert shift(shift(shift(x3))) == xor(shift(shift(shift(x2))), lanes.0(w[3]));
  }

  ghost predicate MixInjective<T(!new), B(!new)>(xor: (T, T) -> T, lanes: (B -> T, B -> T, B -> T, B -> T)) {
    forall c, v, w :: |v| == |w| == 4 && Mixed(xor, lanes, c, v) == Mixed(xor, lanes, c, w) ==> v == w
  }

  lemma FoldWordInjective<T(!new), B(!new)>(step: (T, B) -> T, shift: T -> T, xor: (T, T) -> T,
                                            lanes: (B -> T, B -> T, B -> T, B -> T))
    requires StepShifts(step, shift, xor, lanes.0) && Hom(shift, xor) && Injective(shift)
    requires LaneBelow(shift, lanes.0, lanes.1) && LaneBelow(shift, lanes.1, lanes.2)
    requires LaneBelow(shift, lanes.2, lanes.3)
    requires MixInjective(xor, lanes)
    ensures WordInjective(step)
  {
    forall c, v: seq<B>, w: seq<B> | |v| == |w| == 4 && Fold(step, c, v) == Fold(step, c, w)
      ensures v == w
    {
      FoldWord(step, shift, xor, lanes, c, v);
      FoldWord(step, shift, xor, lanes, c, w);
    }
  }

  /** From one register value, different messages of up to four bytes leave different registers. */
  lemma FoldShortInjective<T(!new), B(!new)>(step: (T, B) -> T, c: T, v: seq<B>, w: seq<B>)
    requires |v| == |w| <= 4
    requires WordInjective(step)
    requires Fold(step, c, v) == Fold(step, c, w)
    ensures v == w
  {
    if v != [] {
      var pad := seq(4 - |v|, _ => v[0]);
      FoldConcat(step, c, v, pad);
      FoldConcat(step, c, w, pad);
      assert v + pad == w + pad;
      assert v == (v + pad)[..|v|] == (w + pad)[..|w|] == w;
    }
  }

  lemma FoldBurstParts<T(!new), B(!new)>(step: (T, B) -> T, c: T, a: seq<B>, b: seq<B>, b': seq<B>, z: seq<B>)
    requires StepInjective(step) && WordInjective(step)
    requires |b| == |b'| <= 4
    requires Fold(step, c, a + b + z) == Fold(step, c, a + b' + z)
    ensures b == b'
  {
    FoldConcat(step, c, a + b, z);
    FoldConcat(step, c, a + b', z);
    FoldInjective(step, Fold(step, c, a + b), Fold(step, c, a + b'), z);
    FoldConcat(step, c, a, b);
    FoldConcat(step, c, a, b');
    FoldShortInjective(step, Fold(step, c, a), b, b');
  }

  lemma ThreeParts<B>(s: seq<B>, lo: nat, hi: nat)
    requires lo <= hi <= |s|
    ensures s == s[..lo] + s[lo..hi] + s[hi..]
  {
  }

  lemma FoldBurst<T(!new), B(!new)>(step: (T, B) -> T, c: T, s: seq<B>, t: seq<B>, lo: nat, hi: nat)
    requires StepInjective(step) && WordInjective(step)
    requires |s| == |t|
    requires lo <= hi <= |s| && hi - lo <= 4
    requires s[..lo] == t[..lo] && s[hi..] == t[hi..]
    ensures Fold(step, c, s) == Fold(step, c, t) <==> s == t
  {
    if Fold(step, c, s) == Fold(step, c, t) {
      ThreeParts(s, lo, hi);
      ThreeParts(t, lo, hi);
      FoldBurstParts(step, c, s[..lo], s[lo..hi], t[lo..hi], s[hi..]);
    }
  }

  lemma MaskedBurst<T(!new), B(!new)>(step: (T, B) -> T, mask: T -> T, c: T, s: seq<B>, t: seq<B>, lo: nat, hi: nat)
    requires StepInjective(step) && WordInjective(step) && Injective(mask)
    requires |s| == |t|
    requires lo <= hi <= |s| && hi - lo <= 4
    requires s[..lo] == t[..lo] && s[hi..] == t[hi..]
    ensures mask(Fold(step, c, s)) == mask(Fold(step, c, t)) <==> s == t
  {
    FoldBurst(step, c, s, t, lo, hi);
  }

  lemma EightHom<T(!new)>(f: T -> T, op: (T, T) -> T, a: T, b: T)
    requires Hom(f, op)
    ensures Eight(f, op(a, b)) == op(Eight(f, a), Eight(f, b))
  {
  }

  lemma EightInjective<T(!new)>(f: T -> T, a: T, b: T)
    requires Injective(f)
    requires Eight(f, a) == Eight(f, b)
    ensures a == b
  {
  }

  // ----- the CRC register

  lemma ShiftOfXor(a: bv32, b: bv32)
    ensures (a ^ b) >> 1 == (a >> 1) ^ (b >> 1)
    ensures (a ^ b) & 1 == (a & 1) ^ (b & 1)
    ensures a & 1 == 0 || a & 1 == 1
    ensures b & 1 == 0 || b & 1 == 1
  {
  }

  lemma XorRegroup(p: bv32, a: bv32, b: bv32)
    ensures (p ^ a) ^ (p ^ b) == a ^ b
    ensures (p ^ a) ^ b == p ^ (a ^ b)
    ensures a ^ (p ^ b) == p ^ (a ^ b)
  {
  }

  lemma BitStepLinear(a: bv32, b: bv32)
    ensures BitStep(a ^ b) == BitStep(a) ^ BitStep(b)
  {
    ShiftOfXor(a, b);
    XorRegroup(POLY, a >> 1, b >> 1);
  }

  lemma BitStepInjective(a: bv32, b: bv32)
    requires BitStep(a) == BitStep(b)
    ensures a == b
  {
  }

  lemma BitStepHom()
    ensures Hom(BitStep, Xor)
  {
    forall a: bv32, b: bv32
      ensures BitStep(Xor(a, b)) == Xor(BitStep(a), BitStep(b))
    {
      BitStepLinear(a, b);
    }
  }

  lemma ByteShiftHom()
    ensures Hom(ByteShift, Xor)
  {
    BitStepHom();
    forall a: bv32, b: bv32
      ensures ByteShift(Xor(a, b)) == Xor(ByteShift(a), ByteShift(b))
    {
      EightHom(BitStep, Xor, a, b);
    }
  }

  lemma ByteShiftInjective()
    ensures Injective(ByteShift)
  {
    forall a: bv32, b: bv32 | BitStep(a) == BitStep(b)
      ensures a == b
    {
      BitStepInjective(a, b);
    }
    assert Injective(BitStep);
    forall a: bv32, b: bv32 | ByteShift(a) == ByteShift(b)
      ensures a == b
    {
      EightInjective(BitStep, a, b);
    }
  }

  lemma ByteShiftOfHighBits(x: bv32)
    requires x & 0xff == 0
    ensures ByteShift(x) == x >> 8
  {
  }

  function Lane1(b: bv8): bv32 { (b as bv32) << 8 }
  function Lane2(b: bv8): bv32 { (b as bv32) << 16 }
  function Lane3(b: bv8): bv32 { (b as bv32) << 24 }

  const LANES: (bv8 -> bv32, bv8 -> bv32, bv8 -> bv32, bv8 -> bv32) := (Lane0, Lane1, Lane2, Lane3)

  function High(x: bv32): bv32 { x & 0xffff_ff00 }

  lemma SplitLowByte(x: bv32)
    ensures x == Xor(Lane0(Low(x)), High(x))
    ensures High(x) & 0xff == 0 && High(x) >> 8 == Drop(x)
  {
  }

  lemma DropMixed(c: bv32, b: bv8)
    ensures Drop(Xor(c, Lane0(b))) == Drop(c)
  {
  }

  /** The table form of a step is the shift of the register with the byte mixed in. */
  lemma TableStepShifts<T(!new), B(!new)>(table: B -> T, low: T -> B, high: T -> T, drop: T -> T, xor: (T, T) -> T,
                                          lane: B -> T, shift: T -> T, c: T, b: B)
    requires Hom(shift, xor)
    requires forall n :: table(n) == shift(lane(n))
    requires var x := xor(c, lane(b)); x == xor(lane(low(x)), high(x)) && shift(high(x)) == drop(x) == drop(c)
    ensures TableStep(table, low, drop, xor, lane, c, b) == shift(xor(c, lane(b)))
  {
    var x := xor(c, lane(b));
    assert shift(xor(lane(low(x)), high(x))) == xor(shift(lane(low(x))), shift(high(x)));
  }

  lemma CrcStepIsShift(c: bv32, b: bv8)
    ensures CrcStep(c, b) == ByteShift(Xor(c, Lane0(b)))
  {
    ByteShiftHom();
    var x := Xor(c, Lane0(b));
    SplitLowByte(x);
    DropMixed(c, b);
    ByteShiftOfHighBits(High(x));
    TableStepShifts(TableEntry, Low, High, Drop, Xor, Lane0, ByteShift, c, b);
  }

  lemma CrcStepShifts()
    ensures StepShifts(CrcStep, ByteShift, Xor, Lane0)
  {
    forall c: bv32, b: bv8
      ensures CrcStep(c, b) == ByteShift(Xor(c, Lane0(b)))
    {
      CrcStepIsShift(c, b);
    }
  }

  lemma LaneBits(b: bv8)
    ensures Lane1(b) & 0xff == 0 && Lane1(b) >> 8 == Lane0(b)
    ensures Lane2(b) & 0xff == 0 && Lane2(b) >> 8 == Lane1(b)
    ensures Lane3(b) & 0xff == 0 && Lane3(b) >> 8 == Lane2(b)
  {
  }

  lemma CrcLanes()
    ensures LaneBelow(ByteShift, Lane0, Lane1)
    ensures LaneBelow(ByteShift, Lane1, Lane2)
    ensures LaneBelow(ByteShift, Lane2, Lane3)
  {
    forall b: bv8
      ensures ByteShift(Lane1(b)) == Lane0(b)
      ensures ByteShift(Lane2(b)) == Lane1(b)
      ensures ByteShift(Lane3(b)) == Lane2(b)
    {
      LaneBits(b);
      ByteShiftOfHighBits(Lane1(b));
      ByteShiftOfHighBits(Lane2(b));
      ByteShiftOfHighBits(Lane3(b));
    }
  }

  lemma MixedBytes(c: bv32, v0: bv8, v1: bv8, v2: bv8, v3: bv8, w0: bv8, w1: bv8, w2: bv8, w3: bv8)
    requires Xor(Xor(Xor(Xor(c, Lane0(v0)), Lane1(v1)), Lane2(v2)), Lane3(v3))
          == Xor(Xor(Xor(Xor(c, Lane0(w0)), Lane1(w1)), Lane2(w2)), Lane3(w3))
    ensures v0 == w0 && v1 == w1 && v2 == w2 && v3 == w3
  {
  }

  lemma CrcMixInjective()
    ensures MixInjective(Xor, LANES)
  {
    forall c: bv32, v: seq<bv8>, w: seq<bv8> |
      |v| == |w| == 4 && Mixed(Xor, LANES, c, v) == Mixed(Xor, LANES, c, w)
      ensures v == w
    {
      MixedBytes(c, v[0], v[1], v[2], v[3], w[0], w[1], w[2], w[3]);
    }
  }

  lemma CrcWordInjective()
    ensures WordInjective(CrcStep)
  {
    ByteShiftHom();
    ByteShiftInjective();
    CrcStepShifts();
    CrcLanes();
    CrcMixInjective();
    FoldWordInjective(CrcStep, ByteShift, Xor, LANES);
  }

  lemma XorCancel(a: bv32, b: bv32, x: bv32)
    requires Xor(a, x) == Xor(b, x)
    ensures a == b
  {
  }

  lemma CrcStepInjective()
    ensures StepInjective(CrcStep)
  {
    ByteShiftInjective();
    CrcStepShifts();
    forall c: bv32, d: bv32, b: bv8 | CrcStep(c, b) == CrcStep(d, b)
      ensures c == d
    {
      XorCancel(c, d, Lane0(b));
    }
  }

  lemma ComplementInjective()
    ensures Injective(Complement)
  {
    forall a: bv32, b: bv32 | Complement(a) == Complement(b)
      ensures a == b
    {
      XorCancel(a, b, ONES);
    }
  }

  /** Messages that agree outside a window of four bytes have the same checksum exactly when they
      are the same message. */
  lemma BurstDetected(s: seq<bv8>, t: seq<bv8>, lo: nat, hi: nat)
    requires |s| == |t|
    requires lo <= hi <= |s| && hi - lo <= 4
    requires s[..lo] == t[..lo] && s[hi..] == t[hi..]
    ensures CalcCrc(s) == CalcCrc(t) <==> s == t
  {
    CrcStepInjective();
    CrcWordInjective();
    ComplementInjective();
    MaskedBurst(CrcStep, Complement, Complement(ZlibCrc32(0, [])), s, t, lo, hi);
  }

  lemma DoubleComplement(a: bv32)
    ensures Complement(Complement(a)) == a
  {
  }

  /** A checksum can be computed piece by piece; calc_crc starts from the empty piece. */
  lemma ZlibCrc32Concat(crc: bv32, a: seq<bv8>, b: seq<bv8>)
    ensures ZlibCrc32(crc, a + b) == ZlibCrc32(ZlibCrc32(crc, a), b)
    ensures ZlibCrc32(crc, []) == crc
  {
    FoldConcat(CrcStep, Complement(crc), a, b);
    DoubleComplement(Fold(CrcStep, Complement(crc), a));
    DoubleComplement(crc);
  }

  /** A message is folded through the given register values. */
  lemma {:induction false} FoldStates<T, B>(step: (T, B) -> T, states: seq<T>, m: seq<B>)
    requires |states| == |m| + 1
    requires forall i :: 0 <= i < |m| ==> step(states[i], m[i]) == states[i + 1]
    ensures Fold(step, states[0], m) == states[|m|]
  {
    if m != [] {
      FoldStates(step, states[..|m|], m[..|m| - 1]);
    }
  }

  lemma StepValue(c: bv32, b: bv8, d: bv32)
    requires ByteShift(Xor(c, Lane0(b))) == d
    ensures CrcStep(c, b) == d
  {
    CrcStepShifts();
  }

  lemma CheckSteps0()
    ensures CrcStep(0xffffffff, 0x31) == 0x7c231048
    ensures CrcStep(0x7c231048, 0x32) == 0xb0acbb32
    ensures CrcStep(0xb0acbb32, 0x33) == 0x77b79c2d
  {
    StepValue(0xffffffff, 0x31, 0x7c231048);
    StepValue(0x7c231048, 0x32, 0xb0acbb32);
    StepValue(0xb0acbb32, 0x33, 0x77b79c2d);
  }

  lemma CheckSteps1()
    ensures CrcStep(0x77b79c2d, 0x34) == 0x641c1f5c
    ensures CrcStep(0x641c1f5c, 0x35) == 0x340ac5e3
    ensures CrcStep(0x340ac5e3, 0x36) == 0xf68d2c9e
  {
    StepValue(0x77b79c2d, 0x34, 0x641c1f5c);
    StepValue(0x641c1f5c, 0x35, 0x340ac5e3);
    StepValue(0x340ac5e3, 0x36, 0xf68d2c9e);
  }

  lemma CheckSteps2()
    ensures CrcStep(0xf68d2c9e, 0x37) == 0xaffc9660
    ensures CrcStep(0xaffc9660, 0x38) == 0x651f2550
    ensures CrcStep(0x651f2550, 0x39) == 0x340bc6d9
  {
    StepValue(0xf68d2c9e, 0x37, 0xaffc9660);
    StepValue(0xaffc9660, 0x38, 0x651f2550);
    StepValue(0x651f2550, 0x39, 0x340bc6d9);
  }

  lemma CheckFold()
    ensures Fold(CrcStep, 0xffff_ffff, [0x31, 0x32, 0x33, 0x34, 0x35, 0x36, 0x37, 0x38, 0x39]) == 0x340b_c6d9
  {
    CheckSteps0();
    CheckSteps1();
    CheckSteps2();
    FoldStates(CrcStep,
               [0xffffffff, 0x7c231048, 0xb0acbb32, 0x77b79c2d, 0x641c1f5c, 0x340ac5e3, 0xf68d2c9e, 0xaffc9660,
                0x651f2550, 0x340bc6d9],
               [0x31, 0x32, 0x33, 0x34, 0x35, 0x36, 0x37, 0x38, 0x39]);
  }

  /** The check value published for this CRC: the checksum of the ASCII digits 1 to 9. */
  lemma CheckValue()
    ensures CalcCrc([0x31, 0x32, 0x33, 0x34, 0x35, 0x36, 0x37, 0x38, 0x39]) == 0xcbf4_3926
  {
    CheckFold();
    assert Complement(ZlibCrc32(0, [])) == ONES by { ZlibCrc32Concat(0, [], []); }
  }

  // ----- a message whose continuation brings the register back

  const LOOP_HEAD: seq<bv8> := [0xff, 0xff, 0xff, 0xff, 0, 0, 0, 0, 0, 0, 0x0c, 0xfd, 0x04]
  const LOOP_TAIL: seq<bv8> := [0x0f, 0xae, 0x87, 0x15, 0xfe, 0x04]

  lemma LoopSteps0()
    ensures CrcStep(0xffffffff, 0xff) == 0xffffff && CrcStep(0xffffff, 0xff) == 0xffff
    ensures CrcStep(0xffff, 0xff) == 0xff && CrcStep(0xff, 0xff) == 0 && CrcStep(0, 0) == 0
  {
    StepValue(0xffffffff, 0xff, 0xffffff);
    StepValue(0xffffff, 0xff, 0xffff);
    StepValue(0xffff, 0xff, 0xff);
    StepValue(0xff, 0xff, 0);
    StepValue(0, 0, 0);
  }

  lemma LoopSteps1()
    ensures CrcStep(0, 0x0c) == 0x9b64c2b
    ensures CrcStep(0x9b64c2b, 0xfd) == 0x6fb9c1ad
    ensures CrcStep(0x6fb9c1ad, 0x04) == 0xaf65a28d
  {
    StepValue(0, 0x0c, 0x9b64c2b);
    StepValue(0x9b64c2b, 0xfd, 0x6fb9c1ad);
    StepValue(0x6fb9c1ad, 0x04, 0xaf65a28d);
  }

  lemma LoopSteps2()
    ensures CrcStep(0xaf65a28d, 0x0f) == 0x31987ae && CrcStep(0x31987ae, 0xae) == 0x31987
    ensures CrcStep(0x31987, 0x87) == 0x319 && CrcStep(0x319, 0x15) == 0x9b64c28
    ensures CrcStep(0x9b64c28, 0xfe) == 0x6fb9c1ad
  {
    StepValue(0xaf65a28d, 0x0f, 0x31987ae);
    StepValue(0x31987ae, 0xae, 0x31987);
    StepValue(0x31987, 0x87, 0x319);
    StepValue(0x319, 0x15, 0x9b64c28);
    StepValue(0x9b64c28, 0xfe, 0x6fb9c1ad);
  }

  lemma LoopHeadFold()
    ensures Fold(CrcStep, ONES, LOOP_HEAD) == 0xaf65a28d
  {
    LoopSteps0();
    LoopSteps1();
    FoldStates(CrcStep, [0xffffffff, 0xffffff, 0xffff, 0xff, 0, 0, 0, 0, 0, 0, 0, 0x9b64c2b, 0x6fb9c1ad, 0xaf65a28d],
               LOOP_HEAD);
  }

  lemma LoopTailFold()
    ensures Fold(CrcStep, 0xaf65a28d, LOOP_TAIL) == 0xaf65a28d
  {
    LoopSteps1();
    LoopSteps2();
    FoldStates(CrcStep, [0xaf65a28d, 0x31987ae, 0x31987, 0x319, 0x9b64c28, 0x6fb9c1ad, 0xaf65a28d], LOOP_TAIL);
  }

  lemma LoopValue()
    ensures CalcCrc(LOOP_HEAD + LOOP_TAIL) == CalcCrc(LOOP_HEAD)
  {
    assert Complement(ZlibCrc32(0, [])) == ONES by { ZlibCrc32Concat(0, [], []); }
    LoopHeadFold();
    LoopTailFold();
    FoldConcat(CrcStep, ONES, LOOP_HEAD, LOOP_TAIL);
  }
}
