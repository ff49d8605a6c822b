/** The log under the checksum that the writer uses, CRC32C (db/log_writer.cc:15-20, 92-95; util/crc32c.h). */
module LogChecksum {
  import opened Keys
  import opened Coding
  import opened Crc32c
  import opened Log
  import opened LogRoundTrip
  import opened LogFaults

  function Bits(s: Bytes): (r: seq<bv8>)
    ensures |r| == |s| && forall i | 0 <= i < |s| :: r[i] == s[i] as bv8
  {
    seq(|s|, i requires 0 <= i < |s| => s[i] as bv8)
  }

  function Value(s: Bytes): Word {
    Extended(0, Bits(s)) as int
  }

  /** Zero bytes through the register. */
  function ZeroBytes(x: bv32, n: nat): bv32 {
    if n == 0 then x else ZeroByte(ZeroBytes(x, n - 1))
  }

  lemma XorZero(x: bv32)
    ensures Xor(x, 0) == x && Xor(0, x) == x
  {
  }

  lemma {:induction false} FoldZeros(l: bv32, buf: seq<bv8>)
    requires forall i | 0 <= i < |buf| :: buf[i] == 0
    ensures Fold(l, buf) == ZeroBytes(l, |buf|)
  {
    hide ZeroByte, Xor;
    if buf != [] {
      FoldZeros(l, buf[..|buf| - 1]);
      XorZero(Fold(l, buf[..|buf| - 1]));
      assert Wide(0) == 0;
    }
  }

  lemma {:induction false} ZeroBytesAreLinear(x: bv32, y: bv32, n: nat)
    ensures ZeroBytes(Xor(x, y), n) == Xor(ZeroBytes(x, n), ZeroBytes(y, n))
  {
    hide ZeroByte, Xor;
    if n > 0 {
      ZeroBytesAreLinear(x, y, n - 1);
      ZeroByteIsLinear(ZeroBytes(x, n - 1), ZeroBytes(y, n - 1));
    }
  }

  lemma {:induction false} ZeroBytesAfterShift(x: bv32, n: nat)
    ensures ZeroBytes(Shift(x), n) == Shift(ZeroBytes(x, n))
  {
    hide Shift;
    if n > 0 {
      ZeroBytesAfterShift(x, n - 1);
    }
  }

  lemma {:induction false} ZeroBytesAdd(x: bv32, m: nat, n: nat)
    ensures ZeroBytes(x, m + n) == ZeroBytes(ZeroBytes(x, m), n)
  {
    hide ZeroByte;
    if n > 0 {
      ZeroBytesAdd(x, m, n - 1);
    }
  }

  lemma {:induction false} ZeroBytesOfZero(n: nat)
    ensures ZeroBytes(0, n) == 0
  {
    hide Shift;
    if n > 0 {
      ZeroBytesOfZero(n - 1);
      ShiftOfZero();
    }
  }

  lemma ShiftOfZero()
    ensures Shift(0) == 0
  {
  }

  /** The register with only the first bit of a byte string in it. */
  const UNIT: bv32 := 0x8000_0000

  /** A term of a product before the rest of it. */
  function OneBit(a: bv32, rest: bv32): bv32 {
    a ^ ((rest >> 1) ^ (if rest & 1 == 1 then 0x82f6_3b78 else 0))
  }

  lemma ShiftIs(x: bv32)
    ensures Shift(x) == (x >> 1) ^ (if x & 1 == 1 then 0x82f6_3b78 else 0)
  {
  }

  lemma OneBitIs(a: bv32, rest: bv32)
    ensures OneBit(a, rest) == Xor(a, Shift(rest))
  {
    hide Shift;
    ShiftIs(rest);
  }

  /** Four terms, written out: what follows is computed with this. */
  function FourBits(a1: bv32, a2: bv32, a3: bv32, a4: bv32, rest: bv32): bv32 {
    var r1 := a1 ^ ((rest >> 1) ^ (if rest & 1 == 1 then 0x82f6_3b78 else 0));
    var r2 := a2 ^ ((r1 >> 1) ^ (if r1 & 1 == 1 then 0x82f6_3b78 else 0));
    var r3 := a3 ^ ((r2 >> 1) ^ (if r2 & 1 == 1 then 0x82f6_3b78 else 0));
    a4 ^ ((r3 >> 1) ^ (if r3 & 1 == 1 then 0x82f6_3b78 else 0))
  }

  lemma FirstIsOneBit(a1: bv32, rest: bv32)
    ensures OneBit(a1, rest) == a1 ^ ((rest >> 1) ^ (if rest & 1 == 1 then 0x82f6_3b78 else 0))
  {
  }

  lemma SecondIsOneBit(a1: bv32, a2: bv32, rest: bv32)
    ensures var r1 := a1 ^ ((rest >> 1) ^ (if rest & 1 == 1 then 0x82f6_3b78 else 0));
      OneBit(a2, r1) == a2 ^ ((r1 >> 1) ^ (if r1 & 1 == 1 then 0x82f6_3b78 else 0))
  {
  }

  lemma ThirdIsOneBit(a1: bv32, a2: bv32, a3: bv32, rest: bv32)
    ensures var r1 := a1 ^ ((rest >> 1) ^ (if rest & 1 == 1 then 0x82f6_3b78 else 0));
      var r2 := a2 ^ ((r1 >> 1) ^ (if r1 & 1 == 1 then 0x82f6_3b78 else 0));
      OneBit(a3, r2) == a3 ^ ((r2 >> 1) ^ (if r2 & 1 == 1 then 0x82f6_3b78 else 0))
  {
  }

  lemma FourthIsOneBit(a1: bv32, a2: bv32, a3: bv32, a4: bv32, rest: bv32)
    ensures var r1 := a1 ^ ((rest >> 1) ^ (if rest & 1 == 1 then 0x82f6_3b78 else 0));
      var r2 := a2 ^ ((r1 >> 1) ^ (if r1 & 1 == 1 then 0x82f6_3b78 else 0));
      var r3 := a3 ^ ((r2 >> 1) ^ (if r2 & 1 == 1 then 0x82f6_3b78 else 0));
      FourBits(a1, a2, a3, a4, rest) == OneBit(a4, r3)
  {
  }

  lemma FourBitsAre(a1: bv32, a2: bv32, a3: bv32, a4: bv32, rest: bv32)
    ensures FourBits(a1, a2, a3, a4, rest) == OneBit(a4, OneBit(a3, OneBit(a2, OneBit(a1, rest))))
  {
    hide OneBit, FourBits;
    FirstIsOneBit(a1, rest);
    SecondIsOneBit(a1, a2, rest);
    ThirdIsOneBit(a1, a2, a3, rest);
    FourthIsOneBit(a1, a2, a3, a4, rest);
  }

  /** The first eight bits of a register times another, before the rest of the product. */
  function EightBits(x: bv32, y: bv32, rest: bv32): bv32 {
    FourBits(
      if x & 0x1000_0000 == 0 then 0 else y, if x & 0x2000_0000 == 0 then 0 else y,
      if x & 0x4000_0000 == 0 then 0 else y, if x & 0x8000_0000 == 0 then 0 else y,
      FourBits(
        if x & 0x0100_0000 == 0 then 0 else y, if x & 0x0200_0000 == 0 then 0 else y,
        if x & 0x0400_0000 == 0 then 0 else y, if x & 0x0800_0000 == 0 then 0 else y, rest))
  }

  /** The product of the polynomials that two registers stand for. */
  function Times(x: bv32, y: bv32): bv32 {
    EightBits(x, y, EightBits(x << 8, y, EightBits(x << 16, y, EightBits(x << 24, y, 0))))
  }

  lemma UnitBits(x: bv32, rest: bv32)
    requires Low(rest) == 0
    ensures EightBits(x, UNIT, rest) == Xor(Top(x), Right8(rest))
  {
  }

  function Top(x: bv32): bv32 {
    x & 0xff00_0000
  }

  lemma OneByteLeft(x: bv32)
    ensures Top(x << 24) == x << 24 && Low(x << 24) == 0
  {
  }

  lemma TwoBytesLeft(x: bv32)
    ensures Xor(Top(x << 16), Right8(x << 24)) == x << 16 && Low(x << 16) == 0
  {
  }

  lemma ThreeBytesLeft(x: bv32)
    ensures Xor(Top(x << 8), Right8(x << 16)) == x << 8 && Low(x << 8) == 0
  {
  }

  lemma AllBytes(x: bv32)
    ensures Xor(Top(x), Right8(x << 8)) == x
  {
  }

  lemma NoLowByte()
    ensures Low(0) == 0 && Right8(0) == 0
  {
  }

  lemma TimesUnit(x: bv32)
    ensures Times(x, UNIT) == x
  {
    hide EightBits, Top, Low, Right8, Xor;
    NoLowByte();
    OneByteLeft(x);
    TwoBytesLeft(x);
    ThreeBytesLeft(x);
    AllBytes(x);
    UnitBits(x << 24, 0);
    XorZero(Top(x << 24));
    UnitBits(x << 16, x << 24);
    UnitBits(x << 8, x << 16);
    UnitBits(x, x << 8);
  }

  lemma ZeroBytesOfOneBit(a: bv32, rest: bv32, n: nat)
    ensures ZeroBytes(OneBit(a, rest), n) == OneBit(ZeroBytes(a, n), ZeroBytes(rest, n))
  {
    hide ZeroBytes, Shift, Xor, OneBit;
    OneBitIs(a, rest);
    OneBitIs(ZeroBytes(a, n), ZeroBytes(rest, n));
    ZeroBytesAreLinear(a, Shift(rest), n);
    ZeroBytesAfterShift(rest, n);
  }

  lemma ZeroBytesOfFourBits(a1: bv32, a2: bv32, a3: bv32, a4: bv32, rest: bv32, n: nat)
    ensures ZeroBytes(FourBits(a1, a2, a3, a4, rest), n)
      == FourBits(ZeroBytes(a1, n), ZeroBytes(a2, n), ZeroBytes(a3, n), ZeroBytes(a4, n), ZeroBytes(rest, n))
  {
    hide ZeroBytes, OneBit, FourBits;
    FourBitsAre(a1, a2, a3, a4, rest);
    FourBitsAre(ZeroBytes(a1, n), ZeroBytes(a2, n), ZeroBytes(a3, n), ZeroBytes(a4, n), ZeroBytes(rest, n));
    var r1 := OneBit(a1, rest);
    var r2 := OneBit(a2, r1);
    ZeroBytesOfOneBit(a1, rest, n);
    ZeroBytesOfOneBit(a2, r1, n);
    ZeroBytesOfOneBit(a3, r2, n);
    ZeroBytesOfOneBit(a4, OneBit(a3, r2), n);
  }

  lemma ZeroBytesOfEightBits(x: bv32, y: bv32, rest: bv32, n: nat)
    ensures ZeroBytes(EightBits(x, y, rest), n) == EightBits(x, ZeroBytes(y, n), ZeroBytes(rest, n))
  {
    hide ZeroBytes, FourBits;
    ZeroBytesOfZero(n);
    var a1, a2 := if x & 0x0100_0000 == 0 then 0 else y, if x & 0x0200_0000 == 0 then 0 else y;
    var a3, a4 := if x & 0x0400_0000 == 0 then 0 else y, if x & 0x0800_0000 == 0 then 0 else y;
    ZeroBytesOfFourBits(a1, a2, a3, a4, rest, n);
    var a5, a6 := if x & 0x1000_0000 == 0 then 0 else y, if x & 0x2000_0000 == 0 then 0 else y;
    var a7, a8 := if x & 0x4000_0000 == 0 then 0 else y, if x & 0x8000_0000 == 0 then 0 else y;
    ZeroBytesOfFourBits(a5, a6, a7, a8, FourBits(a1, a2, a3, a4, rest), n);
  }

  /** Zero bytes multiply by what they make of the first bit. */
  lemma ZeroBytesMultiply(x: bv32, n: nat)
    ensures ZeroBytes(x, n) == Times(x, ZeroBytes(UNIT, n))
  {
    hide ZeroBytes, EightBits;
    var b4 := EightBits(x << 24, UNIT, 0);
    var b3 := EightBits(x << 16, UNIT, b4);
    var b2 := EightBits(x << 8, UNIT, b3);
    TimesUnit(x);
    ZeroBytesOfEightBits(x << 24, UNIT, 0, n);
    ZeroBytesOfEightBits(x << 16, UNIT, b4, n);
    ZeroBytesOfEightBits(x << 8, UNIT, b3, n);
    ZeroBytesOfEightBits(x, UNIT, b2, n);
    ZeroBytesOfZero(n);
  }

  /** A product of which the rests are given. */
  lemma Product(x: bv32, y: bv32, r4: bv32, r3: bv32, r2: bv32, q: bv32)
    requires EightBits(x << 24, y, 0) == r4 && EightBits(x << 16, y, r4) == r3
    requires EightBits(x << 8, y, r3) == r2 && EightBits(x, y, r2) == q
    ensures Times(x, y) == q
  {
    hide EightBits;
  }

  /** Twice as many zero bytes square it; the rests of the product are given. */
  lemma Doubled(n: nat, p: bv32, r4: bv32, r3: bv32, r2: bv32, q: bv32)
    requires ZeroBytes(UNIT, n) == p && EightBits(p << 24, p, 0) == r4 && EightBits(p << 16, p, r4) == r3
    requires EightBits(p << 8, p, r3) == r2 && EightBits(p, p, r2) == q
    ensures ZeroBytes(UNIT, 2 * n) == q
  {
    hide Times, EightBits, ZeroByte;
    ZeroBytesAdd(UNIT, n, n);
    ZeroBytesMultiply(p, n);
    Product(p, p, r4, r3, r2, q);
  }

  lemma ZeroByteIs(x: bv32)
    ensures ZeroByte(x) == FourBits(0, 0, 0, 0, FourBits(0, 0, 0, 0, x))
  {
    hide Shift, OneBit, FourBits, Xor;
    forall y: bv32 ensures OneBit(0, y) == Shift(y) {
      OneBitIs(0, y);
      XorZero(Shift(y));
    }
    FourBitsAre(0, 0, 0, 0, x);
    FourBitsAre(0, 0, 0, 0, FourBits(0, 0, 0, 0, x));
  }

  lemma OneMore(n: nat, p: bv32, q: bv32)
    requires ZeroBytes(UNIT, n) == p && FourBits(0, 0, 0, 0, FourBits(0, 0, 0, 0, p)) == q
    ensures ZeroBytes(UNIT, n + 1) == q
  {
    hide ZeroByte, FourBits;
    ZeroByteIs(p);
  }

  /** What some numbers of zero bytes make of the first bit. */
  lemma After1()
    ensures ZeroBytes(UNIT, 1) == 0x0080_0000
  {
    ZeroByteOut(UNIT);
  }

  lemma After31()
    ensures ZeroBytes(UNIT, 31) == 0x2f1f_4950
  {
    hide ZeroBytes;
    After1();
    Doubled(1, 0x0080_0000, 0x0000_0000, 0x0000_0000, 0x0080_0000, 0x0000_8000);
    OneMore(2, 0x0000_8000, 0x0000_0080);
    Doubled(3, 0x0000_0080, 0x0000_0080, 0x82f6_3b78, 0xfbc3_faf9, 0x8b27_7743);
    OneMore(6, 0x8b27_7743, 0x52a0_c93f);
    Doubled(7, 0x52a0_c93f, 0xd105_7e9a, 0x2b9c_8ed7, 0x82b7_c47a, 0xe75d_06aa);
    OneMore(14, 0xe75d_06aa, 0xc94e_c098);
    Doubled(15, 0xc94e_c098, 0x5e05_cffa, 0x353b_e256, 0x3a50_4944, 0x9421_797f);
    OneMore(30, 0x9421_797f, 0x2f1f_4950);
  }

  lemma After1023()
    ensures ZeroBytes(UNIT, 1023) == 0x3e06_4c37
  {
    hide ZeroBytes;
    After31();
    Doubled(31, 0x2f1f_4950, 0x126c_4d82, 0xd4b4_fccb, 0x3d9e_0e23, 0x5aba_ef7a);
    OneMore(62, 0x5aba_ef7a, 0x1a20_c6da);
    Doubled(63, 0x1a20_c6da, 0x1d91_51ad, 0x323b_62b8, 0xbc80_1baa, 0xc3b4_e99f);
    OneMore(126, 0xc3b4_e99f, 0xcc78_74da);
    Doubled(127, 0xcc78_74da, 0xb412_4505, 0x6fd5_2b50, 0x70e6_3217, 0x159c_1be7);
    OneMore(254, 0x159c_1be7, 0x37ef_50ea);
    Doubled(255, 0x37ef_50ea, 0x2a6d_075f, 0x536d_d424, 0x89a5_7b0b, 0x3d7a_4ec8);
    OneMore(510, 0x3d7a_4ec8, 0x4969_0445);
    Doubled(511, 0x4969_0445, 0xe7eb_e621, 0x7a1e_7808, 0xc3f5_289f, 0xd60f_079e);
    OneMore(1022, 0xd60f_079e, 0x3e06_4c37);
  }

  lemma After32761()
    ensures ZeroBytes(UNIT, 32761) == 0x68b8_a2fe
  {
    hide ZeroBytes;
    After1023();
    Doubled(1023, 0x3e06_4c37, 0x426a_dba4, 0xb322_7da8, 0x8f75_e038, 0x4765_af29);
    OneMore(2046, 0x4765_af29, 0x5848_30bd);
    Doubled(2047, 0x5848_30bd, 0x01d5_ad3b, 0x5740_9505, 0x4d23_150f, 0x8f99_ed06);
    OneMore(4094, 0x8f99_ed06, 0x262e_7e05);
    Doubled(4095, 0x262e_7e05, 0xc0fb_d125, 0x455d_ec68, 0x8ce4_6526, 0x3269_4307);
    Doubled(8190, 0x3269_4307, 0x4a61_9b74, 0xdc42_f860, 0xeb6d_90f8, 0x0ee2_01e6);
    Doubled(16380, 0x0ee2_01e6, 0xa003_cf75, 0xca1a_6ec9, 0x2b62_71ad, 0x54be_5d19);
    OneMore(32760, 0x54be_5d19, 0x68b8_a2fe);
  }

  /** The middle of a record of zeros, as long as a block holds. */
  lemma MiddleRegister()
    ensures ZeroBytes(0xbed2_5f5a, PAYLOAD_SIZE) == 0x3cce_95bc
  {
    hide ZeroBytes, Times;
    After32761();
    ZeroBytesMultiply(0xbed2_5f5a, PAYLOAD_SIZE);
    Product(0xbed2_5f5a, 0x68b8_a2fe, 0x6768_94e0, 0xcae8_2fec, 0x44d2_9bce, 0x3cce_95bc);
  }

  lemma MiddleTypeRegister()
    ensures Fold(Xor(0, ONES), [3]) == 0xbed2_5f5a
  {
    hide ZeroByte;
    ZeroByteIs(0xffff_fffc);
    assert [3 as bv8][..0] == [];
    assert Wide(3) == 3;
  }

  lemma {:induction false} MiddleValue()
    ensures Value([MIDDLE_TYPE] + Filled(0, PAYLOAD_SIZE)) == 0xc331_6a43
  {
    hide Fold, ZeroBytes;
    var s := [MIDDLE_TYPE] + Filled(0, PAYLOAD_SIZE);
    var zeros := Bits(Filled(0, PAYLOAD_SIZE));
    assert Bits(s) == [3] + zeros;
    FoldConcat(Xor(0, ONES), [3], zeros);
    MiddleTypeRegister();
    FoldZeros(0xbed2_5f5a, zeros);
    MiddleRegister();
  }

  /** Under CRC32C the middle of a record of zeros shows no record type outside its header. */
  lemma {:induction false} ZerosShowNoType()
    ensures ShowsNoType(Value, 0)
  {
    hide Value;
    MiddleValue();
    var payload := Filled(0, PAYLOAD_SIZE);
    assert Mask(0xc331_6a43) == 0x770a_713a;
    assert EncodeFixed32(0x770a_713a) == [0x3a, 0x71, 0x0a, 0x77];
    var p := Physical(Value, MIDDLE_TYPE, payload);
    assert p == [0x3a, 0x71, 0x0a, 0x77] + ([0xf9, 0x7f, MIDDLE_TYPE] + payload);
  }

  /** The checksum that EmitPhysicalRecord computes, from that of the type alone. */
  lemma TypeThenPayload(typ: Byte, payload: Bytes)
    ensures Value([typ] + payload) == Extended(Extended(0, Bits([typ])), Bits(payload)) as int
  {
    hide Fold, Xor, Extended;
    assert Bits([typ] + payload) == Bits([typ]) + Bits(payload);
    ExtendConcat(0, Bits([typ]), Bits(payload));
  }

  /** So with its own checksum a log goes on after a call of AddRecord, faults or not, if and only if the writer
      is still in step. */
  lemma LogGoesOnIffInStep(checksum: bool, before: Bytes, offset: nat, data: Bytes, faults: Faults)
    requires offset <= BLOCK_SIZE && InStep(offset, |before|) && ReadThrough(Value, checksum, before)
    ensures var w := AddFrom(Value, offset, data, true, faults);
      var file := before + w.added;
      InStep(w.offset, |file|) <==>
        forall record: Bytes :: LastRead(Value, checksum, file + Appended(Value, w.offset, record, true), record)
  {
    hide Value, ShowsNoType, AddFrom, Appended, InStep, ReadThrough, LastRead;
    ZerosShowNoType();
    GoesOnIffInStep(Value, checksum, before, offset, data, faults, 0);
  }
}
