/** CRC32C (util/crc32c.h, util/crc32c.cc), as in section 12.1 of RFC 3720. */
module Crc32c {
  import opened Coding

  const POLYNOMIAL: bv32 := 0x82f63b78
  const ONES: bv32 := 0xffff_ffff

  function Xor(x: bv32, y: bv32): bv32 {
    x ^ y
  }

  lemma XorAssoc(a: bv32, b: bv32, c: bv32)
    ensures Xor(Xor(a, b), c) == Xor(a, Xor(b, c))
  {
  }

  lemma XorComm(a: bv32, b: bv32)
    ensures Xor(a, b) == Xor(b, a)
  {
  }

  lemma XorSwap(a: bv32, b: bv32, c: bv32, d: bv32)
    ensures Xor(Xor(a, b), Xor(c, d)) == Xor(Xor(a, c), Xor(b, d))
  {
    hide Xor;
    XorAssoc(a, b, Xor(c, d));
    XorAssoc(b, c, d);
    XorComm(b, c);
    XorAssoc(c, b, d);
    XorAssoc(a, c, Xor(b, d));
  }

  lemma XorTwice(a: bv32, b: bv32)
    ensures Xor(Xor(a, b), b) == a
  {
  }

  function Right(x: bv32): bv32 {
    x >> 1
  }

  /** The reflected polynomial, if a one bit falls out. */
  function Feedback(x: bv32): bv32 {
    if x & 1 == 1 then POLYNOMIAL else 0
  }

  /** One bit through the shift register. */
  function Shift(x: bv32): bv32 {
    Xor(Right(x), Feedback(x))
  }

  lemma RightIsLinear(x: bv32, y: bv32)
    ensures Right(Xor(x, y)) == Xor(Right(x), Right(y))
  {
  }

  lemma FeedbackIsLinear(x: bv32, y: bv32)
    ensures Feedback(Xor(x, y)) == Xor(Feedback(x), Feedback(y))
  {
    assert (x ^ y) & 1 == (x & 1) ^ (y & 1);
  }

  lemma ShiftIsLinear(x: bv32, y: bv32)
    ensures Shift(Xor(x, y)) == Xor(Shift(x), Shift(y))
  {
    hide Feedback, Xor, Right;
    RightIsLinear(x, y);
    FeedbackIsLinear(x, y);
    XorSwap(Right(x), Right(y), Feedback(x), Feedback(y));
  }

  function ShiftFour(x: bv32): bv32 {
    Shift(Shift(Shift(Shift(x))))
  }

  /** One zero byte through the register. */
  function ZeroByte(x: bv32): bv32 {
    ShiftFour(ShiftFour(x))
  }

  lemma ShiftFourIsLinear(x: bv32, y: bv32)
    ensures ShiftFour(Xor(x, y)) == Xor(ShiftFour(x), ShiftFour(y))
  {
    hide Shift, Xor;
    ShiftIsLinear(x, y);
    ShiftIsLinear(Shift(x), Shift(y));
    ShiftIsLinear(Shift(Shift(x)), Shift(Shift(y)));
    ShiftIsLinear(Shift(Shift(Shift(x))), Shift(Shift(Shift(y))));
  }

  lemma ZeroByteIsLinear(x: bv32, y: bv32)
    ensures ZeroByte(Xor(x, y)) == Xor(ZeroByte(x), ZeroByte(y))
  {
    hide ShiftFour, Xor;
    ShiftFourIsLinear(x, y);
    ShiftFourIsLinear(ShiftFour(x), ShiftFour(y));
  }

  lemma ShiftFourOut(x: bv32)
    requires x & 0xf == 0
    ensures ShiftFour(x) == x >> 4
  {
  }

  function Low(x: bv32): bv32 {
    x & 0xff
  }

  function Right8(x: bv32): bv32 {
    x >> 8
  }

  /** A register whose low byte is zero only shifts. */
  lemma ZeroByteOut(x: bv32)
    requires Low(x) == 0
    ensures ZeroByte(x) == Right8(x)
  {
    hide ShiftFour;
    assert x & 0xf == 0;
    ShiftFourOut(x);
    assert (x >> 4) & 0xf == 0;
    ShiftFourOut(x >> 4);
    assert (x >> 4) >> 4 == x >> 8;
  }

  function Wide(b: bv8): bv32 {
    b as bv32
  }

  /** The register after all bytes, bit by bit. */
  function Fold(l: bv32, buf: seq<bv8>): bv32 {
    if buf == [] then l
    else ZeroByte(Xor(Fold(l, buf[..|buf| - 1]), Wide(buf[|buf| - 1])))
  }

  function Extended(crc: bv32, buf: seq<bv8>): bv32 {
    Xor(Fold(Xor(crc, ONES), buf), ONES)
  }

  lemma {:induction false} FoldConcat(l: bv32, a: seq<bv8>, b: seq<bv8>)
    ensures Fold(l, a + b) == Fold(Fold(l, a), b)
  {
    hide ZeroByte, Xor, Wide;
    if b == [] {
      assert a + b == a;
    } else {
      FoldConcat(l, a, b[..|b| - 1]);
      var all := a + b;
      assert all[..|all| - 1] == a + b[..|b| - 1];
    }
  }

  /** Extending over a concatenation is extending twice. */
  lemma ExtendConcat(crc: bv32, a: seq<bv8>, b: seq<bv8>)
    ensures Extended(crc, a + b) == Extended(Extended(crc, a), b)
  {
    hide Fold, Xor;
    FoldConcat(Xor(crc, ONES), a, b);
    XorTwice(Fold(Xor(crc, ONES), a), ONES);
  }

  /** The tables: the first from the register, each next from the one before by one more zero byte. */
  function Table0(i: bv32): bv32 {
    ZeroByte(i)
  }

  function Table1(i: bv32): bv32 {
    Xor(Table0(Low(Table0(i))), Right8(Table0(i)))
  }

  function Table2(i: bv32): bv32 {
    Xor(Table0(Low(Table1(i))), Right8(Table1(i)))
  }

  function Table3(i: bv32): bv32 {
    Xor(Table0(Low(Table2(i))), Right8(Table2(i)))
  }

  function High(x: bv32): bv32 {
    x & 0xffff_ff00
  }

  lemma SplitByte(x: bv32)
    ensures Xor(Low(x), High(x)) == x && Low(High(x)) == 0 && Right8(High(x)) == Right8(x)
  {
  }

  /** Looking up the low byte and shifting the rest takes a zero byte through the register. */
  lemma LookupIsZeroByte(x: bv32)
    ensures Xor(Table0(Low(x)), Right8(x)) == ZeroByte(x)
  {
    hide ZeroByte, Xor, Low, Right8, High;
    SplitByte(x);
    ZeroByteIsLinear(Low(x), High(x));
    ZeroByteOut(High(x));
  }

  lemma TablesAreZeroBytes(i: bv32)
    ensures Table1(i) == ZeroByte(ZeroByte(i))
    ensures Table2(i) == ZeroByte(ZeroByte(ZeroByte(i)))
    ensures Table3(i) == ZeroByte(ZeroByte(ZeroByte(ZeroByte(i))))
  {
    hide ZeroByte, Xor, Low, Right8;
    LookupIsZeroByte(Table0(i));
    LookupIsZeroByte(Table1(i));
    LookupIsZeroByte(Table2(i));
  }

  /** STEP1: a byte from the buffer. */
  function Step1(l: bv32, b: bv8): bv32 {
    Xor(Table0(Xor(Low(l), Wide(b))), Right8(l))
  }

  lemma ByteLowBits(l: bv32, b: bv8)
    ensures Low(Xor(l, Wide(b))) == Xor(Low(l), Wide(b)) && Right8(Xor(l, Wide(b))) == Right8(l)
  {
  }

  lemma Step1IsZeroByte(l: bv32, b: bv8)
    ensures Step1(l, b) == ZeroByte(Xor(l, Wide(b)))
  {
    hide ZeroByte, Xor, Wide, Table0, Low, Right8;
    ByteLowBits(l, b);
    LookupIsZeroByte(Xor(l, Wide(b)));
  }

  function Left8(x: bv32): bv32 {
    x << 8
  }

  /** Four bytes as DecodeFixed32 loads them. */
  function Load32(b0: bv8, b1: bv8, b2: bv8, b3: bv8): bv32 {
    Wide(b0) | Left8(Wide(b1)) | (Wide(b2) << 16) | (Wide(b3) << 24)
  }

  function Byte1(c: bv32): bv32 {
    (c >> 8) & 0xff
  }

  function Byte2(c: bv32): bv32 {
    (c >> 16) & 0xff
  }

  function Byte3(c: bv32): bv32 {
    c >> 24
  }

  /** STEP4: four bytes at once. */
  function Step4(l: bv32, b0: bv8, b1: bv8, b2: bv8, b3: bv8): bv32 {
    var c := Xor(l, Load32(b0, b1, b2, b3));
    Xor(Xor(Xor(Table3(Low(c)), Table2(Byte1(c))), Table1(Byte2(c))), Table0(Byte3(c)))
  }

  function Left16(x: bv32): bv32 {
    Left8(Left8(x))
  }

  function Left24(x: bv32): bv32 {
    Left8(Left8(Left8(x)))
  }

  function IsByte(x: bv32): bool {
    x <= 0xff
  }

  lemma SplitRaw(c: bv32)
    ensures (c & 0xff) ^ (((c >> 8) & 0xff) << 8) ^ (((c >> 16) & 0xff) << 16) ^ ((c >> 24) << 24) == c
  {
  }

  lemma SplitWord(c: bv32)
    ensures Xor(Xor(Xor(Low(c), Left8(Byte1(c))), Left16(Byte2(c))), Left24(Byte3(c))) == c
    ensures IsByte(Byte1(c)) && IsByte(Byte2(c)) && IsByte(Byte3(c))
  {
    SplitRaw(c);
    var b2, b3 := (c >> 16) & 0xff, c >> 24;
    assert (b2 << 8) << 8 == b2 << 16;
    assert ((b3 << 8) << 8) << 8 == b3 << 24;
  }

  /** A byte that is shifted left comes down with as many zero bytes. */
  lemma ShiftedByte(b: bv32)
    requires IsByte(b)
    ensures Low(Left8(b)) == 0 && Right8(Left8(b)) == b
    ensures Low(Left16(b)) == 0 && Right8(Left16(b)) == Left8(b)
    ensures Low(Left24(b)) == 0 && Right8(Left24(b)) == Left16(b)
  {
  }

  function FourZeroBytes(x: bv32): bv32 {
    ZeroByte(ZeroByte(ZeroByte(ZeroByte(x))))
  }

  lemma FourZeroBytesIsLinear(x: bv32, y: bv32)
    ensures FourZeroBytes(Xor(x, y)) == Xor(FourZeroBytes(x), FourZeroBytes(y))
  {
    hide ZeroByte, Xor;
    ZeroByteIsLinear(x, y);
    ZeroByteIsLinear(ZeroByte(x), ZeroByte(y));
    ZeroByteIsLinear(ZeroByte(ZeroByte(x)), ZeroByte(ZeroByte(y)));
    ZeroByteIsLinear(ZeroByte(ZeroByte(ZeroByte(x))), ZeroByte(ZeroByte(ZeroByte(y))));
  }

  /** The four lookups take four zero bytes through the register. */
  lemma LookupsAreZeroBytes(c: bv32)
    ensures Xor(Xor(Xor(Table3(Low(c)), Table2(Byte1(c))), Table1(Byte2(c))), Table0(Byte3(c))) == FourZeroBytes(c)
  {
    hide ZeroByte, Xor, Table1, Table2, Table3, Low, Byte1, Byte2, Byte3, Left8, Left16, Left24, Right8, IsByte;
    SplitWord(c);
    var p0, p1, p2, p3 := Low(c), Left8(Byte1(c)), Left16(Byte2(c)), Left24(Byte3(c));
    FourZeroBytesIsLinear(p0, p1);
    FourZeroBytesIsLinear(Xor(p0, p1), p2);
    FourZeroBytesIsLinear(Xor(Xor(p0, p1), p2), p3);
    ShiftedByte(Byte1(c));
    ShiftedByte(Byte2(c));
    ShiftedByte(Byte3(c));
    ZeroByteOut(p1);
    ZeroByteOut(p2);
    ZeroByteOut(Left8(Byte2(c)));
    ZeroByteOut(p3);
    ZeroByteOut(Left16(Byte3(c)));
    ZeroByteOut(Left8(Byte3(c)));
    TablesAreZeroBytes(p0);
    TablesAreZeroBytes(Byte1(c));
    TablesAreZeroBytes(Byte2(c));
  }

  lemma WideIsByte(b: bv8)
    ensures IsByte(Wide(b))
  {
  }

  lemma LoadRaw(l: bv32, w0: bv32, w1: bv32, w2: bv32, w3: bv32)
    requires w0 <= 0xff && w1 <= 0xff && w2 <= 0xff && w3 <= 0xff
    ensures l ^ (w0 | (w1 << 8) | (w2 << 16) | (w3 << 24)) == (((l ^ w0) ^ (w1 << 8)) ^ ((w2 << 8) << 8)) ^ (((w3 << 8) << 8) << 8)
  {
  }

  lemma LoadIsXor(l: bv32, b0: bv8, b1: bv8, b2: bv8, b3: bv8)
    ensures Xor(l, Load32(b0, b1, b2, b3))
      == Xor(Xor(Xor(Xor(l, Wide(b0)), Left8(Wide(b1))), Left16(Wide(b2))), Left24(Wide(b3)))
  {
    LoadRaw(l, Wide(b0), Wide(b1), Wide(b2), Wide(b3));
  }

  /** A later byte may as well go in before the zero byte that precedes it. */
  lemma BytePulled(x: bv32, b: bv32, shifted: bv32)
    requires Low(shifted) == 0 && Right8(shifted) == b
    ensures Xor(ZeroByte(x), b) == ZeroByte(Xor(x, shifted))
  {
    hide ZeroByte, Xor, Low, Right8;
    ZeroByteOut(shifted);
    ZeroByteIsLinear(x, shifted);
  }

  /** STEP4 is four times STEP1. */
  lemma Step4IsSteps(l: bv32, b0: bv8, b1: bv8, b2: bv8, b3: bv8)
    ensures Step4(l, b0, b1, b2, b3) == Step1(Step1(Step1(Step1(l, b0), b1), b2), b3)
  {
    hide ZeroByte, Xor, Wide, Load32, Step1, Table0, Table1, Table2, Table3, Low, Right8, Left8, Left16, Left24, Byte1, Byte2, Byte3, IsByte;
    var w1, w2, w3 := Wide(b1), Wide(b2), Wide(b3);
    LookupsAreZeroBytes(Xor(l, Load32(b0, b1, b2, b3)));
    LoadIsXor(l, b0, b1, b2, b3);
    WideIsByte(b1);
    WideIsByte(b2);
    WideIsByte(b3);
    ShiftedByte(w1);
    ShiftedByte(w2);
    ShiftedByte(w3);
    var x0 := Xor(l, Wide(b0));
    var x1 := Xor(x0, Left8(w1));
    var x2 := Xor(x1, Left16(w2));
    Step1IsZeroByte(l, b0);
    Step1IsZeroByte(ZeroByte(x0), b1);
    BytePulled(x0, w1, Left8(w1));
    Step1IsZeroByte(ZeroByte(ZeroByte(x1)), b2);
    BytePulled(ZeroByte(x1), w2, Left8(w2));
    BytePulled(x1, Left8(w2), Left16(w2));
    Step1IsZeroByte(ZeroByte(ZeroByte(ZeroByte(x2))), b3);
    BytePulled(ZeroByte(ZeroByte(x2)), w3, Left8(w3));
    BytePulled(ZeroByte(x2), Left8(w3), Left16(w3));
    BytePulled(x2, Left16(w3), Left24(w3));
  }

  lemma FoldStep(l: bv32, buf: seq<bv8>, p: nat)
    requires p < |buf|
    ensures Fold(l, buf[..p + 1]) == Step1(Fold(l, buf[..p]), buf[p])
  {
    hide ZeroByte, Xor, Wide, Step1;
    var next := buf[..p + 1];
    assert next[..|next| - 1] == buf[..p];
    Step1IsZeroByte(Fold(l, buf[..p]), buf[p]);
  }

  lemma FoldStep4(l: bv32, buf: seq<bv8>, p: nat)
    requires p + 4 <= |buf|
    ensures Fold(l, buf[..p + 4]) == Step4(Fold(l, buf[..p]), buf[p], buf[p + 1], buf[p + 2], buf[p + 3])
  {
    hide Fold, Step1, Step4;
    FoldStep(l, buf, p);
    FoldStep(l, buf, p + 1);
    FoldStep(l, buf, p + 2);
    FoldStep(l, buf, p + 3);
    Step4IsSteps(Fold(l, buf[..p]), buf[p], buf[p + 1], buf[p + 2], buf[p + 3]);
  }

  /** Extend over a buffer at any address. */
  method Extend(crc: bv32, buf: seq<bv8>, address: nat) returns (r: bv32)
    ensures r == Extended(crc, buf)
  {
    hide Fold, Step1, Step4, Xor;
    var p, e := 0, |buf|;
    var l := Xor(crc, ONES);
    ghost var start := l;
    FoldNone(start, buf);
    var x := (address + 3) / 4 * 4 - address;
    if x <= e {
      while p != x
        invariant p <= x && l == Fold(start, buf[..p])
        decreases x - p
      {
        FoldStep(start, buf, p);
        l := Step1(l, buf[p]);
        p := p + 1;
      }
    }
    while e - p >= 16
      invariant p <= e && l == Fold(start, buf[..p])
    {
      l, p := FourAt(start, l, buf, p);
      l, p := FourAt(start, l, buf, p);
      l, p := FourAt(start, l, buf, p);
      l, p := FourAt(start, l, buf, p);
    }
    while e - p >= 4
      invariant p <= e && l == Fold(start, buf[..p])
    {
      l, p := FourAt(start, l, buf, p);
    }
    while p != e
      invariant p <= e && l == Fold(start, buf[..p])
      decreases e - p
    {
      FoldStep(start, buf, p);
      l := Step1(l, buf[p]);
      p := p + 1;
    }
    assert buf[..p] == buf;
    r := Xor(l, ONES);
  }

  lemma FoldNone(l: bv32, buf: seq<bv8>)
    ensures Fold(l, buf[..0]) == l
  {
  }

  method FourAt(ghost start: bv32, l: bv32, buf: seq<bv8>, p: nat) returns (l': bv32, p': nat)
    requires p + 4 <= |buf| && l == Fold(start, buf[..p])
    ensures p' == p + 4 && l' == Fold(start, buf[..p'])
  {
    hide Fold, Step4;
    FoldStep4(start, buf, p);
    l', p' := Step4(l, buf[p], buf[p + 1], buf[p + 2], buf[p + 3]), p + 4;
  }

  const MASK_DELTA: nat := 0xa282_ead8
  /** Rotate right by 15 bits and add a constant, in 32 bits. */
  function Mask(crc: nat): (r: nat)
    requires crc < TWO_32
    ensures r < TWO_32
  {
    (crc / 0x8000 + crc % 0x8000 * 0x2_0000 + MASK_DELTA) % TWO_32
  }

  function Unmask(masked: nat): (r: nat)
    requires masked < TWO_32
    ensures r < TWO_32
  {
    var rot := (masked + TWO_32 - MASK_DELTA) % TWO_32;
    rot / 0x2_0000 + rot % 0x2_0000 * 0x8000
  }

  lemma UnmaskMask(crc: nat)
    requires crc < TWO_32
    ensures Unmask(Mask(crc)) == crc
  {
    var high, low := crc / 0x8000, crc % 0x8000;
    var turned := high + low * 0x2_0000;
    assert (Mask(crc) + TWO_32 - MASK_DELTA) % TWO_32 == turned;
    assert turned / 0x2_0000 == low && turned % 0x2_0000 == high;
  }
}
