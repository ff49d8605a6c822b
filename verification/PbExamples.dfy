/** The bytes that the Protocol Buffers encoding specification gives for each wire type and for its examples. */
module PbExamples {
  import opened Coding
  import opened PbSchema

  /** The number in the last three bits of a key. */
  lemma KeyNumbers(f: Field)
    requires 0 < f.tag < 0x2000_0000
    ensures IsIntType(f.ltype) ==> WireType(f.ltype) == 0
    ensures f.ltype.Fixed64Type? ==> WireType(f.ltype) == 1
    ensures !IsIntType(f.ltype) && !f.ltype.Fixed64Type? && !f.ltype.Fixed32Type? ==> WireType(f.ltype) == 2
    ensures f.ltype.Fixed32Type? ==> WireType(f.ltype) == 5
    ensures f.tag < 16 ==> Key(f, WireType(f.ltype)) == [f.tag * 8 + WireType(f.ltype)]
  {
  }

  lemma TwoBytes(v: nat)
    requires 128 <= v < 0x4000
    ensures Varint(v) == [v % 128 + 128, v / 128]
  {
    hide Varint;
    Varint32Cases(v);
  }

  /** Number 150 in field 1. */
  lemma NumberBytes()
    ensures EncodeOne(Field(1, Optional, UVarintType(4)), Int(150)) == [0x08, 0x96, 0x01]
  {
    TwoBytes(150);
    KeyNumbers(Field(1, Optional, UVarintType(4)));
  }

  /** The string "testing" in field 2. */
  lemma StringBytes()
    ensures EncodeOne(Field(2, Optional, StringType(8)), Blob([0x74, 0x65, 0x73, 0x74, 0x69, 0x6e, 0x67]))
      == [0x12, 0x07, 0x74, 0x65, 0x73, 0x74, 0x69, 0x6e, 0x67]
  {
    KeyNumbers(Field(2, Optional, StringType(8)));
  }

  /** A message that has 150 in its field 1, in field 3. */
  lemma SubmessageBytes()
    ensures var inner := [Field(1, Optional, UVarintType(4))];
      var v := Message([Present(Int(150))]);
      Fits(Submessage(inner), v) && EncodeOne(Field(3, Optional, Submessage(inner)), v) == [0x1a, 0x03, 0x08, 0x96, 0x01]
  {
    var inner := [Field(1, Optional, UVarintType(4))];
    var slots := [Present(Int(150))];
    NumberBytes();
    KeyNumbers(Field(3, Optional, Submessage(inner)));
    assert FitsAll(inner, slots);
    assert EncodeFrom(inner, slots, 1) == [];
    assert EncodeFrom(inner, slots, 0) == [0x08, 0x96, 0x01] + [];
  }

  /** The numbers 3, 270 and 86942, packed, in field 4. */
  lemma PackedBytes()
    ensures EncodeSlot(Field(4, Repeated(3), UVarintType(4)), Many([Int(3), Int(270), Int(86942)]))
      == [0x22, 0x06, 0x03, 0x8e, 0x02, 0x9e, 0xa7, 0x05]
  {
    hide Varint;
    var t, vs := UVarintType(4), [Int(3), Int(270), Int(86942)];
    TwoBytes(270);
    Varint32Cases(86942);
    Varint32Cases(3);
    Varint32Cases(6);
    Varint32Cases(34);
    assert vs[1..] == [Int(270), Int(86942)] && vs[1..][1..] == [Int(86942)];
    assert EncodePacked(t, []) == [];
    assert EncodePacked(t, [Int(86942)]) == [0x9e, 0xa7, 0x05];
    assert EncodePacked(t, vs[1..]) == [0x8e, 0x02] + [0x9e, 0xa7, 0x05];
    assert EncodePacked(t, vs) == [0x03] + [0x8e, 0x02, 0x9e, 0xa7, 0x05];
  }

  /** The number 1 in four and in eight bytes, in field 1. */
  lemma FixedBytes()
    ensures EncodeOne(Field(1, Optional, Fixed32Type), Int(1)) == [0x0d, 1, 0, 0, 0]
    ensures EncodeOne(Field(1, Optional, Fixed64Type), Int(1)) == [0x09, 1, 0, 0, 0, 0, 0, 0, 0]
  {
    KeyNumbers(Field(1, Optional, Fixed32Type));
    KeyNumbers(Field(1, Optional, Fixed64Type));
    assert Fixed(1, 4) == [1, 0, 0, 0];
    assert Fixed(1, 8) == [1, 0, 0, 0, 0, 0, 0, 0];
  }

  /** A negative number takes ten bytes. */
  lemma NegativeBytes()
    ensures EncodeOne(Field(1, Optional, VarintType(4)), Int(-2)) == [0x08, 0xfe, 0xff, 0xff, 0xff, 0xff, 0xff, 0xff, 0xff, 0xff, 0x01]
  {
    hide Varint;
    KeyNumbers(Field(1, Optional, VarintType(4)));
    assert -2 % TWO_64 == 0xffff_ffff_ffff_fffe;
    TwoBytes(0xff);
    VarintCase(0x7fff, 0xff);
    VarintCase(0x3f_ffff, 0x7fff);
    VarintCase(0x1fff_ffff, 0x3f_ffff);
    VarintCase(0xf_ffff_ffff, 0x1fff_ffff);
    VarintCase(0x7ff_ffff_ffff, 0xf_ffff_ffff);
    VarintCase(0x3_ffff_ffff_ffff, 0x7ff_ffff_ffff);
    VarintCase(0x1ff_ffff_ffff_ffff, 0x3_ffff_ffff_ffff);
    VarintCase(0xffff_ffff_ffff_fffe, 0x1ff_ffff_ffff_ffff);
  }

  /** Zigzag numbers. */
  lemma ZigZagNumbers()
    ensures ZigZag(0) == 0 && ZigZag(-1) == 1 && ZigZag(1) == 2 && ZigZag(-2) == 3
    ensures ZigZag(0x7fff_ffff) == 0xffff_fffe && ZigZag(-0x8000_0000) == 0xffff_ffff
  {
  }
}
