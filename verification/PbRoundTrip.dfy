/** Decoding what was encoded gives the message back, for every schema (nanopb: pb_encode.c, pb_decode.c). */
module PbRoundTrip {
  import opened Keys
  import opened Coding
  import opened PbSchema
  import opened PbWire

  predicate Step32(bitpos: nat, factor: nat) {
    (bitpos == 7 && factor == 0x80) || (bitpos == 14 && factor == 0x4000) || (bitpos == 21 && factor == 0x20_0000)
    || (bitpos == 28 && factor == 0x1000_0000)
  }

  lemma {:induction false} MoreExactly(s: Bytes, bitpos: nat, factor: nat, result: nat, n: nat)
    requires Step32(bitpos, factor) && result < factor && n == (35 - bitpos) / 7 && ReadVarint(s, n).Some?
    ensures var p := ReadVarint(s, n).value;
      DecodeMore(s, bitpos, factor, result) ==
        if result + p.value * factor < TWO_32 then Some(Parsed(result + p.value * factor, p.rest)) else None
    decreases n
  {
    hide ReadVarint;
    ReadVarintStep(s, n);
    if s[0] >= 128 {
      var p := ReadVarint(s[1..], n - 1).value;
      ByteGoesOn(s[0], p.value, bitpos, factor, result);
      MoreExactly(s[1..], bitpos + 7, 128 * factor, result + s[0] % 128 * factor, n - 1);
    } else {
      ByteEnds(s[0], bitpos, factor, result);
    }
  }

  lemma ReadVarintStep(s: Bytes, n: nat)
    requires ReadVarint(s, n).Some?
    ensures n > 0 && s != []
    ensures s[0] < 128 ==> ReadVarint(s, n) == Some(Parsed(s[0], s[1..]))
    ensures s[0] >= 128 ==> n > 1 && ReadVarint(s[1..], n - 1).Some?
    ensures s[0] >= 128 ==>
      ReadVarint(s, n) == Some(Parsed(s[0] - 128 + 128 * ReadVarint(s[1..], n - 1).value.value, ReadVarint(s[1..], n - 1).value.rest))
  {
  }

  lemma ByteGoesOn(b: Byte, q: nat, bitpos: nat, factor: nat, result: nat)
    requires Step32(bitpos, factor) && bitpos < 28 && result < factor && b >= 128
    ensures Step32(bitpos + 7, 128 * factor) && (result + b % 128 * factor) % TWO_32 == result + b % 128 * factor < 128 * factor
    ensures result + b % 128 * factor + q * (128 * factor) == result + (b - 128 + 128 * q) * factor
  {
  }

  lemma ByteEnds(b: Byte, bitpos: nat, factor: nat, result: nat)
    requires Step32(bitpos, factor) && result < factor && b < 128
    ensures bitpos == 28 && b >= 16 <==> result + b * factor >= TWO_32
    ensures !(bitpos == 28 && b >= 16) ==> (result + b % 128 * factor) % TWO_32 == result + b * factor
  {
  }

  /** A number in at most five bytes is read just if it fits 32 bits. */
  lemma {:induction false} Varint32Exactly(s: Bytes)
    requires ReadVarint(s, 5).Some?
    ensures DecodeVarint32(s) == if ReadVarint(s, 5).value.value < TWO_32 then ReadVarint(s, 5) else None
  {
    if s[0] >= 128 {
      MoreExactly(s[1..], 7, 128, s[0] - 128, 4);
    }
  }

  lemma Varint32Reads(v: nat, rest: Bytes)
    requires v < TWO_32
    ensures DecodeVarint32(Varint(v) + rest) == Some(Parsed(v, rest))
  {
    hide Varint, ReadVarint, DecodeVarint32;
    assert Power128(5) == 0x8_0000_0000;
    ReadVarintRoundTrip(v, 5, rest);
    Varint32Exactly(Varint(v) + rest);
  }

  lemma StringReads(b: Bytes, rest: Bytes)
    requires |b| < TWO_32
    ensures DecodeString(Varint(|b|) + b + rest) == Some(Parsed(b, rest))
    ensures DecodeVarint32(Varint(|b|) + b + rest) == Some(Parsed(|b|, b + rest))
    ensures (b + rest)[..|b|] == b && (b + rest)[|b|..] == rest
  {
    hide Varint, DecodeVarint32;
    assert Varint(|b|) + b + rest == Varint(|b|) + (b + rest);
    Varint32Reads(|b|, b + rest);
  }

  lemma SignedReads(i: int, size: nat)
    requires IsSize(size) && SignedFits(i, size)
    ensures size == 8 ==> Signed(i % TWO_64, TWO_64) == i
    ensures size != 8 ==> Signed(i % TWO_64 % TWO_32, TWO_32) == i
  {
  }

  lemma ScalarReads(t: LType, v: Value, rest: Bytes)
    requires !t.Submessage? && Fits(t, v)
    ensures DecodeScalar(t, EncodeValue(t, v) + rest) == Some(Parsed(v, rest))
  {
    hide Varint, GetVarint64, EncodeFixed32, EncodeFixed64, DecodeFixed32, DecodeFixed64, DecodeVarint32;
    match t
    case VarintType(size) =>
      Varint64RoundTrip(v.i % TWO_64, rest);
      SignedReads(v.i, size);
    case UVarintType(_) => Varint64RoundTrip(v.i, rest);
    case SVarintType(_) =>
      ZigZagRoundTrip(v.i);
      Varint64RoundTrip(ZigZag(v.i), rest);
    case Fixed32Type =>
      Fixed32RoundTrip(v.i, rest);
      assert (EncodeFixed32(v.i) + rest)[4..] == rest;
    case Fixed64Type =>
      Fixed64RoundTrip(v.i, rest);
      assert (EncodeFixed64(v.i) + rest)[8..] == rest;
    case BytesType(_) => StringReads(v.b, rest);
    case StringType(_) => StringReads(v.b, rest);
    case FixedLengthBytes(size) =>
      StringReads(v.b, rest);
      if size == 0 {
        assert v.b == Zeros(size) && v.b + rest == rest;
      }
  }

  lemma ScalarNotEmpty(t: LType, v: Value)
    requires Fits(t, v)
    ensures EncodeValue(t, v) != []
  {
  }

  /** The items of a packed array come back in order. */
  lemma {:induction false} PackedReads(t: LType, vs: seq<Value>, done: seq<Value>, arraySize: nat)
    requires Packable(t) && (forall i | 0 <= i < |vs| :: Fits(t, vs[i])) && |done| + |vs| <= arraySize
    ensures DecodePacked(t, EncodePacked(t, vs), done, arraySize) == Some(done + vs)
    decreases |vs|
  {
    hide EncodeValue, DecodeScalar, Fits;
    if vs == [] {
      assert done + vs == done;
    } else {
      var rest := EncodePacked(t, vs[1..]);
      ScalarReads(t, vs[0], rest);
      ScalarNotEmpty(t, vs[0]);
      PackedReads(t, vs[1..], done + [vs[0]], arraySize);
      assert done + [vs[0]] + vs[1..] == done + vs;
    }
  }

  /** A key is read back, and is not zero. */
  lemma KeyReads(f: Field, wireType: nat, rest: Bytes)
    requires 0 < f.tag < 0x2000_0000 && wireType < 8
    ensures Key(f, wireType) + rest != []
    ensures var key := f.tag * 8 + wireType;
      DecodeVarint32(Key(f, wireType) + rest) == Some(Parsed(key, rest)) && key != 0 && key / 8 == f.tag && key % 8 == wireType
  {
    hide DecodeVarint32;
    Varint32Reads(f.tag * 8 + wireType, rest);
  }

  lemma {:induction false} FindsField(fields: seq<Field>, i: nat, from: nat)
    requires from <= i < |fields| && forall a, b | 0 <= a < b < |fields| :: fields[a].tag != fields[b].tag
    ensures FindField(fields, fields[i].tag, from) == Some(i)
    decreases i - from
  {
    if from < i {
      FindsField(fields, i, from + 1);
    }
  }

  /** The fields up to `i` as they are to be, the rest at their defaults. */
  ghost function Mixed(fields: seq<Field>, slots: seq<Slot>, i: nat): (r: seq<Slot>)
    requires |slots| == |fields| && i <= |fields|
    ensures |r| == |fields| && forall j | 0 <= j < |fields| :: r[j] == if j < i then slots[j] else DefaultSlot(fields[j])
  {
    slots[..i] + Defaults(fields)[i..]
  }

  ghost function SeenTo(fields: seq<Field>, i: nat): set<nat>
    requires i <= |fields|
  {
    set j: nat | j < i && fields[j].htype.Required?
  }

  /** Reading one occurrence of a field goes on with the rest. */
  lemma LoopStep(fields: seq<Field>, slots: seq<Slot>, seen: set<nat>, i: nat, wireType: nat, body: Bytes)
    requires WellFormed(fields) && |slots| == |fields| && i < |fields| && wireType < 8
    ensures DecodeLoop(fields, Key(fields[i], wireType) + body, slots, seen) ==
      match DecodeField(fields, slots, i, wireType, body)
      case None => None
      case Some(p) => DecodeLoop(fields, p.rest, p.value, if fields[i].htype.Required? then seen + {i} else seen)
  {
    hide DecodeVarint32, DecodeField, Key, FindField;
    assert WellFormedField(fields[i]);
    KeyReads(fields[i], wireType, body);
    FindsField(fields, i, 0);
  }

  lemma WireTypes(t: LType)
    ensures WireType(t) < 8 && (Packable(t) ==> WireType(t) != STRING_WIRE)
  {
  }

  ghost predicate Small(t: LType, v: Value)
    requires Fits(t, v)
  {
    t.Submessage? ==> |Encode(t.fields, v.slots)| < TWO_32
  }

  /** A value comes back, a message over its defaults. */
  lemma {:induction false} ValueReads(t: LType, v: Value, rest: Bytes, held: Value)
    requires Fits(t, v) && Small(t, v) && (t.Submessage? ==> WellFormed(t.fields) && held == DefaultValue(t))
    ensures DecodeValue(t, EncodeValue(t, v) + rest, held) == Some(Parsed(v, rest))
    decreases if t.Submessage? then Weight(t.fields) else 0, 3, 0
  {
    hide DecodeScalar, DecodeString, DecodeMessage, Encode;
    if t.Submessage? {
      var body := Encode(t.fields, v.slots);
      StringReads(body, rest);
      MessageReads(t.fields, v.slots);
    } else {
      ScalarReads(t, v, rest);
    }
  }

  lemma {:induction false} MessageReads(fields: seq<Field>, slots: seq<Slot>)
    requires WellFormed(fields) && FitsAll(fields, slots) && |Encode(fields, slots)| < TWO_32
    ensures DecodeMessage(fields, Encode(fields, slots), Defaults(fields)) == Some(slots)
    decreases Weight(fields), 2, 0
  {
    hide DecodeLoop, EncodeFrom;
    assert Mixed(fields, slots, 0) == Defaults(fields);
    assert SeenTo(fields, 0) == {};
    FromReads(fields, slots, 0);
    assert Mixed(fields, slots, |fields|) == slots;
  }

  /** From field `i` on, with those before in place. */
  lemma {:induction false} FromReads(fields: seq<Field>, slots: seq<Slot>, i: nat)
    requires WellFormed(fields) && FitsAll(fields, slots) && i <= |fields| && |EncodeFrom(fields, slots, i)| < TWO_32
    ensures DecodeLoop(fields, EncodeFrom(fields, slots, i), Mixed(fields, slots, i), SeenTo(fields, i))
      == Some(Seen(Mixed(fields, slots, |fields|), SeenTo(fields, |fields|)))
    decreases Weight(fields), 1, |fields| - i
  {
    hide DecodeLoop, EncodeSlot, Mixed, SeenTo;
    if i == |fields| {
      LoopEnds(fields, Mixed(fields, slots, i), SeenTo(fields, i));
    } else {
      SlotReads(fields, slots, i, EncodeFrom(fields, slots, i + 1));
      FromReads(fields, slots, i + 1);
    }
  }

  lemma LoopEnds(fields: seq<Field>, slots: seq<Slot>, seen: set<nat>)
    requires |slots| == |fields|
    ensures DecodeLoop(fields, [], slots, seen) == Some(Seen(slots, seen))
  {
  }

  lemma NextMixed(fields: seq<Field>, slots: seq<Slot>, i: nat)
    requires |slots| == |fields| && i < |fields|
    ensures Mixed(fields, slots, i + 1) == Mixed(fields, slots, i)[i := slots[i]]
    ensures slots[i] == DefaultSlot(fields[i]) ==> Mixed(fields, slots, i + 1) == Mixed(fields, slots, i)
    ensures SeenTo(fields, i + 1) == if fields[i].htype.Required? then SeenTo(fields, i) + {i} else SeenTo(fields, i)
  {
  }

  /** One field is read into its place. */
  lemma {:induction false} SlotReads(fields: seq<Field>, slots: seq<Slot>, i: nat, rest: Bytes)
    requires WellFormed(fields) && FitsAll(fields, slots) && i < |fields| && |EncodeSlot(fields[i], slots[i])| < TWO_32
    ensures DecodeLoop(fields, EncodeSlot(fields[i], slots[i]) + rest, Mixed(fields, slots, i), SeenTo(fields, i))
      == DecodeLoop(fields, rest, Mixed(fields, slots, i + 1), SeenTo(fields, i + 1))
    decreases Weight(fields), 0, 2
  {
    hide DecodeLoop, EncodeOne, EncodeEach, EncodePacked, Mixed, SeenTo, WellFormed;
    var f, s := fields[i], slots[i];
    NextMixed(fields, slots, i);
    assert FitsSlot(f, s);
    assert [] + rest == rest;
    match f.htype
    case Required => OneReads(fields, slots, i, s.v, rest);
    case Singular =>
      if IsZero(f.ltype, s.v) {
        ZeroIsDefault(f.ltype, s.v);
      } else {
        OneReads(fields, slots, i, s.v, rest);
      }
    case Optional =>
      if s.Present? {
        OneReads(fields, slots, i, s.v, rest);
      }
    case Oneof(_) =>
      if s.Present? {
        OneReads(fields, slots, i, s.v, rest);
      }
    case Repeated(arraySize) =>
      if s.vs != [] {
        if Packable(f.ltype) {
          ArrayReads(fields, slots, i, rest);
        } else {
          FirstOfMany(fields, slots, i);
          EachReads(fields, Mixed(fields, slots, i), SeenTo(fields, i), i, s.vs, [], rest);
          assert [] + s.vs == s.vs;
        }
      }
  }

  lemma FirstOfMany(fields: seq<Field>, slots: seq<Slot>, i: nat)
    requires |slots| == |fields| && i < |fields| && fields[i].htype.Repeated?
    ensures Mixed(fields, slots, i)[i] == Many([]) && Mixed(fields, slots, i)[i := Many([])] == Mixed(fields, slots, i)
  {
  }

  /** The message in a value is shorter than the value. */
  lemma ValueIsSmall(t: LType, v: Value)
    requires Fits(t, v) && |EncodeValue(t, v)| < TWO_32
    ensures Small(t, v)
  {
  }

  /** A field that occurs once. */
  lemma {:induction false} OneReads(fields: seq<Field>, slots: seq<Slot>, i: nat, v: Value, rest: Bytes)
    requires WellFormed(fields) && FitsAll(fields, slots) && i < |fields| && slots[i] == Present(v) && Fits(fields[i].ltype, v)
    requires !fields[i].htype.Repeated? && |EncodeOne(fields[i], v)| < TWO_32
    ensures DecodeLoop(fields, EncodeOne(fields[i], v) + rest, Mixed(fields, slots, i), SeenTo(fields, i))
      == DecodeLoop(fields, rest, Mixed(fields, slots, i + 1), SeenTo(fields, i + 1))
    decreases Weight(fields), 0, 1
  {
    hide DecodeLoop, DecodeValue, EncodeValue, Key, WellFormed, Mixed, SeenTo, FitsSlot, ClearUnion;
    var f := fields[i];
    var m := Mixed(fields, slots, i);
    var body := EncodeValue(f.ltype, v) + rest;
    assert EncodeOne(f, v) + rest == Key(f, WireType(f.ltype)) + body;
    WireTypes(f.ltype);
    LoopStep(fields, m, SeenTo(fields, i), i, WireType(f.ltype), body);
    ValueIsSmall(f.ltype, v);
    WellFormedAt(fields, i);
    HeldIsDefault(fields, slots, i);
    ValueReads(f.ltype, v, rest, DefaultValue(f.ltype));
    NextMixed(fields, slots, i);
    if f.htype.Oneof? {
      UnionIsClear(fields, slots, i);
    }
  }

  lemma HeldIsDefault(fields: seq<Field>, slots: seq<Slot>, i: nat)
    requires |slots| == |fields| && i < |fields| && !fields[i].htype.Repeated?
    ensures Held(fields[i], Mixed(fields, slots, i)[i]) == DefaultValue(fields[i].ltype)
  {
  }

  /** No other field of a present union field's union is present. */
  lemma UnionIsClear(fields: seq<Field>, slots: seq<Slot>, i: nat)
    requires FitsAll(fields, slots) && i < |fields| && fields[i].htype.Oneof? && slots[i].Present?
    ensures ClearUnion(fields, Mixed(fields, slots, i), fields[i].htype.union) == Mixed(fields, slots, i)
  {
    hide Fits;
    var m, u := Mixed(fields, slots, i), fields[i].htype.union;
    forall j | 0 <= j < |fields| && fields[j].htype == Oneof(u) ensures m[j] == Absent {
      assert FitsSlot(fields[j], slots[j]);
    }
  }

  /** A packed array. */
  lemma ArrayReads(fields: seq<Field>, slots: seq<Slot>, i: nat, rest: Bytes)
    requires WellFormed(fields) && |slots| == |fields| && i < |fields| && fields[i].htype.Repeated? && Packable(fields[i].ltype)
    requires FitsSlot(fields[i], slots[i]) && slots[i].vs != [] && |EncodeSlot(fields[i], slots[i])| < TWO_32
    ensures DecodeLoop(fields, EncodeSlot(fields[i], slots[i]) + rest, Mixed(fields, slots, i), SeenTo(fields, i))
      == DecodeLoop(fields, rest, Mixed(fields, slots, i + 1), SeenTo(fields, i + 1))
  {
    hide DecodeLoop, DecodePacked, EncodePacked, Key, WellFormed, Mixed, SeenTo, DecodeString;
    var f, vs := fields[i], slots[i].vs;
    var packed := EncodePacked(f.ltype, vs);
    assert EncodeSlot(f, slots[i]) + rest == Key(f, STRING_WIRE) + (Varint(|packed|) + packed + rest);
    LoopStep(fields, Mixed(fields, slots, i), SeenTo(fields, i), i, STRING_WIRE, Varint(|packed|) + packed + rest);
    StringReads(packed, rest);
    FirstOfMany(fields, slots, i);
    PackedReads(f.ltype, vs, [], f.htype.arraySize);
    assert [] + vs == vs;
    NextMixed(fields, slots, i);
  }

  /** An array whose items have their own tags. */
  lemma {:induction false} EachReads(fields: seq<Field>, m: seq<Slot>, seen: set<nat>, i: nat, vs: seq<Value>, done: seq<Value>, rest: Bytes)
    requires WellFormed(fields) && |m| == |fields| && i < |fields| && fields[i].htype.Repeated?
    requires (forall k | 0 <= k < |vs| :: Fits(fields[i].ltype, vs[k])) && |done| + |vs| <= fields[i].htype.arraySize
    requires |EncodeEach(fields[i], vs)| < TWO_32
    ensures DecodeLoop(fields, EncodeEach(fields[i], vs) + rest, m[i := Many(done)], seen)
      == DecodeLoop(fields, rest, m[i := Many(done + vs)], seen)
    decreases Weight(fields), 0, 1, |vs|
  {
    hide DecodeLoop, DecodeValue, EncodeValue, Key, WellFormed, Fits;
    var f := fields[i];
    if vs == [] {
      assert [] + rest == rest && done + vs == done;
    } else {
      var more := EncodeEach(f, vs[1..]) + rest;
      var body := EncodeValue(f.ltype, vs[0]) + more;
      assert EncodeEach(f, vs) + rest == Key(f, WireType(f.ltype)) + body;
      WireTypes(f.ltype);
      var held := m[i := Many(done)];
      LoopStep(fields, held, seen, i, WireType(f.ltype), body);
      ValueIsSmall(f.ltype, vs[0]);
      WellFormedAt(fields, i);
      ValueReads(f.ltype, vs[0], more, DefaultValue(f.ltype));
      assert held[i := Many(done + [vs[0]])] == m[i := Many(done + [vs[0]])];
      EachReads(fields, m, seen, i, vs[1..], done + [vs[0]], rest);
      assert done + [vs[0]] + vs[1..] == done + vs;
    }
  }

  /** pb_decode of what pb_encode writes is the message, and all required fields are seen. */
  lemma RoundTrip(fields: seq<Field>, slots: seq<Slot>)
    requires WellFormed(fields) && FitsAll(fields, slots) && |Encode(fields, slots)| < TWO_32
    ensures Decode(fields, Encode(fields, slots)) == Some(slots)
  {
    MessageReads(fields, slots);
  }
}
