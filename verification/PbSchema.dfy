/** Messages and their wire form (nanopb: pb.h, pb_encode.c, pb_decode.c), after the Protocol Buffers encoding
    specification. Fields have static storage. */
module PbSchema {
  import opened Coding

  /** How a field's data is laid out; integers with their size in bytes, strings and bytes with the room there is
      for them, a string's with its terminating zero. */
  datatype LType =
    | VarintType(size: nat)
    | UVarintType(size: nat)
    | SVarintType(size: nat)
    | Fixed32Type
    | Fixed64Type
    | BytesType(max: nat)
    | StringType(dataSize: nat)
    | FixedLengthBytes(size: nat)
    | Submessage(fields: seq<Field>)

  /** How often a field occurs. A singular field is optional without a flag of its own. */
  datatype HType = Required | Optional | Singular | Repeated(arraySize: nat) | Oneof(union: nat)

  datatype Field = Field(tag: nat, htype: HType, ltype: LType)

  datatype Value = Int(i: int) | Blob(b: Bytes) | Message(slots: seq<Slot>)

  /** What a message holds for a field. */
  datatype Slot = Absent | Present(v: Value) | Many(vs: seq<Value>)

  const VARINT_WIRE: nat := 0
  const FIXED64_WIRE: nat := 1
  const STRING_WIRE: nat := 2
  const FIXED32_WIRE: nat := 5

  predicate Packable(t: LType) {
    t.VarintType? || t.UVarintType? || t.SVarintType? || t.Fixed32Type? || t.Fixed64Type?
  }

  function WireType(t: LType): nat {
    match t
    case VarintType(_) => VARINT_WIRE
    case UVarintType(_) => VARINT_WIRE
    case SVarintType(_) => VARINT_WIRE
    case Fixed32Type => FIXED32_WIRE
    case Fixed64Type => FIXED64_WIRE
    case _ => STRING_WIRE
  }

  /** 2 to the power of the bits in so many bytes. */
  function Span(size: nat): nat {
    if size == 1 then 0x100 else if size == 2 then 0x1_0000 else if size == 4 then TWO_32 else TWO_64
  }

  predicate IsSize(size: nat) {
    size == 1 || size == 2 || size == 4 || size == 8
  }

  predicate IsIntType(t: LType) {
    t.VarintType? || t.UVarintType? || t.SVarintType?
  }

  /** Tags that are distinct and fit a key, in messages of every depth. */
  ghost predicate WellFormed(fields: seq<Field>)
    decreases fields
  {
    && (forall i, j | 0 <= i < j < |fields| :: fields[i].tag != fields[j].tag)
    && (forall i | 0 <= i < |fields| :: WellFormedField(fields[i]))
  }

  ghost predicate WellFormedField(f: Field)
    decreases f
  {
    && 0 < f.tag < 0x2000_0000
    && (IsIntType(f.ltype) ==> IsSize(f.ltype.size))
    && (f.ltype.Submessage? ==> WellFormed(f.ltype.fields))
  }

  /** A measure of nesting, counted over all fields, to descend by. */
  ghost function Weight(fields: seq<Field>): nat
    decreases fields
  {
    if fields == [] then 0 else Weight(fields[..|fields| - 1]) + FieldWeight(fields[|fields| - 1])
  }

  ghost function FieldWeight(f: Field): (w: nat)
    ensures w > 0
    decreases f
  {
    if f.ltype.Submessage? then 1 + Weight(f.ltype.fields) else 1
  }

  lemma {:induction false} FieldWeighsLess(fields: seq<Field>, i: nat)
    requires i < |fields|
    ensures FieldWeight(fields[i]) <= Weight(fields)
    decreases |fields|
  {
    if i < |fields| - 1 {
      FieldWeighsLess(fields[..|fields| - 1], i);
    }
  }

  lemma WellFormedAt(fields: seq<Field>, i: nat)
    requires WellFormed(fields) && i < |fields|
    ensures fields[i].ltype.Submessage? ==> WellFormed(fields[i].ltype.fields) && Weight(fields[i].ltype.fields) < Weight(fields)
    ensures Weight(fields) > 0
  {
    assert WellFormedField(fields[i]);
    FieldWeighsLess(fields, i);
  }

  /** What set_to_defaults leaves. */
  function DefaultValue(t: LType): Value
    decreases t, 0
  {
    match t
    case BytesType(_) => Blob([])
    case StringType(_) => Blob([])
    case FixedLengthBytes(size) => Blob(Zeros(size))
    case Submessage(fields) => Message(Defaults(fields))
    case _ => Int(0)
  }

  function Zeros(n: nat): (r: Bytes)
    ensures |r| == n
  {
    seq(n, i => 0)
  }

  function DefaultSlot(f: Field): Slot
    decreases f
  {
    match f.htype
    case Required => Present(DefaultValue(f.ltype))
    case Singular => Present(DefaultValue(f.ltype))
    case Repeated(_) => Many([])
    case _ => Absent
  }

  function Defaults(fields: seq<Field>): (r: seq<Slot>)
    ensures |r| == |fields| && forall i | 0 <= i < |fields| :: r[i] == DefaultSlot(fields[i])
    decreases fields
  {
    seq(|fields|, i requires 0 <= i < |fields| => DefaultSlot(fields[i]))
  }

  /** The value fits its field. Strings have no zero byte. */
  ghost predicate Fits(t: LType, v: Value)
    decreases t
  {
    match t
    case VarintType(size) => v.Int? && IsSize(size) && -(Span(size) as int) <= 2 * v.i < Span(size)
    case UVarintType(size) => v.Int? && IsSize(size) && 0 <= v.i < Span(size)
    case SVarintType(size) => v.Int? && IsSize(size) && -(Span(size) as int) <= 2 * v.i < Span(size)
    case Fixed32Type => v.Int? && 0 <= v.i < TWO_32
    case Fixed64Type => v.Int? && 0 <= v.i < TWO_64
    case BytesType(max) => v.Blob? && |v.b| <= max < TWO_32
    case StringType(dataSize) => v.Blob? && |v.b| < dataSize <= TWO_32 && forall i | 0 <= i < |v.b| :: v.b[i] != 0
    case FixedLengthBytes(size) => v.Blob? && |v.b| == size < TWO_32
    case Submessage(fields) => v.Message? && FitsAll(fields, v.slots)
  }

  ghost predicate FitsSlot(f: Field, s: Slot)
    decreases f
  {
    match f.htype
    case Required => s.Present? && Fits(f.ltype, s.v)
    case Singular => s.Present? && Fits(f.ltype, s.v)
    case Optional => s.Absent? || (s.Present? && Fits(f.ltype, s.v))
    case Repeated(arraySize) => s.Many? && |s.vs| <= arraySize && forall i | 0 <= i < |s.vs| :: Fits(f.ltype, s.vs[i])
    case Oneof(_) => s.Absent? || (s.Present? && Fits(f.ltype, s.v))
  }

  /** Every field fits, and of each union at most one is present. */
  ghost predicate FitsAll(fields: seq<Field>, slots: seq<Slot>)
    decreases fields
  {
    && |slots| == |fields|
    && (forall i | 0 <= i < |fields| :: FitsSlot(fields[i], slots[i]))
    && (forall i, j | 0 <= i < j < |fields| && fields[i].htype.Oneof? && fields[j].htype == fields[i].htype && slots[i].Present? ::
          slots[j].Absent?)
  }

  /** The check of a singular field: is its value what a decoder leaves it at? */
  predicate IsZero(t: LType, v: Value)
    decreases t
  {
    match t
    case BytesType(_) => v.Blob? && v.b == []
    case StringType(_) => v.Blob? && (v.b == [] || v.b[0] == 0)
    case FixedLengthBytes(size) => size == 0
    case Submessage(fields) =>
      v.Message? && |v.slots| == |fields| && forall i | 0 <= i < |fields| :: IsZeroSlot(fields[i], v.slots[i])
    case _ => v.Int? && v.i == 0
  }

  predicate IsZeroSlot(f: Field, s: Slot)
    decreases f
  {
    match f.htype
    case Required => false
    case Repeated(_) => s.Many? && s.vs == []
    case Oneof(_) => s.Absent?
    case Optional => s.Absent?
    case Singular => s.Present? && IsZero(f.ltype, s.v)
  }

  /** A fitting value that the check finds zero is the default. */
  lemma {:induction false} ZeroIsDefault(t: LType, v: Value)
    requires Fits(t, v) && IsZero(t, v)
    ensures v == DefaultValue(t)
    decreases t
  {
    if t.Submessage? {
      forall i | 0 <= i < |t.fields| ensures v.slots[i] == DefaultSlot(t.fields[i]) {
        var f, s := t.fields[i], v.slots[i];
        assert FitsSlot(f, s) && IsZeroSlot(f, s);
        if f.htype.Singular? {
          ZeroIsDefault(f.ltype, s.v);
        }
      }
      assert v.slots == Defaults(t.fields);
    }
  }

  /** A number, string or bytes is left out of a singular field just if it is the default; bytes of fixed
      length never are. */
  lemma ZeroExactly(t: LType, v: Value)
    requires Fits(t, v) && !t.Submessage?
    ensures IsZero(t, v) <==> v == DefaultValue(t) && (t.FixedLengthBytes? ==> t.size == 0)
  {
  }

  /** The zigzag form of a signed number. */
  function ZigZag(i: int): int {
    if i < 0 then -2 * i - 1 else 2 * i
  }

  function UnZigZag(n: nat): int {
    if n % 2 == 1 then -(n / 2) - 1 else n / 2
  }

  lemma ZigZagRoundTrip(i: int)
    ensures ZigZag(i) >= 0 && UnZigZag(ZigZag(i)) == i
  {
  }

  /** The wire form of a number or string, and of a submessage with its length. */
  ghost function EncodeValue(t: LType, v: Value): Bytes
    requires Fits(t, v)
    decreases t, 0, 0
  {
    match t
    case VarintType(_) => Varint(v.i % TWO_64)
    case UVarintType(_) => Varint(v.i)
    case SVarintType(_) => Varint(ZigZag(v.i))
    case Fixed32Type => EncodeFixed32(v.i)
    case Fixed64Type => EncodeFixed64(v.i)
    case BytesType(_) => Varint(|v.b|) + v.b
    case StringType(_) => Varint(|v.b|) + v.b
    case FixedLengthBytes(_) => Varint(|v.b|) + v.b
    case Submessage(fields) => Varint(|Encode(fields, v.slots)|) + Encode(fields, v.slots)
  }

  function Key(f: Field, wireType: nat): Bytes {
    Varint(f.tag * 8 + wireType)
  }

  /** The items of an array without tags. */
  ghost function EncodePacked(t: LType, vs: seq<Value>): Bytes
    requires Packable(t) && forall i | 0 <= i < |vs| :: Fits(t, vs[i])
    decreases t, 1, |vs|
  {
    if vs == [] then [] else EncodeValue(t, vs[0]) + EncodePacked(t, vs[1..])
  }

  /** The items of an array, each with its tag. */
  ghost function EncodeEach(f: Field, vs: seq<Value>): Bytes
    requires forall i | 0 <= i < |vs| :: Fits(f.ltype, vs[i])
    decreases f, 0, |vs|
  {
    if vs == [] then [] else Key(f, WireType(f.ltype)) + EncodeValue(f.ltype, vs[0]) + EncodeEach(f, vs[1..])
  }

  ghost function EncodeOne(f: Field, v: Value): Bytes
    requires Fits(f.ltype, v)
    decreases f, 0, 0
  {
    Key(f, WireType(f.ltype)) + EncodeValue(f.ltype, v)
  }

  ghost function EncodeSlot(f: Field, s: Slot): Bytes
    requires FitsSlot(f, s)
    decreases f, 1, 0
  {
    match f.htype
    case Repeated(_) =>
      if s.vs == [] then []
      else if Packable(f.ltype) then
        var packed := EncodePacked(f.ltype, s.vs);
        Key(f, STRING_WIRE) + (Varint(|packed|) + packed)
      else EncodeEach(f, s.vs)
    case Required => EncodeOne(f, s.v)
    case Singular => if IsZero(f.ltype, s.v) then [] else EncodeOne(f, s.v)
    case Optional => if s.Absent? then [] else EncodeOne(f, s.v)
    case Oneof(_) => if s.Absent? then [] else EncodeOne(f, s.v)
  }

  /** The message from field `i` on. */
  ghost function EncodeFrom(fields: seq<Field>, slots: seq<Slot>, i: nat): Bytes
    requires FitsAll(fields, slots) && i <= |fields|
    decreases fields, 0, |fields| - i
  {
    if i == |fields| then [] else EncodeSlot(fields[i], slots[i]) + EncodeFrom(fields, slots, i + 1)
  }

  ghost function Encode(fields: seq<Field>, slots: seq<Slot>): Bytes
    requires FitsAll(fields, slots)
    decreases fields, 1, 0
  {
    EncodeFrom(fields, slots, 0)
  }
}
