/** Whatever bytes a decoder is given, what it puts into the message stays within its bounds (nanopb:
    pb_decode.c). */
module PbBounds {
  import opened Keys
  import opened Coding
  import opened PbSchema
  import opened PbWire
  import opened PbRoundTrip

  /** The value stays within its field: a number in its width, a string in its room. */
  ghost predicate HasRoom(t: LType, v: Value)
    decreases t
  {
    match t
    case VarintType(size) => v.Int? && SignedFits(v.i, size)
    case UVarintType(size) => v.Int? && 0 <= v.i < Span(size)
    case SVarintType(size) => v.Int? && SignedFits(v.i, size)
    case Fixed32Type => v.Int? && 0 <= v.i < TWO_32
    case Fixed64Type => v.Int? && 0 <= v.i < TWO_64
    case BytesType(max) => v.Blob? && |v.b| <= max
    case StringType(dataSize) => v.Blob? && (|v.b| < dataSize || v.b == [])
    case FixedLengthBytes(size) => v.Blob? && |v.b| == size
    case Submessage(fields) => v.Message? && AllHaveRoom(fields, v.slots)
  }

  ghost predicate SlotHasRoom(f: Field, s: Slot)
    decreases f
  {
    match f.htype
    case Required => s.Present? && HasRoom(f.ltype, s.v)
    case Singular => s.Present? && HasRoom(f.ltype, s.v)
    case Optional => s.Absent? || (s.Present? && HasRoom(f.ltype, s.v))
    case Repeated(arraySize) => s.Many? && |s.vs| <= arraySize && forall i | 0 <= i < |s.vs| :: HasRoom(f.ltype, s.vs[i])
    case Oneof(_) => s.Absent? || (s.Present? && HasRoom(f.ltype, s.v))
  }

  /** No more items than an array has places, and of each union at most one member. */
  ghost predicate AllHaveRoom(fields: seq<Field>, slots: seq<Slot>)
    decreases fields
  {
    && |slots| == |fields|
    && (forall i | 0 <= i < |fields| :: SlotHasRoom(fields[i], slots[i]))
    && OneOfEach(fields, slots)
  }

  ghost predicate OneOfEach(fields: seq<Field>, slots: seq<Slot>)
    requires |slots| == |fields|
  {
    forall i, j | 0 <= i < |fields| && 0 <= j < |fields| && i != j && fields[i].htype.Oneof? && fields[j].htype == fields[i].htype ::
      slots[i].Absent? || slots[j].Absent?
  }

  lemma {:induction false} DefaultHasRoom(t: LType)
    ensures HasRoom(t, DefaultValue(t))
    decreases t, 0
  {
    if t.Submessage? {
      DefaultsHaveRoom(t.fields);
    }
  }

  lemma {:induction false} DefaultsHaveRoom(fields: seq<Field>)
    ensures AllHaveRoom(fields, Defaults(fields))
    decreases fields
  {
    forall i | 0 <= i < |fields| ensures SlotHasRoom(fields[i], DefaultSlot(fields[i])) {
      DefaultSlotHasRoom(fields[i]);
    }
  }

  lemma {:induction false} DefaultSlotHasRoom(f: Field)
    ensures SlotHasRoom(f, DefaultSlot(f))
    decreases f
  {
    DefaultHasRoom(f.ltype);
  }

  lemma ScalarHasRoom(t: LType, s: Bytes)
    requires !t.Submessage?
    ensures var r := DecodeScalar(t, s); r.Some? ==> HasRoom(t, r.value.value)
  {
    hide DecodeVarint32, ReadVarint, Unfixed;
  }

  lemma {:induction false} PackedHasRoom(t: LType, s: Bytes, vs: seq<Value>, arraySize: nat)
    requires !t.Submessage? && |vs| <= arraySize && forall i | 0 <= i < |vs| :: HasRoom(t, vs[i])
    ensures var r := DecodePacked(t, s, vs, arraySize);
      r.Some? ==> |r.value| <= arraySize && forall i | 0 <= i < |r.value| :: HasRoom(t, r.value[i])
    decreases |s|
  {
    hide DecodeScalar, HasRoom;
    if s != [] && |vs| < arraySize {
      ScalarHasRoom(t, s);
      var r := DecodeScalar(t, s);
      if r.Some? {
        PackedHasRoom(t, r.value.rest, vs + [r.value.value], arraySize);
      }
    }
  }

  lemma {:induction false} ValueHasRoom(t: LType, s: Bytes, held: Value)
    requires HasRoom(t, held)
    ensures var r := DecodeValue(t, s, held); r.Some? ==> HasRoom(t, r.value.value)
    decreases |s|, 0
  {
    hide DecodeScalar, DecodeString, DecodeMessage;
    if t.Submessage? {
      var p := DecodeString(s);
      if p.Some? {
        MessageHasRoom(t.fields, p.value.value, held.slots);
      }
    } else {
      ScalarHasRoom(t, s);
    }
  }

  lemma SlotHeld(f: Field, s: Slot)
    requires SlotHasRoom(f, s)
    ensures !f.htype.Repeated? ==> HasRoom(f.ltype, Held(f, s))
    ensures f.htype.Repeated? ==> |Items(s)| <= f.htype.arraySize && forall i | 0 <= i < |Items(s)| :: HasRoom(f.ltype, Items(s)[i])
    ensures HasRoom(f.ltype, DefaultValue(f.ltype))
  {
    DefaultHasRoom(f.ltype);
  }

  lemma SlotStays(fields: seq<Field>, slots: seq<Slot>, i: nat, s: Slot)
    requires AllHaveRoom(fields, slots) && i < |fields| && SlotHasRoom(fields[i], s)
    ensures !fields[i].htype.Oneof? ==> AllHaveRoom(fields, slots[i := s])
    ensures fields[i].htype.Oneof? ==> AllHaveRoom(fields, ClearUnion(fields, slots, fields[i].htype.union)[i := s])
  {
    hide HasRoom;
  }

  lemma {:induction false} FieldHasRoom(fields: seq<Field>, slots: seq<Slot>, i: nat, wireType: nat, s: Bytes)
    requires AllHaveRoom(fields, slots) && i < |fields|
    ensures var r := DecodeField(fields, slots, i, wireType, s); r.Some? ==> AllHaveRoom(fields, r.value.value)
    decreases |s|, 1
  {
    hide DecodeValue, DecodeString, DecodePacked, HasRoom, ClearUnion, OneOfEach;
    var f, r := fields[i], DecodeField(fields, slots, i, wireType, s);
    SlotHeld(f, slots[i]);
    if r.Some? {
      if f.htype.Repeated? {
        if wireType == STRING_WIRE && Packable(f.ltype) {
          PackedHasRoom(f.ltype, DecodeString(s).value.value, Items(slots[i]), f.htype.arraySize);
        } else {
          ValueHasRoom(f.ltype, s, DefaultValue(f.ltype));
        }
        SlotStays(fields, slots, i, r.value.value[i]);
      } else {
        ValueHasRoom(f.ltype, s, DefaultValue(f.ltype));
        ValueHasRoom(f.ltype, s, Held(f, slots[i]));
        SlotStays(fields, slots, i, r.value.value[i]);
      }
    }
  }

  lemma {:induction false} LoopHasRoom(fields: seq<Field>, s: Bytes, slots: seq<Slot>, seen: set<nat>)
    requires AllHaveRoom(fields, slots)
    ensures var r := DecodeLoop(fields, s, slots, seen); r.Some? ==> AllHaveRoom(fields, r.value.slots)
    decreases |s|, 2
  {
    hide DecodeVarint32, DecodeField, Skip, FindField, SlotHasRoom, OneOfEach;
    if s != [] && DecodeVarint32(s).Some? && DecodeVarint32(s).value.value != 0 {
      var key := DecodeVarint32(s).value;
      match FindField(fields, key.value / 8, 0)
      case None =>
        var rest := Skip(key.value % 8, key.rest);
        if rest.Some? {
          LoopHasRoom(fields, rest.value, slots, seen);
        }
      case Some(i) =>
        FieldHasRoom(fields, slots, i, key.value % 8, key.rest);
        var p := DecodeField(fields, slots, i, key.value % 8, key.rest);
        if p.Some? {
          LoopHasRoom(fields, p.value.rest, p.value.value, if fields[i].htype.Required? then seen + {i} else seen);
        }
    }
  }

  /** Whatever is decoded over a message within its bounds leaves one within its bounds. */
  lemma {:induction false} MessageHasRoom(fields: seq<Field>, s: Bytes, slots: seq<Slot>)
    requires AllHaveRoom(fields, slots)
    ensures var r := DecodeMessage(fields, s, slots); r.Some? ==> AllHaveRoom(fields, r.value)
    decreases |s|, 3
  {
    hide DecodeLoop;
    LoopHasRoom(fields, s, slots, {});
  }

  /** And so does decoding from the defaults. */
  lemma DecodedHasRoom(fields: seq<Field>, s: Bytes)
    ensures var r := Decode(fields, s); r.Some? ==> AllHaveRoom(fields, r.value)
  {
    hide DecodeMessage, AllHaveRoom;
    DefaultsHaveRoom(fields);
    MessageHasRoom(fields, s, Defaults(fields));
  }

  /** What does not fit a field is not read into it: a number too large for it, or a string or bytes longer
      than its room. */
  lemma TooLargeFails(t: LType, n: nat, b: Bytes, rest: Bytes)
    requires n < TWO_64 && |b| < TWO_32
    ensures t.UVarintType? && n >= Span(t.size) ==> DecodeScalar(t, Varint(n) + rest) == None
    ensures t.SVarintType? && !SignedFits(UnZigZag(n), t.size) ==> DecodeScalar(t, Varint(n) + rest) == None
    ensures t.VarintType? && !SignedFits(if t.size == 8 then Signed(n, TWO_64) else Signed(n % TWO_32, TWO_32), t.size) ==>
      DecodeScalar(t, Varint(n) + rest) == None
    ensures t.BytesType? && |b| > t.max ==> DecodeScalar(t, Varint(|b|) + b + rest) == None
    ensures t.StringType? && |b| >= t.dataSize ==> DecodeScalar(t, Varint(|b|) + b + rest) == None
    ensures t.FixedLengthBytes? && |b| != t.size && b != [] ==> DecodeScalar(t, Varint(|b|) + b + rest) == None
  {
    hide Varint, ReadVarint, DecodeVarint32, DecodeString;
    Varint64RoundTrip(n, rest);
    StringReads(b, rest);
  }

  /** Nor are more items than an array has places. */
  lemma TooManyFail(fields: seq<Field>, slots: seq<Slot>, i: nat, wireType: nat, s: Bytes)
    requires |slots| == |fields| && i < |fields| && fields[i].htype.Repeated? && |Items(slots[i])| >= fields[i].htype.arraySize
    requires wireType != STRING_WIRE || !Packable(fields[i].ltype) || (DecodeString(s).Some? && DecodeString(s).value.value != [])
    ensures DecodeField(fields, slots, i, wireType, s) == None
  {
    hide DecodeValue, DecodeString;
  }
}
