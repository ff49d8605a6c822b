/** Messages that are not as the encoder writes them (nanopb: pb_decode.c:936-966, 1463-1488): fields that the
    schema does not have, and submessages that come in parts. */
module PbMerge {
  import opened Keys
  import opened Coding
  import opened PbSchema
  import opened PbWire
  import opened PbRoundTrip

  /** The message up to field `i`. */
  ghost function EncodeTo(fields: seq<Field>, slots: seq<Slot>, i: nat): Bytes
    requires FitsAll(fields, slots) && i <= |fields|
  {
    if i == 0 then [] else EncodeTo(fields, slots, i - 1) + EncodeSlot(fields[i - 1], slots[i - 1])
  }

  lemma {:induction false} EncodeSplits(fields: seq<Field>, slots: seq<Slot>, i: nat)
    requires FitsAll(fields, slots) && i <= |fields|
    ensures Encode(fields, slots) == EncodeTo(fields, slots, i) + EncodeFrom(fields, slots, i)
  {
    hide EncodeSlot, FitsAll;
    if i > 0 {
      EncodeSplits(fields, slots, i - 1);
    }
  }

  /** The first fields are read whatever follows them. */
  lemma {:induction false} ToReads(fields: seq<Field>, slots: seq<Slot>, i: nat, rest: Bytes)
    requires WellFormed(fields) && FitsAll(fields, slots) && i <= |fields| && |EncodeTo(fields, slots, i)| < TWO_32
    ensures DecodeLoop(fields, EncodeTo(fields, slots, i) + rest, Defaults(fields), {})
      == DecodeLoop(fields, rest, Mixed(fields, slots, i), SeenTo(fields, i))
    decreases i
  {
    hide DecodeLoop, EncodeSlot, WellFormed, FitsSlot;
    if i == 0 {
      assert Mixed(fields, slots, 0) == Defaults(fields) && SeenTo(fields, 0) == {};
      assert [] + rest == rest;
    } else {
      var slot := EncodeSlot(fields[i - 1], slots[i - 1]);
      assert EncodeTo(fields, slots, i) + rest == EncodeTo(fields, slots, i - 1) + (slot + rest);
      ToReads(fields, slots, i - 1, slot + rest);
      SlotReads(fields, slots, i - 1, rest);
    }
  }

  /** A field of any number and wire type, with what follows its key. */
  datatype Unknown = Unknown(tag: nat, wireType: nat, payload: Bytes)

  /** A number, eight bytes, a string or four bytes, under a tag that the message does not have. */
  ghost predicate IsUnknown(fields: seq<Field>, u: Unknown) {
    && 0 < u.tag < 0x2000_0000 && (forall i | 0 <= i < |fields| :: fields[i].tag != u.tag)
    && (|| (u.wireType == 0 && exists v: nat :: u.payload == Varint(v))
        || (u.wireType == 1 && |u.payload| == 8)
        || (u.wireType == 2 && exists b: Bytes :: |b| < TWO_32 && u.payload == Varint(|b|) + b)
        || (u.wireType == 5 && |u.payload| == 4))
  }

  function EncodeUnknown(us: seq<Unknown>): Bytes {
    if us == [] then [] else Varint(us[0].tag * 8 + us[0].wireType) + us[0].payload + EncodeUnknown(us[1..])
  }

  lemma {:induction false} VarintSkips(v: nat, rest: Bytes)
    ensures SkipVarint(Varint(v) + rest) == Some(rest)
  {
    var s := Varint(v) + rest;
    if v < 128 {
      assert s[1..] == rest;
    } else {
      assert s[0] == v % 128 + 128 && s[1..] == Varint(v / 128) + rest;
      VarintSkips(v / 128, rest);
    }
  }

  lemma UnknownSkips(fields: seq<Field>, u: Unknown, rest: Bytes)
    requires IsUnknown(fields, u)
    ensures Skip(u.wireType, u.payload + rest) == Some(rest)
  {
    hide Varint, SkipVarint, DecodeString;
    var s := u.payload + rest;
    if u.wireType == 0 {
      var v: nat :| u.payload == Varint(v);
      VarintSkips(v, rest);
    } else if u.wireType == 2 {
      var b: Bytes :| |b| < TWO_32 && u.payload == Varint(|b|) + b;
      StringReads(b, rest);
    } else {
      assert s[|u.payload|..] == rest;
    }
  }

  lemma UnknownKey(fields: seq<Field>, u: Unknown, rest: Bytes)
    requires IsUnknown(fields, u)
    ensures var key := u.tag * 8 + u.wireType;
      DecodeVarint32(Varint(key) + rest) == Some(Parsed(key, rest)) && key != 0 && key / 8 == u.tag && key % 8 == u.wireType
    ensures FindField(fields, u.tag, 0) == None && Varint(u.tag * 8 + u.wireType) + rest != []
  {
    hide DecodeVarint32;
    Varint32Reads(u.tag * 8 + u.wireType, rest);
  }

  lemma KnownTag(fields: seq<Field>, u: Unknown)
    requires IsUnknown(fields, u)
    ensures u.tag > 0
  {
  }

  lemma OneSkipped(fields: seq<Field>, s: Bytes, slots: seq<Slot>, seen: set<nat>, body: Bytes, key: nat, rest: Bytes)
    requires |slots| == |fields| && s != [] && DecodeVarint32(s) == Some(Parsed(key, body)) && key / 8 > 0
    requires FindField(fields, key / 8, 0) == None && Skip(key % 8, body) == Some(rest)
    ensures DecodeLoop(fields, s, slots, seen) == DecodeLoop(fields, rest, slots, seen)
  {
    hide DecodeVarint32, FindField, Skip, DecodeField;
  }

  /** Unknown fields are passed over. */
  lemma {:induction false} UnknownReads(fields: seq<Field>, us: seq<Unknown>, slots: seq<Slot>, seen: set<nat>, rest: Bytes)
    requires |slots| == |fields| && forall i | 0 <= i < |us| :: IsUnknown(fields, us[i])
    ensures DecodeLoop(fields, EncodeUnknown(us) + rest, slots, seen) == DecodeLoop(fields, rest, slots, seen)
    decreases |us|
  {
    hide Varint, DecodeVarint32, Skip, FindField, DecodeField, IsUnknown;
    if us == [] {
      assert [] + rest == rest;
    } else {
      var u, more := us[0], EncodeUnknown(us[1..]) + rest;
      assert EncodeUnknown(us) + rest == Varint(u.tag * 8 + u.wireType) + (u.payload + more);
      UnknownKey(fields, u, u.payload + more);
      UnknownSkips(fields, u, more);
      KnownTag(fields, u);
      OneSkipped(fields, EncodeUnknown(us) + rest, slots, seen, u.payload + more, u.tag * 8 + u.wireType, more);
      UnknownReads(fields, us[1..], slots, seen, rest);
    }
  }

  /** A message with unknown fields between any two of its own decodes to the same. */
  lemma {:induction false} UnknownIgnored(fields: seq<Field>, slots: seq<Slot>, i: nat, us: seq<Unknown>)
    requires WellFormed(fields) && FitsAll(fields, slots) && |Encode(fields, slots)| < TWO_32 && i <= |fields|
    requires forall k | 0 <= k < |us| :: IsUnknown(fields, us[k])
    ensures Decode(fields, EncodeTo(fields, slots, i) + EncodeUnknown(us) + EncodeFrom(fields, slots, i)) == Some(slots)
  {
    hide DecodeLoop, Encode, EncodeTo, EncodeFrom, EncodeUnknown, WellFormed, FitsSlot, IsUnknown, Mixed, SeenTo;
    var before, unknown, after := EncodeTo(fields, slots, i), EncodeUnknown(us), EncodeFrom(fields, slots, i);
    EncodeSplits(fields, slots, i);
    assert before + unknown + after == before + (unknown + after);
    ToReads(fields, slots, i, unknown + after);
    UnknownReads(fields, us, Mixed(fields, slots, i), SeenTo(fields, i), after);
    FromReads(fields, slots, i);
    AllRead(fields, slots);
  }

  lemma AllRead(fields: seq<Field>, slots: seq<Slot>)
    requires |slots| == |fields|
    ensures Mixed(fields, slots, |fields|) == slots && AllSeen(fields, SeenTo(fields, |fields|))
  {
  }

  /** A submessage in two parts, under its key each time. */
  ghost function EncodeParts(f: Field, v: Value, k: nat): Bytes
    requires f.ltype.Submessage? && Fits(f.ltype, v) && k <= |f.ltype.fields|
  {
    var t := f.ltype;
    var a, b := EncodeTo(t.fields, v.slots, k), EncodeFrom(t.fields, v.slots, k);
    Key(f, STRING_WIRE) + (Varint(|a|) + a) + (Key(f, STRING_WIRE) + (Varint(|b|) + b))
  }

  /** The first part is read over the defaults and the second over the first. */
  lemma {:induction false} PartsRead(t: LType, v: Value, k: nat, rest: Bytes)
    requires t.Submessage? && Fits(t, v) && WellFormed(t.fields) && k <= |t.fields| && |Encode(t.fields, v.slots)| < TWO_32
    requires forall i | 0 <= i < |t.fields| :: !t.fields[i].htype.Required?
    ensures var a, b := EncodeTo(t.fields, v.slots, k), EncodeFrom(t.fields, v.slots, k);
      && DecodeValue(t, Varint(|a|) + a + rest, DefaultValue(t)) == Some(Parsed(Message(Mixed(t.fields, v.slots, k)), rest))
      && DecodeValue(t, Varint(|b|) + b + rest, Message(Mixed(t.fields, v.slots, k))) == Some(Parsed(v, rest))
  {
    hide DecodeLoop, Encode, EncodeTo, EncodeFrom, WellFormed, FitsSlot, Mixed, SeenTo, DecodeString;
    var a, b := EncodeTo(t.fields, v.slots, k), EncodeFrom(t.fields, v.slots, k);
    EncodeSplits(t.fields, v.slots, k);
    StringReads(a, rest);
    StringReads(b, rest);
    ToReads(t.fields, v.slots, k, []);
    assert a + [] == a;
    LoopEnds(t.fields, Mixed(t.fields, v.slots, k), SeenTo(t.fields, k));
    FromReads(t.fields, v.slots, k);
    NoneRequired(t.fields, k);
    AllRead(t.fields, v.slots);
  }

  lemma NoneRequired(fields: seq<Field>, k: nat)
    requires k <= |fields| && forall i | 0 <= i < |fields| :: !fields[i].htype.Required?
    ensures SeenTo(fields, k) == {} && AllSeen(fields, {})
  {
  }

  /** Both parts go into the place of the field. */
  lemma {:induction false} PartsInPlace(fields: seq<Field>, slots: seq<Slot>, i: nat, v: Value, k: nat, rest: Bytes)
    requires WellFormed(fields) && FitsAll(fields, slots) && i < |fields| && fields[i].ltype.Submessage? && slots[i] == Present(v)
    requires !fields[i].htype.Repeated? && !fields[i].htype.Oneof? && Fits(fields[i].ltype, v) && k <= |fields[i].ltype.fields|
    requires |Encode(fields[i].ltype.fields, v.slots)| < TWO_32
    requires forall j | 0 <= j < |fields[i].ltype.fields| :: !fields[i].ltype.fields[j].htype.Required?
    ensures DecodeLoop(fields, EncodeParts(fields[i], v, k) + rest, Mixed(fields, slots, i), SeenTo(fields, i))
      == DecodeLoop(fields, rest, Mixed(fields, slots, i + 1), SeenTo(fields, i + 1))
  {
    hide DecodeLoop, DecodeValue, Encode, EncodeTo, EncodeFrom, WellFormed, FitsSlot, Mixed, SeenTo, Key;
    var f, t := fields[i], fields[i].ltype;
    WellFormedAt(fields, i);
    var a, b := EncodeTo(t.fields, v.slots, k), EncodeFrom(t.fields, v.slots, k);
    var second := Key(f, STRING_WIRE) + (Varint(|b|) + b + rest);
    assert EncodeParts(f, v, k) + rest == Key(f, STRING_WIRE) + (Varint(|a|) + a + second);
    var m, half := Mixed(fields, slots, i), Message(Mixed(t.fields, v.slots, k));
    LoopStep(fields, m, SeenTo(fields, i), i, STRING_WIRE, Varint(|a|) + a + second);
    HeldIsDefault(fields, slots, i);
    PartsRead(t, v, k, second);
    var seen := if f.htype.Required? then SeenTo(fields, i) + {i} else SeenTo(fields, i);
    LoopStep(fields, m[i := Present(half)], seen, i, STRING_WIRE, Varint(|b|) + b + rest);
    PartsRead(t, v, k, rest);
    NextMixed(fields, slots, i);
    assert m[i := Present(half)][i := Present(v)] == m[i := Present(v)];
    assert seen + {i} == SeenTo(fields, i) + {i};
  }

  lemma FromIs(fields: seq<Field>, slots: seq<Slot>, i: nat)
    requires FitsAll(fields, slots) && i < |fields|
    ensures |EncodeFrom(fields, slots, i + 1)| <= |EncodeFrom(fields, slots, i)|
  {
    hide EncodeSlot;
  }

  /** A message with a submessage in two parts, neither of which lacks a required field, decodes to the same. */
  lemma {:induction false} PartsMerge(fields: seq<Field>, slots: seq<Slot>, i: nat, v: Value, k: nat)
    requires WellFormed(fields) && FitsAll(fields, slots) && i < |fields| && fields[i].ltype.Submessage? && slots[i] == Present(v)
    requires |Encode(fields, slots)| < TWO_32
    requires !fields[i].htype.Repeated? && !fields[i].htype.Oneof? && Fits(fields[i].ltype, v) && k <= |fields[i].ltype.fields|
    requires |Encode(fields[i].ltype.fields, v.slots)| < TWO_32
    requires forall j | 0 <= j < |fields[i].ltype.fields| :: !fields[i].ltype.fields[j].htype.Required?
    ensures Decode(fields, EncodeTo(fields, slots, i) + EncodeParts(fields[i], v, k) + EncodeFrom(fields, slots, i + 1)) == Some(slots)
  {
    hide DecodeLoop, Encode, EncodeTo, EncodeFrom, EncodeParts, WellFormed, FitsSlot, Fits, Mixed, SeenTo;
    var before, parts, after := EncodeTo(fields, slots, i), EncodeParts(fields[i], v, k), EncodeFrom(fields, slots, i + 1);
    assert before + parts + after == before + (parts + after);
    EncodeSplits(fields, slots, i);
    FromIs(fields, slots, i);
    ToReads(fields, slots, i, parts + after);
    PartsInPlace(fields, slots, i, v, k, after);
    FromReads(fields, slots, i + 1);
    AllRead(fields, slots);
  }

  /** Items that could be packed, each under a key of its own, are read as well. */
  lemma UnpackedReads(fields: seq<Field>, slots: seq<Slot>, i: nat, rest: Bytes)
    requires WellFormed(fields) && |slots| == |fields| && i < |fields| && fields[i].htype.Repeated? && Packable(fields[i].ltype)
    requires FitsSlot(fields[i], slots[i]) && |EncodeEach(fields[i], slots[i].vs)| < TWO_32
    ensures DecodeLoop(fields, EncodeEach(fields[i], slots[i].vs) + rest, Mixed(fields, slots, i), SeenTo(fields, i))
      == DecodeLoop(fields, rest, Mixed(fields, slots, i + 1), SeenTo(fields, i + 1))
  {
    hide DecodeLoop, WellFormed, EncodeEach, Mixed, SeenTo;
    FirstOfMany(fields, slots, i);
    EachReads(fields, Mixed(fields, slots, i), SeenTo(fields, i), i, slots[i].vs, [], rest);
    assert [] + slots[i].vs == slots[i].vs;
    NextMixed(fields, slots, i);
  }

  ghost function EncodeChunk(f: Field, vs: seq<Value>): Bytes
    requires Packable(f.ltype) && forall k | 0 <= k < |vs| :: Fits(f.ltype, vs[k])
  {
    var packed := EncodePacked(f.ltype, vs);
    Key(f, STRING_WIRE) + (Varint(|packed|) + packed)
  }

  /** A packed array goes behind the items that there are, so that it may come in parts. */
  lemma ChunkReads(fields: seq<Field>, m: seq<Slot>, seen: set<nat>, i: nat, vs: seq<Value>, done: seq<Value>, rest: Bytes)
    requires WellFormed(fields) && |m| == |fields| && i < |fields| && fields[i].htype.Repeated? && Packable(fields[i].ltype)
    requires (forall k | 0 <= k < |vs| :: Fits(fields[i].ltype, vs[k])) && |done| + |vs| <= fields[i].htype.arraySize
    requires |EncodePacked(fields[i].ltype, vs)| < TWO_32
    ensures DecodeLoop(fields, EncodeChunk(fields[i], vs) + rest, m[i := Many(done)], seen) == DecodeLoop(fields, rest, m[i := Many(done + vs)], seen)
  {
    hide DecodeLoop, DecodePacked, EncodePacked, Key, WellFormed, DecodeString, Fits;
    var f, held := fields[i], m[i := Many(done)];
    var packed := EncodePacked(f.ltype, vs);
    assert EncodeChunk(f, vs) + rest == Key(f, STRING_WIRE) + (Varint(|packed|) + packed + rest);
    LoopStep(fields, held, seen, i, STRING_WIRE, Varint(|packed|) + packed + rest);
    StringReads(packed, rest);
    PackedReads(f.ltype, vs, done, f.htype.arraySize);
    assert held[i := Many(done + vs)] == m[i := Many(done + vs)];
  }
}
