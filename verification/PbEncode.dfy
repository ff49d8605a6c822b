/** The encoder over output streams (nanopb: pb_encode.c, pb_common.c). A stream writes, or only counts. */
module PbEncode {
  import opened Coding
  import opened PbSchema
  import PbWire

  /** What encoding `e` does to a stream: it succeeds unless it is a writing stream without the room, and then
      counts, and writes, exactly `e`. */
  ghost predicate Wrote(writing: bool, maxSize: nat, before: nat, outBefore: Bytes, e: Bytes, ok: bool, after: nat, outAfter: Bytes)
    ensures Wrote(writing, maxSize, before, outBefore, e, ok, after, outAfter) && ok && writing ==> after <= maxSize
  {
    && (ok <==> !writing || before + |e| <= maxSize)
    && (ok ==> after == before + |e| && outAfter == if writing then outBefore + e else outBefore)
  }

  class OStream {
    const writing: bool
    const maxSize: nat
    var out: Bytes
    var bytesWritten: nat

    constructor (writing: bool, maxSize: nat, out: Bytes)
      ensures this.writing == writing && this.maxSize == maxSize && this.out == out && bytesWritten == 0
    {
      this.writing, this.maxSize, this.out, bytesWritten := writing, maxSize, out, 0;
    }

    predicate Valid()
      reads this
    {
      writing ==> bytesWritten <= maxSize
    }

    method Write(buf: Bytes) returns (ok: bool)
      modifies this
      ensures Wrote(writing, maxSize, old(bytesWritten), old(out), buf, ok, bytesWritten, out)
    {
      if writing {
        if bytesWritten + |buf| > maxSize {
          return false;
        }
        out := out + buf;
      }
      bytesWritten := bytesWritten + |buf|;
      return true;
    }

    /** A write without data, for a stream that only counts. */
    method Count(size: nat)
      requires !writing
      modifies this
      ensures bytesWritten == old(bytesWritten) + size && out == old(out)
    {
      bytesWritten := bytesWritten + size;
    }
  }

  /** Two successful writes are one; a failure of either is one of both. */
  lemma WroteTwice(writing: bool, maxSize: nat, b0: nat, o0: Bytes, d: Bytes, b1: nat, o1: Bytes, e: Bytes, ok: bool, b2: nat, o2: Bytes)
    requires Wrote(writing, maxSize, b0, o0, d, true, b1, o1) && Wrote(writing, maxSize, b1, o1, e, ok, b2, o2)
    ensures Wrote(writing, maxSize, b0, o0, d + e, ok, b2, o2)
  {
    assert o0 + d + e == o0 + (d + e);
  }

  lemma WroteNot(writing: bool, maxSize: nat, b0: nat, o0: Bytes, d: Bytes, b1: nat, o1: Bytes, e: Bytes)
    requires Wrote(writing, maxSize, b0, o0, d, false, b1, o1)
    ensures Wrote(writing, maxSize, b0, o0, d + e, false, b1, o1)
  {
  }

  lemma WroteNothing(writing: bool, maxSize: nat, b0: nat, o0: Bytes)
    requires b0 <= maxSize || !writing
    ensures Wrote(writing, maxSize, b0, o0, [], true, b0, o0)
  {
    assert o0 + [] == o0;
  }

  method EncodeVarint(stream: OStream, value: nat) returns (ok: bool)
    requires value < TWO_64
    modifies stream
    ensures Wrote(stream.writing, stream.maxSize, old(stream.bytesWritten), old(stream.out), Varint(value), ok, stream.bytesWritten, stream.out)
  {
    hide Wrote, Varint;
    VarintCase(value, value / 128);
    if value <= 0x7f {
      ok := stream.Write([value]);
      return;
    }
    var buffer: Bytes := [];
    var left: nat := value;
    ghost var front: Bytes, last: nat := [], 0;
    while left > 0
      invariant left > 0 ==> buffer == front && Varint(value) == front + Varint(left)
      invariant stream.bytesWritten == old(stream.bytesWritten) && stream.out == old(stream.out)
      invariant left == 0 ==> last < 128 && buffer == front + [last + 128] && Varint(value) == front + [last]
    {
      VarintCase(left, left / 128);
      front, last := buffer, left % 128;
      buffer := buffer + [left % 128 + 128];
      assert front + ([left % 128 + 128] + Varint(left / 128)) == buffer + Varint(left / 128);
      left := left / 128;
      if left > 0 {
        front := buffer;
      }
    }
    var i := |buffer|;
    buffer := buffer[..i - 1] + [buffer[i - 1] - 128];
    assert buffer == front + [last];
    ok := stream.Write(buffer);
  }

  method EncodeTag(stream: OStream, wireType: nat, f: Field) returns (ok: bool)
    requires f.tag < 0x2000_0000 && wireType < 8
    modifies stream
    ensures Wrote(stream.writing, stream.maxSize, old(stream.bytesWritten), old(stream.out), Key(f, wireType), ok, stream.bytesWritten, stream.out)
  {
    ok := EncodeVarint(stream, f.tag * 8 + wireType);
  }

  method EncodeString(stream: OStream, buffer: Bytes) returns (ok: bool)
    requires |buffer| < TWO_64
    modifies stream
    ensures Wrote(stream.writing, stream.maxSize, old(stream.bytesWritten), old(stream.out), Varint(|buffer|) + buffer, ok, stream.bytesWritten,
      stream.out)
  {
    hide Wrote, Varint;
    ghost var b0, o0 := stream.bytesWritten, stream.out;
    ok := EncodeVarint(stream, |buffer|);
    ghost var b1, o1 := stream.bytesWritten, stream.out;
    if !ok {
      WroteNot(stream.writing, stream.maxSize, b0, o0, Varint(|buffer|), b1, o1, buffer);
      return;
    }
    ok := stream.Write(buffer);
    WroteTwice(stream.writing, stream.maxSize, b0, o0, Varint(|buffer|), b1, o1, buffer, ok, stream.bytesWritten, stream.out);
  }

  /** The encoders of numbers, strings and bytes. */
  method EncodeScalar(stream: OStream, t: LType, v: Value) returns (ok: bool)
    requires Fits(t, v) && !t.Submessage?
    modifies stream
    ensures Wrote(stream.writing, stream.maxSize, old(stream.bytesWritten), old(stream.out), EncodeValue(t, v), ok, stream.bytesWritten, stream.out)
  {
    hide Wrote, Varint, EncodeFixed32, EncodeFixed64;
    match t
    case VarintType(_) => ok := EncodeVarint(stream, v.i % TWO_64);
    case UVarintType(_) => ok := EncodeVarint(stream, v.i);
    case SVarintType(_) =>
      ZigZagRoundTrip(v.i);
      ok := EncodeVarint(stream, ZigZag(v.i));
    case Fixed32Type => ok := stream.Write(EncodeFixed32(v.i));
    case Fixed64Type => ok := stream.Write(EncodeFixed64(v.i));
    case BytesType(_) => ok := EncodeString(stream, v.b);
    case StringType(dataSize) =>
      var size := StringLength(v.b, dataSize);
      assert v.b[..size] == v.b;
      ok := EncodeString(stream, v.b[..size]);
    case FixedLengthBytes(_) => ok := EncodeString(stream, v.b);
  }

  /** The characters before the terminating zero. */
  method StringLength(b: Bytes, maxSize: nat) returns (size: nat)
    ensures size <= |b| && size <= maxSize && forall i | 0 <= i < size :: b[i] != 0
    ensures size == |b| || size == maxSize || b[size] == 0
  {
    size := 0;
    while size < maxSize && size < |b| && b[size] != 0
      invariant size <= |b| && size <= maxSize && forall i | 0 <= i < size :: b[i] != 0
    {
      size := size + 1;
    }
  }

  /** A packed array: its size by counting first, unless items have one size. */
  method EncodePackedArray(stream: OStream, f: Field, vs: seq<Value>) returns (ok: bool)
    requires Packable(f.ltype) && 0 < f.tag < 0x2000_0000 && vs != [] && forall i | 0 <= i < |vs| :: Fits(f.ltype, vs[i])
    requires |EncodePacked(f.ltype, vs)| < TWO_64 && stream.Valid()
    modifies stream
    ensures var packed := EncodePacked(f.ltype, vs);
      Wrote(stream.writing, stream.maxSize, old(stream.bytesWritten), old(stream.out), Key(f, STRING_WIRE) + (Varint(|packed|) + packed), ok,
        stream.bytesWritten, stream.out)
  {
    hide Wrote, Varint, EncodePacked, EncodeValue, Key;
    ghost var w, m, b0, o0 := stream.writing, stream.maxSize, stream.bytesWritten, stream.out;
    ghost var packed := EncodePacked(f.ltype, vs);
    ghost var tail := Varint(|packed|) + packed;
    ok := EncodeTag(stream, STRING_WIRE, f);
    ghost var b1, o1 := stream.bytesWritten, stream.out;
    if !ok {
      WroteNot(w, m, b0, o0, Key(f, STRING_WIRE), b1, o1, tail);
      return;
    }
    var size;
    if f.ltype.Fixed32Type? {
      PackedSize(f.ltype, vs, 4);
      size := 4 * |vs|;
    } else if f.ltype.Fixed64Type? {
      PackedSize(f.ltype, vs, 8);
      size := 8 * |vs|;
    } else {
      var sizestream := new OStream(false, 0, []);
      var counted := EncodeItems(sizestream, f.ltype, vs);
      WroteCounts(0, 0, [], packed, counted, sizestream.bytesWritten, sizestream.out);
      size := sizestream.bytesWritten;
    }
    ok := EncodeVarint(stream, size);
    ghost var b2, o2 := stream.bytesWritten, stream.out;
    if !ok {
      WroteNot(w, m, b1, o1, Varint(|packed|), b2, o2, packed);
      WroteTwice(w, m, b0, o0, Key(f, STRING_WIRE), b1, o1, tail, false, b2, o2);
      return;
    }
    if !stream.writing {
      stream.Count(size);
      CountWrote(m, b2, o2, packed, stream.bytesWritten, stream.out);
    } else {
      ok := EncodeItems(stream, f.ltype, vs);
    }
    WroteTwice(w, m, b1, o1, Varint(|packed|), b2, o2, packed, ok, stream.bytesWritten, stream.out);
    WroteTwice(w, m, b0, o0, Key(f, STRING_WIRE), b1, o1, tail, ok, stream.bytesWritten, stream.out);
  }

  lemma WroteCounts(maxSize: nat, b0: nat, o0: Bytes, e: Bytes, ok: bool, b1: nat, o1: Bytes)
    requires Wrote(false, maxSize, b0, o0, e, ok, b1, o1)
    ensures ok && b1 == b0 + |e| && o1 == o0
  {
  }

  lemma CountWrote(maxSize: nat, b0: nat, o0: Bytes, e: Bytes, b1: nat, o1: Bytes)
    requires b1 == b0 + |e| && o1 == o0
    ensures Wrote(false, maxSize, b0, o0, e, true, b1, o1)
  {
  }

  lemma {:induction false} PackedSize(t: LType, vs: seq<Value>, n: nat)
    requires Packable(t) && (forall i | 0 <= i < |vs| :: Fits(t, vs[i])) && ((t.Fixed32Type? && n == 4) || (t.Fixed64Type? && n == 8))
    ensures |EncodePacked(t, vs)| == n * |vs|
    decreases |vs|
  {
    if vs != [] {
      PackedSize(t, vs[1..], n);
    }
  }

  lemma {:induction false} PackedConcat(t: LType, a: seq<Value>, b: seq<Value>)
    requires Packable(t) && (forall i | 0 <= i < |a| :: Fits(t, a[i])) && (forall i | 0 <= i < |b| :: Fits(t, b[i]))
    ensures EncodePacked(t, a + b) == EncodePacked(t, a) + EncodePacked(t, b)
    decreases |a|
  {
    hide EncodeValue, Fits;
    if a == [] {
      assert a + b == b;
      assert [] + EncodePacked(t, b) == EncodePacked(t, b);
    } else {
      assert (a + b)[1..] == a[1..] + b;
      PackedConcat(t, a[1..], b);
    }
  }

  lemma PackedOne(t: LType, v: Value)
    requires Packable(t) && Fits(t, v)
    ensures EncodePacked(t, [v]) == EncodeValue(t, v) && EncodePacked(t, []) == []
  {
    assert EncodePacked(t, [v][1..]) == [];
  }

  /** The items one after another. */
  method EncodeItems(stream: OStream, t: LType, vs: seq<Value>) returns (ok: bool)
    requires Packable(t) && (forall i | 0 <= i < |vs| :: Fits(t, vs[i])) && stream.Valid()
    modifies stream
    ensures Wrote(stream.writing, stream.maxSize, old(stream.bytesWritten), old(stream.out), EncodePacked(t, vs), ok, stream.bytesWritten, stream.out)
  {
    hide Wrote, EncodePacked, EncodeValue, Fits;
    ghost var w, m, b0, o0 := stream.writing, stream.maxSize, stream.bytesWritten, stream.out;
    NoItems(t);
    WroteNothing(w, m, b0, o0);
    assert vs[..0] == [];
    for i := 0 to |vs|
      invariant Wrote(w, m, b0, o0, EncodePacked(t, vs[..i]), true, stream.bytesWritten, stream.out)
    {
      ghost var b1, o1 := stream.bytesWritten, stream.out;
      var done := EncodeScalar(stream, t, vs[i]);
      WroteTwice(w, m, b0, o0, EncodePacked(t, vs[..i]), b1, o1, EncodeValue(t, vs[i]), done, stream.bytesWritten, stream.out);
      PackedOne(t, vs[i]);
      PackedConcat(t, vs[..i], [vs[i]]);
      assert vs[..i] + [vs[i]] == vs[..i + 1];
      if !done {
        PackedConcat(t, vs[..i + 1], vs[i + 1..]);
        assert vs[..i + 1] + vs[i + 1..] == vs;
        WroteNot(w, m, b0, o0, EncodePacked(t, vs[..i + 1]), stream.bytesWritten, stream.out, EncodePacked(t, vs[i + 1..]));
        return false;
      }
    }
    assert vs[..|vs|] == vs;
    ok := true;
  }

  lemma NoItems(t: LType)
    requires Packable(t)
    ensures EncodePacked(t, []) == []
  {
  }

  /** The field iterator: a walk over the fields that wraps round, and counts the required ones passed. */
  class FieldIter {
    const fields: seq<Field>
    var pos: nat
    var requiredFieldIndex: nat

    constructor (fields: seq<Field>)
      ensures Valid() && this.fields == fields && pos == 0
    {
      this.fields, pos, requiredFieldIndex := fields, 0, 0;
    }

    ghost predicate Valid()
      reads this
    {
      && (if fields == [] then pos == 0 else pos < |fields|)
      && requiredFieldIndex == PbWire.RequiredBefore(fields, pos)
    }

    /** To the next field; false on wrapping round to the first, and in an empty message. */
    method Next() returns (more: bool)
      requires Valid()
      modifies this
      ensures Valid() && (more <==> old(pos) + 1 < |fields|) && pos == if more then old(pos) + 1 else 0
    {
      if fields == [] {
        return false;
      }
      var prev := fields[pos];
      pos := pos + 1;
      if pos == |fields| {
        pos, requiredFieldIndex := 0, 0;
        return false;
      }
      if prev.htype.Required? {
        requiredFieldIndex := requiredFieldIndex + 1;
      }
      return true;
    }

    /** To the field with a tag, from where the iterator is and round; back to there if there is none. */
    method Find(tag: nat) returns (found: bool)
      requires Valid() && fields != []
      modifies this
      ensures Valid() && (found <==> exists i :: 0 <= i < |fields| && fields[i].tag == tag)
      ensures if found then fields[pos].tag == tag else pos == old(pos)
    {
      var start := pos;
      ghost var steps := 0;
      while true
        invariant Valid() && steps < |fields|
        invariant pos == if start + steps < |fields| then start + steps else start + steps - |fields|
        invariant forall i | start <= i < |fields| && i < start + steps :: fields[i].tag != tag
        invariant forall i | 0 <= i < start + steps - |fields| :: fields[i].tag != tag
        decreases |fields| - steps
      {
        if fields[pos].tag == tag {
          return true;
        }
        var _ := Next();
        steps := steps + 1;
        if pos == start {
          return false;
        }
      }
    }
  }

  lemma FromAt(fields: seq<Field>, slots: seq<Slot>, i: nat)
    requires FitsAll(fields, slots) && i <= |fields|
    ensures EncodeFrom(fields, slots, i) == if i == |fields| then [] else EncodeSlot(fields[i], slots[i]) + EncodeFrom(fields, slots, i + 1)
    ensures i < |fields| ==> FitsSlot(fields[i], slots[i])
  {
    hide EncodeSlot;
  }

  /** pb_encode: every field in turn. */
  method EncodeMessage(stream: OStream, fields: seq<Field>, slots: seq<Slot>) returns (ok: bool)
    requires WellFormed(fields) && FitsAll(fields, slots) && |Encode(fields, slots)| < TWO_64 && stream.Valid()
    modifies stream
    ensures Wrote(stream.writing, stream.maxSize, old(stream.bytesWritten), old(stream.out), Encode(fields, slots), ok, stream.bytesWritten, stream.out)
    decreases Weight(fields), 3, 0
  {
    hide Wrote, EncodeFrom, EncodeSlot, FitsAll, WellFormed, Weight;
    ghost var w, m, b0, o0 := stream.writing, stream.maxSize, stream.bytesWritten, stream.out;
    ghost var whole := EncodeFrom(fields, slots, 0);
    WroteNothing(w, m, b0, o0);
    FromAt(fields, slots, 0);
    if fields == [] {
      return true;
    }
    var iter := new FieldIter(fields);
    ghost var done: Bytes := [];
    assert done + EncodeFrom(fields, slots, 0) == whole;
    var more := true;
    while more
      invariant iter.Valid() && iter.fields == fields
      invariant Wrote(w, m, b0, o0, done, true, stream.bytesWritten, stream.out)
      invariant done + EncodeFrom(fields, slots, if more then iter.pos else |fields|) == whole
      decreases if more then |fields| - iter.pos else 0, more
    {
      ghost var i, b1, o1 := iter.pos, stream.bytesWritten, stream.out;
      FromAt(fields, slots, i);
      FitsAt(fields, slots, i);
      ghost var e, rest := EncodeSlot(fields[i], slots[i]), EncodeFrom(fields, slots, i + 1);
      assert done + (e + rest) == done + e + rest;
      var written := EncodeField(stream, fields, iter.pos, slots[iter.pos]);
      WroteTwice(w, m, b0, o0, done, b1, o1, e, written, stream.bytesWritten, stream.out);
      if !written {
        WroteNot(w, m, b0, o0, done + e, stream.bytesWritten, stream.out, rest);
        return false;
      }
      done := done + e;
      more := iter.Next();
    }
    FromAt(fields, slots, |fields|);
    assert done + [] == done;
    ok := true;
  }

  lemma FitsAt(fields: seq<Field>, slots: seq<Slot>, i: nat)
    requires FitsAll(fields, slots) && i < |fields|
    ensures |slots| == |fields| && FitsSlot(fields[i], slots[i])
  {
  }

  /** encode_basic_field, by how often the field occurs. */
  method EncodeField(stream: OStream, fields: seq<Field>, i: nat, s: Slot) returns (ok: bool)
    requires WellFormed(fields) && i < |fields| && FitsSlot(fields[i], s) && |EncodeSlot(fields[i], s)| < TWO_64 && stream.Valid()
    modifies stream
    ensures Wrote(stream.writing, stream.maxSize, old(stream.bytesWritten), old(stream.out), EncodeSlot(fields[i], s), ok, stream.bytesWritten,
      stream.out)
    decreases Weight(fields), 2, 0
  {
    hide Wrote, EncodeOne, EncodePacked, EncodeEach, WellFormed, IsZero;
    WroteNothing(stream.writing, stream.maxSize, stream.bytesWritten, stream.out);
    TagFits(fields, i);
    var f := fields[i];
    match f.htype
    case Required => ok := EncodeOnce(stream, fields, i, s.v);
    case Singular =>
      if IsZero(f.ltype, s.v) {
        ok := true;
      } else {
        ok := EncodeOnce(stream, fields, i, s.v);
      }
    case Optional =>
      if s.Present? {
        ok := EncodeOnce(stream, fields, i, s.v);
      } else {
        ok := true;
      }
    case Oneof(_) =>
      if s.Present? {
        ok := EncodeOnce(stream, fields, i, s.v);
      } else {
        ok := true;
      }
    case Repeated(_) =>
      // More items than there is room for are an error, which a fitting message does not have.
      if |s.vs| == 0 {
        ok := true;
      } else if Packable(f.ltype) {
        ok := EncodePackedArray(stream, f, s.vs);
      } else {
        ok := EncodeArray(stream, fields, i, s.vs);
      }
  }

  lemma TagFits(fields: seq<Field>, i: nat)
    requires WellFormed(fields) && i < |fields|
    ensures 0 < fields[i].tag < 0x2000_0000
  {
    assert WellFormedField(fields[i]);
  }

  /** A tag and a value. */
  method EncodeOnce(stream: OStream, fields: seq<Field>, i: nat, v: Value) returns (ok: bool)
    requires WellFormed(fields) && i < |fields| && Fits(fields[i].ltype, v) && |EncodeOne(fields[i], v)| < TWO_64 && stream.Valid()
    modifies stream
    ensures Wrote(stream.writing, stream.maxSize, old(stream.bytesWritten), old(stream.out), EncodeOne(fields[i], v), ok, stream.bytesWritten,
      stream.out)
    decreases Weight(fields), 0, 0
  {
    hide Wrote, Key, EncodeValue, WellFormed;
    var f := fields[i];
    ghost var w, m, b0, o0 := stream.writing, stream.maxSize, stream.bytesWritten, stream.out;
    TagFits(fields, i);
    WireTypeFits(f.ltype);
    ok := EncodeTag(stream, WireType(f.ltype), f);
    ghost var b1, o1 := stream.bytesWritten, stream.out;
    if !ok {
      WroteNot(w, m, b0, o0, Key(f, WireType(f.ltype)), b1, o1, EncodeValue(f.ltype, v));
      return;
    }
    WellFormedAt(fields, i);
    if f.ltype.Submessage? {
      MessageInValue(f.ltype, v);
      ok := EncodeSubmessage(stream, f.ltype.fields, v.slots);
    } else {
      ok := EncodeScalar(stream, f.ltype, v);
    }
    WroteTwice(w, m, b0, o0, Key(f, WireType(f.ltype)), b1, o1, EncodeValue(f.ltype, v), ok, stream.bytesWritten, stream.out);
  }

  lemma WireTypeFits(t: LType)
    ensures WireType(t) < 8
  {
  }

  lemma MessageInValue(t: LType, v: Value)
    requires t.Submessage? && Fits(t, v)
    ensures v.Message? && FitsAll(t.fields, v.slots)
    ensures EncodeValue(t, v) == Varint(|Encode(t.fields, v.slots)|) + Encode(t.fields, v.slots)
  {
  }

  lemma {:induction false} EachConcat(f: Field, a: seq<Value>, b: seq<Value>)
    requires (forall i | 0 <= i < |a| :: Fits(f.ltype, a[i])) && (forall i | 0 <= i < |b| :: Fits(f.ltype, b[i]))
    ensures EncodeEach(f, a + b) == EncodeEach(f, a) + EncodeEach(f, b)
    decreases |a|
  {
    hide EncodeValue, Fits, Key;
    if a == [] {
      assert a + b == b;
      assert [] + EncodeEach(f, b) == EncodeEach(f, b);
    } else {
      assert (a + b)[1..] == a[1..] + b;
      EachConcat(f, a[1..], b);
      var head := Key(f, WireType(f.ltype)) + EncodeValue(f.ltype, a[0]);
      assert head + (EncodeEach(f, a[1..]) + EncodeEach(f, b)) == head + EncodeEach(f, a[1..]) + EncodeEach(f, b);
    }
  }

  lemma EachOne(f: Field, v: Value)
    requires Fits(f.ltype, v)
    ensures EncodeEach(f, [v]) == EncodeOne(f, v) && EncodeEach(f, []) == []
  {
    assert EncodeEach(f, [v][1..]) == [];
  }

  /** An array whose items have their own tags. */
  method EncodeArray(stream: OStream, fields: seq<Field>, i: nat, vs: seq<Value>) returns (ok: bool)
    requires WellFormed(fields) && i < |fields| && (forall k | 0 <= k < |vs| :: Fits(fields[i].ltype, vs[k])) && stream.Valid()
    requires vs != [] && |EncodeEach(fields[i], vs)| < TWO_64
    modifies stream
    ensures Wrote(stream.writing, stream.maxSize, old(stream.bytesWritten), old(stream.out), EncodeEach(fields[i], vs), ok, stream.bytesWritten,
      stream.out)
    decreases Weight(fields), 1, 0
  {
    hide Wrote, EncodeEach, EncodeOne, WellFormed, Fits;
    var f := fields[i];
    ghost var w, m, b0, o0 := stream.writing, stream.maxSize, stream.bytesWritten, stream.out;
    EachOne(f, vs[0]);
    WroteNothing(w, m, b0, o0);
    assert vs[..0] == [];
    for k := 0 to |vs|
      invariant Wrote(w, m, b0, o0, EncodeEach(f, vs[..k]), true, stream.bytesWritten, stream.out)
    {
      ghost var b1, o1 := stream.bytesWritten, stream.out;
      EachOne(f, vs[k]);
      EachConcat(f, vs[..k], [vs[k]]);
      assert vs[..k] + [vs[k]] == vs[..k + 1];
      EachConcat(f, vs[..k + 1], vs[k + 1..]);
      assert vs[..k + 1] + vs[k + 1..] == vs;
      var done := EncodeOnce(stream, fields, i, vs[k]);
      WroteTwice(w, m, b0, o0, EncodeEach(f, vs[..k]), b1, o1, EncodeOne(f, vs[k]), done, stream.bytesWritten, stream.out);
      if !done {
        WroteNot(w, m, b0, o0, EncodeEach(f, vs[..k + 1]), stream.bytesWritten, stream.out, EncodeEach(f, vs[k + 1..]));
        return false;
      }
    }
    assert vs[..|vs|] == vs;
    ok := true;
  }

  /** A message with its length: counted first on a stream that does not write, then written on one that may
      write just as much. The sizes cannot differ. */
  method EncodeSubmessage(stream: OStream, fields: seq<Field>, slots: seq<Slot>) returns (ok: bool)
    requires WellFormed(fields) && FitsAll(fields, slots) && |Encode(fields, slots)| < TWO_64 && stream.Valid()
    modifies stream
    ensures var e := Encode(fields, slots);
      Wrote(stream.writing, stream.maxSize, old(stream.bytesWritten), old(stream.out), Varint(|e|) + e, ok, stream.bytesWritten, stream.out)
    decreases Weight(fields), 4, 0
  {
    hide Wrote, Varint, Encode, WellFormed, FitsAll;
    ghost var w, m, b0, o0, e := stream.writing, stream.maxSize, stream.bytesWritten, stream.out, Encode(fields, slots);
    var substream := new OStream(false, 0, []);
    var counted := EncodeMessage(substream, fields, slots);
    WroteCounts(0, 0, [], e, counted, substream.bytesWritten, substream.out);
    var size := substream.bytesWritten;
    ok := EncodeVarint(stream, size);
    ghost var b1, o1 := stream.bytesWritten, stream.out;
    if !ok {
      WroteNot(w, m, b0, o0, Varint(|e|), b1, o1, e);
      return;
    }
    if !stream.writing {
      stream.Count(size);
      CountWrote(m, b1, o1, e, stream.bytesWritten, stream.out);
    } else if stream.bytesWritten + size > stream.maxSize {
      StreamFull(m, b1, o1, e);
      ok := false;
    } else {
      substream := new OStream(true, size, stream.out);
      ok := EncodeMessage(substream, fields, slots);
      JustFits(size, o1, e, ok, substream.bytesWritten, substream.out);
      stream.bytesWritten := stream.bytesWritten + substream.bytesWritten;
      stream.out := substream.out;
      if substream.bytesWritten != size {
        // "submsg size changed"
        assert false;
      }
      WroteAll(m, b1, o1, e, stream.bytesWritten, stream.out);
    }
    WroteTwice(w, m, b0, o0, Varint(|e|), b1, o1, e, ok, stream.bytesWritten, stream.out);
  }

  lemma StreamFull(maxSize: nat, b0: nat, o0: Bytes, e: Bytes)
    requires b0 + |e| > maxSize
    ensures Wrote(true, maxSize, b0, o0, e, false, b0, o0)
  {
  }

  lemma JustFits(size: nat, o0: Bytes, e: Bytes, ok: bool, b1: nat, o1: Bytes)
    requires size == |e| && Wrote(true, size, 0, o0, e, ok, b1, o1)
    ensures ok && b1 == size && o1 == o0 + e
  {
  }

  lemma WroteAll(maxSize: nat, b0: nat, o0: Bytes, e: Bytes, b1: nat, o1: Bytes)
    requires b0 + |e| <= maxSize && b1 == b0 + |e| && o1 == o0 + e
    ensures Wrote(true, maxSize, b0, o0, e, true, b1, o1)
  {
  }

  /** pb_encode into a buffer, and pb_get_encoded_size: the size is that of what is written, and the encoder
      fails only for want of room. */
  method EncodeToBuffer(fields: seq<Field>, slots: seq<Slot>, bufsize: nat) returns (ok: bool, buffer: Bytes, size: nat)
    requires WellFormed(fields) && FitsAll(fields, slots) && |Encode(fields, slots)| < TWO_64
    ensures size == |Encode(fields, slots)|
    ensures ok <==> size <= bufsize
    ensures ok ==> buffer == Encode(fields, slots)
  {
    hide Encode, WellFormed, FitsAll;
    var sizing := new OStream(false, 0, []);
    var counted := EncodeMessage(sizing, fields, slots);
    size := sizing.bytesWritten;
    var stream := new OStream(true, bufsize, []);
    ok := EncodeMessage(stream, fields, slots);
    buffer := stream.out;
    assert ok ==> buffer == [] + Encode(fields, slots);
  }
}
