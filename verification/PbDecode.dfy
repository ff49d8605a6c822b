/** The decoder over input streams (nanopb: pb_decode.c). A stream is the bytes left of it. */
module PbDecode {
  import opened Keys
  import opened Coding
  import opened PbSchema
  import opened PbWire
  import opened PbEncode
  import opened PbRoundTrip
  import opened PbKeys
  import opened PbBounds
  import Blooms

  class IStream {
    var rest: Bytes

    constructor (bytes: Bytes)
      ensures rest == bytes
    {
      rest := bytes;
    }

    method ReadByte() returns (ok: bool, b: Byte)
      modifies this
      ensures ok <==> old(rest) != []
      ensures ok ==> b == old(rest)[0] && rest == old(rest)[1..]
      ensures !ok ==> rest == old(rest)
    {
      if rest == [] {
        return false, 0;
      }
      b := rest[0];
      rest := rest[1..];
      ok := true;
    }

    method Read(count: nat) returns (ok: bool, bytes: Bytes)
      modifies this
      ensures ok <==> count <= |old(rest)|
      ensures ok ==> bytes == old(rest)[..count] && rest == old(rest)[count..]
      ensures !ok ==> rest == old(rest)
    {
      if |rest| < count {
        return false, [];
      }
      bytes := rest[..count];
      rest := rest[count..];
      ok := true;
    }
  }

  /** The stream stands behind what the function has read, if it has. */
  ghost predicate Reads<T>(r: Option<Parsed<T>>, ok: bool, value: T, rest: Bytes) {
    (ok <==> r.Some?) && (ok ==> value == r.value.value && rest == r.value.rest)
  }

  method PbDecodeVarint32(stream: IStream) returns (ok: bool, dest: nat)
    modifies stream
    ensures Reads(DecodeVarint32(old(stream.rest)), ok, dest, stream.rest) && |stream.rest| <= |old(stream.rest)|
  {
    hide DecodeMore;
    ghost var s := stream.rest;
    var byte;
    ok, byte := stream.ReadByte();
    dest := byte;
    if !ok || byte < 128 {
      return;
    }
    var bitpos, factor: nat, result: nat := 7, 128, byte % 128;
    while true
      invariant DecodeVarint32(s) == DecodeMore(stream.rest, bitpos, factor, result) && |stream.rest| <= |s|
      decreases |stream.rest|
    {
      UnfoldMore(stream.rest, bitpos, factor, result);
      ok, byte := stream.ReadByte();
      if !ok {
        return;
      }
      if bitpos >= 32 {
        var signExtension: Byte := if bitpos < 63 then 0xff else 0x01;
        if byte % 128 != 0 && (result < 0x8000_0000 || byte != signExtension) {
          return false, 0;
        }
      } else {
        result := (result + byte % 128 * factor) % TWO_32;
      }
      bitpos, factor := bitpos + 7, 128 * factor;
      if byte < 128 {
        break;
      }
    }
    if bitpos == 35 && byte >= 16 {
      return false, 0;
    }
    dest := result;
  }

  lemma UnfoldMore(s: Bytes, bitpos: nat, factor: nat, result: nat)
    ensures DecodeMore(s, bitpos, factor, result) ==
      if s == [] then None
      else
        var byte := s[0];
        var sign: nat := if bitpos < 63 then 0xff else 1;
        if bitpos >= 32 && byte % 128 != 0 && (result < 0x8000_0000 || byte != sign) then None
        else
          var next := if bitpos >= 32 then result else (result + byte % 128 * factor) % TWO_32;
          if byte >= 128 then DecodeMore(s[1..], bitpos + 7, 128 * factor, next)
          else if bitpos + 7 == 35 && byte >= 16 then None
          else Some(Parsed(next, s[1..]))
  {
  }

  method PbDecodeVarint(stream: IStream) returns (ok: bool, dest: nat)
    modifies stream
    ensures Reads(GetVarint64(old(stream.rest)), ok, dest, stream.rest)
  {
    hide ReadVarint, Scaled;
    ghost var s := stream.rest;
    var result: nat, factor: nat, n: nat := 0, 1, 0;
    ghost var exact: nat := 0;
    CombineStart(ReadVarint(s, 10));
    while true
      invariant n <= 10 && result == exact % TWO_64
      invariant ReadVarint(s, 10) == Combine(exact, factor, ReadVarint(stream.rest, 10 - n))
      decreases 10 - n
    {
      // Seven bits a byte: the place of the eleventh would be past 64.
      if n == 10 {
        NothingToRead(stream.rest, 0);
        return false, 0;
      }
      ghost var before := stream.rest;
      var byte;
      ok, byte := stream.ReadByte();
      if !ok {
        NothingToRead(stream.rest, 10 - n);
        return false, 0;
      }
      CombineStep(exact, factor, before, 10 - n);
      var bits: nat := Scaled(byte % 128, factor);
      SumTruncated(exact, bits);
      result := (result + bits) % TWO_64;
      exact := exact + bits;
      if byte < 128 {
        return true, result;
      }
      factor, n := 128 * factor, n + 1;
    }
  }

  method PbSkipVarint(stream: IStream) returns (ok: bool)
    modifies stream
    ensures ok <==> SkipVarint(old(stream.rest)).Some?
    ensures ok ==> stream.rest == SkipVarint(old(stream.rest)).value
  {
    ghost var s := stream.rest;
    while true
      invariant SkipVarint(s) == SkipVarint(stream.rest)
      decreases |stream.rest|
    {
      var byte;
      ok, byte := stream.ReadByte();
      if !ok || byte < 128 {
        return;
      }
    }
  }

  /** A length and a stream of as many bytes; what the holder of that leaves unread is passed over. */
  method MakeStringSubstream(stream: IStream) returns (ok: bool, substream: IStream)
    modifies stream
    ensures fresh(substream) && Reads(DecodeString(old(stream.rest)), ok, substream.rest, stream.rest)
  {
    hide DecodeVarint32;
    var size;
    substream := new IStream([]);
    ok, size := PbDecodeVarint32(stream);
    if ok {
      var bytes;
      ok, bytes := stream.Read(size);
      substream.rest := bytes;
    }
  }

  method PbSkipField(stream: IStream, wireType: nat) returns (ok: bool)
    modifies stream
    ensures ok <==> Skip(wireType, old(stream.rest)).Some?
    ensures ok ==> stream.rest == Skip(wireType, old(stream.rest)).value
  {
    hide DecodeVarint32, SkipVarint;
    if wireType == VARINT_WIRE {
      ok := PbSkipVarint(stream);
    } else if wireType == FIXED64_WIRE {
      var skipped;
      ok, skipped := stream.Read(8);
    } else if wireType == STRING_WIRE {
      var length, bytes;
      ok, length := PbDecodeVarint32(stream);
      if ok {
        ok, bytes := stream.Read(length);
      }
    } else if wireType == FIXED32_WIRE {
      var skipped;
      ok, skipped := stream.Read(4);
    } else {
      ok := false;
    }
  }

  /** The decoders of numbers, strings and bytes. */
  method DecodeScalarValue(stream: IStream, t: LType) returns (ok: bool, v: Value)
    requires !t.Submessage?
    modifies stream
    ensures Reads(DecodeScalar(t, old(stream.rest)), ok, v, stream.rest)
  {
    hide DecodeVarint32, GetVarint64, DecodeFixed32, DecodeFixed64;
    v := Int(0);
    match t {
      case VarintType(size) =>
        var value;
        ok, value := PbDecodeVarint(stream);
        if ok {
          // Fields of 32 bits or less are cut to 32 first, to get the sign right.
          var svalue := if size == 8 then Signed(value, TWO_64) else Signed(value % TWO_32, TWO_32);
          ok, v := SignedFits(svalue, size), Int(svalue);
        }
      case UVarintType(size) =>
        var value;
        ok, value := PbDecodeVarint(stream);
        ok, v := ok && value < Span(size), Int(value);
      case SVarintType(size) =>
        var value;
        ok, value := PbDecodeVarint(stream);
        ok, v := ok && SignedFits(UnZigZag(value), size), Int(UnZigZag(value));
      case Fixed32Type =>
        var bytes;
        ok, bytes := stream.Read(4);
        if ok {
          v := Int(DecodeFixed32(bytes));
          SameFixed(old(stream.rest), bytes);
        }
      case Fixed64Type =>
        var bytes;
        ok, bytes := stream.Read(8);
        if ok {
          v := Int(DecodeFixed64(bytes));
          SameFixed(old(stream.rest), bytes);
        }
      case BytesType(max) =>
        var size, bytes;
        ok, size := PbDecodeVarint32(stream);
        if ok && size > max {
          ok := false;
        }
        if ok {
          ok, bytes := stream.Read(size);
          v := Blob(bytes);
        }
      case StringType(dataSize) =>
        var size, bytes;
        ok, size := PbDecodeVarint32(stream);
        if ok && size + 1 > dataSize {
          ok := false;
        }
        if ok {
          ok, bytes := stream.Read(size);
          v := Blob(bytes);
        }
      case FixedLengthBytes(dataSize) =>
        var size, bytes;
        ok, size := PbDecodeVarint32(stream);
        if ok {
          if size == 0 {
            v := Blob(Zeros(dataSize));
          } else if size != dataSize {
            ok := false;
          } else {
            ok, bytes := stream.Read(size);
            v := Blob(bytes);
          }
        }
    }
  }

  lemma SameFixed(s: Bytes, bytes: Bytes)
    ensures |s| >= 4 && bytes == s[..4] ==> DecodeFixed32(bytes) == DecodeFixed32(s)
    ensures |s| >= 8 && bytes == s[..8] ==> DecodeFixed64(bytes) == DecodeFixed64(s)
  {
    hide Unfixed;
    if |s| >= 4 && bytes == s[..4] {
      assert bytes[..4] == s[..4];
    }
    if |s| >= 8 && bytes == s[..8] {
      assert bytes[..8] == s[..8];
    }
  }

  /** The packed items of an array, as far as there is room. */
  method DecodePackedArray(stream: IStream, t: LType, vs: seq<Value>, arraySize: nat) returns (ok: bool, all: seq<Value>)
    requires !t.Submessage?
    modifies stream
    ensures var r := DecodePacked(t, old(stream.rest), vs, arraySize); (ok <==> r.Some?) && (ok ==> all == r.value)
  {
    hide DecodeScalar;
    ghost var s := stream.rest;
    all := vs;
    var status := true;
    while stream.rest != [] && |all| < arraySize
      invariant status && DecodePacked(t, s, vs, arraySize) == DecodePacked(t, stream.rest, all, arraySize)
      decreases |stream.rest|
    {
      var item;
      status, item := DecodeScalarValue(stream, t);
      if !status {
        break;
      }
      all := all + [item];
    }
    if status && stream.rest != [] {
      // "array overflow"
      return false, all;
    }
    ok := status;
  }

  /** One value; a message over what is held. */
  method DecodeValueOver(stream: IStream, t: LType, held: Value) returns (ok: bool, v: Value)
    requires t.Submessage? ==> WellFormed(t.fields)
    modifies stream
    ensures Reads(DecodeValue(t, old(stream.rest), held), ok, v, stream.rest)
    decreases |stream.rest|, 0
  {
    hide DecodeScalar, DecodeMessage, DecodeString, WellFormed;
    if !t.Submessage? {
      ok, v := DecodeScalarValue(stream, t);
      return;
    }
    var substream;
    ok, substream := MakeStringSubstream(stream);
    v := held;
    if !ok {
      return;
    }
    var slots := if held.Message? && |held.slots| == |t.fields| then held.slots else Defaults(t.fields);
    ok, slots := PbDecodeNoinit(substream, t.fields, slots);
    v := Message(slots);
  }

  /** decode_static_field. */
  method DecodeStaticField(stream: IStream, fields: seq<Field>, slots: seq<Slot>, i: nat, wireType: nat) returns (ok: bool, after: seq<Slot>)
    requires WellFormed(fields) && |slots| == |fields| && i < |fields|
    modifies stream
    ensures Reads(DecodeField(fields, slots, i, wireType, old(stream.rest)), ok, after, stream.rest) && |after| == |fields|
    decreases |stream.rest|, 1
  {
    hide DecodeValue, DecodePacked, DecodeString, ClearUnion, WellFormed;
    WellFormedAt(fields, i);
    var f := fields[i];
    var v;
    after := slots;
    match f.htype {
      case Required =>
        ok, v := DecodeValueOver(stream, f.ltype, Held(f, slots[i]));
        after := slots[i := Present(v)];
      case Optional =>
        ok, v := DecodeValueOver(stream, f.ltype, Held(f, slots[i]));
        after := slots[i := Present(v)];
      case Singular =>
        ok, v := DecodeValueOver(stream, f.ltype, Held(f, slots[i]));
        after := slots[i := Present(v)];
      case Repeated(arraySize) =>
        if wireType == STRING_WIRE && Packable(f.ltype) {
          var substream;
          ok, substream := MakeStringSubstream(stream);
          if ok {
            var items;
            ok, items := DecodePackedArray(substream, f.ltype, Items(slots[i]), arraySize);
            after := slots[i := Many(items)];
          }
        } else {
          if |Items(slots[i])| >= arraySize {
            return false, after;
          }
          ok, v := DecodeValueOver(stream, f.ltype, DefaultValue(f.ltype));
          after := slots[i := Many(Items(slots[i]) + [v])];
        }
      case Oneof(union) =>
        // The union's selector changes, and the data of a message is set to its defaults.
        ok, v := DecodeValueOver(stream, f.ltype, DefaultValue(f.ltype));
        after := ClearUnion(fields, slots, union)[i := Present(v)];
    }
  }

  /** The bits of the words are the places, among the required fields, of those seen. */
  ghost predicate Bits(fields: seq<Field>, seen: set<nat>, words: seq<nat>) {
    && |words| == 2 && words[0] < TWO_32 && words[1] < TWO_32
    && (forall i | i in seen :: i < |fields| && fields[i].htype.Required?)
    && (forall j: nat | j < MAX_REQUIRED_FIELDS :: Blooms.BitOf(words[j / 32], j % 32) <==> SeenAt(fields, seen, j))
  }

  ghost predicate SeenAt(fields: seq<Field>, seen: set<nat>, j: nat) {
    exists i :: i in seen && i < |fields| && RequiredBefore(fields, i) == j
  }

  lemma {:induction false} ZeroBits(i: nat)
    ensures !Blooms.BitOf(0, i)
  {
    if i > 0 {
      ZeroBits(i - 1);
    }
  }

  lemma NoneSeen(fields: seq<Field>)
    ensures Bits(fields, {}, [0, 0])
  {
    forall j: nat | j < MAX_REQUIRED_FIELDS ensures !Blooms.BitOf([0, 0][j / 32], j % 32) {
      ZeroBits(j % 32);
    }
  }

  lemma Word32()
    ensures Blooms.Power2(32) == TWO_32
  {
    assert Blooms.Power2(8) == 0x100;
    assert Blooms.Power2(16) == 0x1_0000;
    assert Blooms.Power2(24) == 0x100_0000;
  }

  /** A required field that is seen sets its bit, if it is among the first 64. */
  method MarkSeen(fields: seq<Field>, ghost seen: set<nat>, words: seq<nat>, ghost i: nat, index: nat) returns (r: seq<nat>)
    requires Bits(fields, seen, words) && i < |fields| && fields[i].htype.Required? && index == RequiredBefore(fields, i)
    ensures Bits(fields, seen + {i}, r)
  {
    r := words;
    if index < MAX_REQUIRED_FIELDS {
      Word32();
      Blooms.BitFits(words[index / 32], index % 32, 32);
      r := words[index / 32 := Blooms.WithBit(words[index / 32], index % 32)];
    }
    forall j: nat | j < MAX_REQUIRED_FIELDS ensures Blooms.BitOf(r[j / 32], j % 32) <==> SeenAt(fields, seen + {i}, j) {
      SeenMore(fields, seen, i, j);
      if index < MAX_REQUIRED_FIELDS && j / 32 == index / 32 {
        Blooms.BitsOf(words[index / 32], index % 32, j % 32);
      }
    }
  }

  lemma SeenMore(fields: seq<Field>, seen: set<nat>, i: nat, j: nat)
    requires i < |fields|
    ensures SeenAt(fields, seen + {i}, j) <==> SeenAt(fields, seen, j) || RequiredBefore(fields, i) == j
  {
    hide RequiredBefore;
    assert i in seen + {i};
    if k :| k in seen && k < |fields| && RequiredBefore(fields, k) == j {
      assert k in seen + {i};
    }
  }

  /** The set bits are the first `k`. */
  ghost predicate LowBits(w: nat, k: nat) {
    forall j: nat :: Blooms.BitOf(w, j) <==> j < k
  }

  lemma LowBitsHalf(w: nat, k: nat)
    requires k > 0
    ensures LowBits(w, k) <==> w % 2 == 1 && LowBits(w / 2, k - 1)
  {
    if LowBits(w, k) {
      assert Blooms.BitOf(w, 0);
      forall j: nat ensures Blooms.BitOf(w / 2, j) <==> j < k - 1 {
        assert Blooms.BitOf(w, j + 1) <==> Blooms.BitOf(w / 2, j);
      }
    }
    if w % 2 == 1 && LowBits(w / 2, k - 1) {
      forall j: nat ensures Blooms.BitOf(w, j) <==> j < k {
        assert j > 0 ==> (Blooms.BitOf(w, j) <==> Blooms.BitOf(w / 2, j - 1));
      }
    }
  }

  /** A word of `k` low ones is the one whose set bits are the first `k`. */
  lemma {:induction false} LowOnes(w: nat, k: nat)
    ensures w == Blooms.Power2(k) - 1 <==> LowBits(w, k)
    decreases k
  {
    if k == 0 {
      if w == 0 {
        forall j: nat ensures !Blooms.BitOf(w, j) {
          ZeroBits(j);
        }
      } else {
        var j := SomeBit(w);
      }
    } else {
      LowOnes(w / 2, k - 1);
      LowBitsHalf(w, k);
      assert w == Blooms.Power2(k) - 1 <==> w % 2 == 1 && w / 2 == Blooms.Power2(k - 1) - 1;
    }
  }

  lemma {:induction false} SomeBit(w: nat) returns (j: nat)
    requires w > 0
    ensures Blooms.BitOf(w, j)
  {
    if w % 2 == 1 {
      j := 0;
    } else {
      var k := SomeBit(w / 2);
      j := k + 1;
    }
  }

  lemma {:induction false} HighBitsClear(w: nat, n: nat, j: nat)
    requires w < Blooms.Power2(n) && j >= n
    ensures !Blooms.BitOf(w, j)
  {
    if j > 0 {
      if n > 0 {
        HighBitsClear(w / 2, n - 1, j - 1);
      } else {
        ZeroBits(j);
      }
    }
  }

  /** The set bits of a 32-bit word are its low `k`. */
  ghost predicate LowBits32(w: nat, k: nat) {
    forall j: nat | j < 32 :: Blooms.BitOf(w, j) <==> j < k
  }

  lemma WordIsFull(w: nat, k: nat)
    requires w < TWO_32 && k <= 32
    ensures w == Blooms.Power2(k) - 1 <==> LowBits32(w, k)
  {
    hide Blooms.Power2, Blooms.BitOf;
    Word32();
    LowOnes(w, k);
    if LowBits32(w, k) {
      forall j: nat ensures Blooms.BitOf(w, j) <==> j < k {
        if j >= 32 {
          HighBitsClear(w, 32, j);
        }
      }
    }
  }

  lemma {:induction false} RequiredGrows(fields: seq<Field>, i: nat, k: nat)
    requires i <= k <= |fields|
    ensures RequiredBefore(fields, i) <= RequiredBefore(fields, k)
    ensures i < k && fields[i].htype.Required? ==> RequiredBefore(fields, i) < RequiredBefore(fields, k)
    decreases k
  {
    if i < k {
      RequiredGrows(fields, i, k - 1);
    }
  }

  /** Some required field is at each place below their number. */
  lemma {:induction false} RequiredAt(fields: seq<Field>, n: nat, j: nat) returns (i: nat)
    requires n <= |fields| && j < RequiredBefore(fields, n)
    ensures i < n && fields[i].htype.Required? && RequiredBefore(fields, i) == j
  {
    if j == RequiredBefore(fields, n - 1) {
      i := n - 1;
    } else {
      i := RequiredAt(fields, n - 1, j);
    }
  }

  function Least(a: nat, b: nat): nat {
    if a < b then a else b
  }

  /** All required fields that count have been seen when the places of all of them have. */
  lemma AllSeenMeans(fields: seq<Field>, seen: set<nat>, words: seq<nat>)
    requires Bits(fields, seen, words)
    ensures var n := Least(RequiredBefore(fields, |fields|), MAX_REQUIRED_FIELDS);
      && (forall j: nat | n <= j < MAX_REQUIRED_FIELDS :: !SeenAt(fields, seen, j))
      && (AllSeen(fields, seen) <==> forall j: nat | j < n :: SeenAt(fields, seen, j))
  {
    hide RequiredBefore, Bits;
    var count := RequiredBefore(fields, |fields|);
    var n := Least(count, MAX_REQUIRED_FIELDS);
    SeenRequired(fields, seen, words);
    forall j: nat | n <= j < MAX_REQUIRED_FIELDS ensures !SeenAt(fields, seen, j) {
      if i :| i in seen && i < |fields| && RequiredBefore(fields, i) == j {
        RequiredGrows(fields, i, |fields|);
      }
    }
    if AllSeen(fields, seen) {
      forall j: nat | j < n ensures SeenAt(fields, seen, j) {
        var i := RequiredAt(fields, |fields|, j);
        assert i in seen;
      }
    }
    if forall j: nat | j < n :: SeenAt(fields, seen, j) {
      forall i: nat | i < |fields| && fields[i].htype.Required? && RequiredBefore(fields, i) < MAX_REQUIRED_FIELDS ensures i in seen {
        RequiredGrows(fields, i, |fields|);
        assert SeenAt(fields, seen, RequiredBefore(fields, i));
        var k :| k in seen && k < |fields| && RequiredBefore(fields, k) == RequiredBefore(fields, i);
        if k < i {
          RequiredGrows(fields, k, i);
        } else if i < k {
          RequiredGrows(fields, i, k);
        }
      }
    }
  }

  lemma SeenRequired(fields: seq<Field>, seen: set<nat>, words: seq<nat>)
    requires Bits(fields, seen, words)
    ensures forall i | i in seen :: i < |fields| && fields[i].htype.Required?
  {
  }

  /** A place in a word of the bitmap. */
  ghost predicate InWord(fields: seq<Field>, seen: set<nat>, a: nat, j: nat) {
    SeenAt(fields, seen, 32 * a + j)
  }

  /** One word of the bitmap, of which `k` places count. */
  lemma WordDecides(fields: seq<Field>, seen: set<nat>, words: seq<nat>, a: nat, k: nat)
    requires Bits(fields, seen, words) && a < 2 && k <= 32
    requires forall j: nat | k <= j < 32 :: !InWord(fields, seen, a, j)
    ensures words[a] == Blooms.Power2(k) - 1 <==> forall j: nat | j < k :: InWord(fields, seen, a, j)
  {
    hide SeenAt, RequiredBefore;
    hide InWord, Blooms.BitOf, Blooms.Power2;
    WordIsFull(words[a], k);
    forall j: nat | j < 32 ensures Blooms.BitOf(words[a], j) <==> InWord(fields, seen, a, j) {
      PlaceInWord(fields, seen, words, a, j);
    }
    if forall j: nat | j < k :: InWord(fields, seen, a, j) {
      forall j: nat | j < 32 ensures Blooms.BitOf(words[a], j) <==> j < k {
        assert Blooms.BitOf(words[a], j) <==> InWord(fields, seen, a, j);
      }
    }
    if LowBits32(words[a], k) {
      forall j: nat | j < k ensures InWord(fields, seen, a, j) {
        assert Blooms.BitOf(words[a], j);
      }
    }
  }

  lemma PlaceInWord(fields: seq<Field>, seen: set<nat>, words: seq<nat>, a: nat, j: nat)
    requires Bits(fields, seen, words) && a < 2 && j < 32
    ensures Blooms.BitOf(words[a], j) <==> InWord(fields, seen, a, j)
  {
    hide SeenAt;
    var place := 32 * a + j;
    assert place / 32 == a && place % 32 == j;
  }

  lemma Places(fields: seq<Field>, seen: set<nat>, n: nat)
    requires n <= MAX_REQUIRED_FIELDS
    ensures (forall j: nat | j < n :: SeenAt(fields, seen, j)) <==>
      (forall j: nat | j < Least(n, 32) :: InWord(fields, seen, 0, j)) && (forall j: nat | 32 + j < n :: InWord(fields, seen, 1, j))
  {
    hide SeenAt;
    if forall j: nat | j < n :: SeenAt(fields, seen, j) {
      forall j: nat | j < Least(n, 32) ensures InWord(fields, seen, 0, j) {
      }
      forall j: nat | 32 + j < n ensures InWord(fields, seen, 1, j) {
        assert SeenAt(fields, seen, 32 + j);
      }
    }
    if (forall j: nat | j < Least(n, 32) :: InWord(fields, seen, 0, j)) && (forall j: nat | 32 + j < n :: InWord(fields, seen, 1, j)) {
      forall j: nat | j < n ensures SeenAt(fields, seen, j) {
        assert if j < 32 then InWord(fields, seen, 0, j) else InWord(fields, seen, 1, j - 32);
      }
    }
  }

  /** The test of the bitmap against the number of required fields. */
  lemma WordsDecide(fields: seq<Field>, seen: set<nat>, words: seq<nat>, n: nat)
    requires Bits(fields, seen, words) && n == Least(RequiredBefore(fields, |fields|), MAX_REQUIRED_FIELDS)
    ensures AllSeen(fields, seen) <==>
      && (forall i: nat | i < n / 32 :: words[i] == TWO_32 - 1)
      && (n % 32 != 0 ==> words[n / 32] == Blooms.Power2(n % 32) - 1)
  {
    hide AllSeen, SeenAt, RequiredBefore, Bits;
    AllSeenMeans(fields, seen, words);
    Word32();
    TwoWords(fields, seen, words);
    Places(fields, seen, n);
    forall j: nat | n <= 32 + j < MAX_REQUIRED_FIELDS ensures !InWord(fields, seen, 1, j) {
      assert !SeenAt(fields, seen, 32 + j);
    }
    forall j: nat | n <= j < 32 ensures !InWord(fields, seen, 0, j) {
      assert !SeenAt(fields, seen, j);
    }
    ZeroPower();
    WordDecides(fields, seen, words, 0, Least(n, 32));
    WordDecides(fields, seen, words, 1, if n < 32 then 0 else n - 32);
  }

  lemma ZeroPower()
    ensures Blooms.Power2(0) == 1
  {
  }

  lemma TwoWords(fields: seq<Field>, seen: set<nat>, words: seq<nat>)
    requires Bits(fields, seen, words)
    ensures |words| == 2 && words[0] < TWO_32 && words[1] < TWO_32
  {
  }

  /** The end of pb_decode_noinit: the number of required fields, by walking to the end, and their bits. */
  method CheckRequired(iter: FieldIter, ghost seen: set<nat>, words: seq<nat>) returns (ok: bool)
    requires iter.Valid() && Bits(iter.fields, seen, words)
    modifies iter
    ensures ok <==> AllSeen(iter.fields, seen)
  {
    hide AllSeen, Bits;
    var count, lastRequired := 0, false;
    var more := true;
    while more
      invariant iter.Valid()
      invariant !more ==> count + (if lastRequired then 1 else 0) == RequiredBefore(iter.fields, |iter.fields|)
      decreases if more then |iter.fields| - iter.pos else 0, more
    {
      count := iter.requiredFieldIndex;
      lastRequired := if iter.fields == [] then false else iter.fields[iter.pos].htype.Required?;
      more := iter.Next();
    }
    if lastRequired {
      count := count + 1;
    }
    if count > MAX_REQUIRED_FIELDS {
      count := MAX_REQUIRED_FIELDS;
    }
    WordsDecide(iter.fields, seen, words, count);
    TwoWords(iter.fields, seen, words);
    for i := 0 to count / 32
      invariant forall k: nat | k < i :: words[k] == TWO_32 - 1
    {
      if words[i] != TWO_32 - 1 {
        return false;
      }
    }
    if count % 32 != 0 && words[count / 32] != Ones(count % 32) {
      return false;
    }
    return true;
  }

  /** All bits, shifted right so that `k` are left. */
  function Ones(k: nat): (r: nat)
    requires 0 < k <= 32
    ensures r == Blooms.Power2(k) - 1
  {
    Word32();
    OnesLeft(k);
    (TWO_32 - 1) / Blooms.Power2(32 - k)
  }

  lemma {:induction false} PowerSum(a: nat, b: nat)
    ensures Blooms.Power2(a + b) == Blooms.Power2(a) * Blooms.Power2(b) && Blooms.Power2(a) > 0
  {
    if a > 0 {
      PowerSum(a - 1, b);
    }
  }

  lemma OnesLeft(k: nat)
    requires k <= 32
    ensures Blooms.Power2(32 - k) > 0 && (TWO_32 - 1) / Blooms.Power2(32 - k) == Blooms.Power2(k) - 1
  {
    hide Blooms.Power2;
    Word32();
    PowerSum(32 - k, k);
    PowerSum(k, 32 - k);
    var p, q := Blooms.Power2(32 - k), Blooms.Power2(k);
    assert TWO_32 - 1 == p * (q - 1) + (p - 1);
    Quotient(TWO_32 - 1, p, q - 1, p - 1);
  }

  lemma Quotient(x: nat, p: nat, q: nat, r: nat)
    requires p > 0 && r < p && x == p * q + r
    ensures x / p == q
  {
    var d := x / p - q;
    assert p * d < p && p * d > -(p as int) by {
      assert p * d == p * (x / p) - p * q;
    }
    assert d >= 1 ==> p * d >= p;
    assert d <= -1 ==> p * d <= -(p as int);
  }

  lemma UnfoldLoop(fields: seq<Field>, s: Bytes, slots: seq<Slot>, seen: set<nat>)
    requires |slots| == |fields| && s != []
    ensures DecodeLoop(fields, s, slots, seen) ==
      match DecodeVarint32(s)
      case None => None
      case Some(key) =>
        if key.value == 0 then Some(Seen(slots, seen))
        else
          match FindField(fields, key.value / 8, 0)
          case None =>
            (if fields == [] && key.value / 8 == 0 then None
             else match Skip(key.value % 8, key.rest)
               case None => None
               case Some(rest) => DecodeLoop(fields, rest, slots, seen))
          case Some(i) =>
            match DecodeField(fields, slots, i, key.value % 8, key.rest)
            case None => None
            case Some(p) => DecodeLoop(fields, p.rest, p.value, if fields[i].htype.Required? then seen + {i} else seen)
  {
    hide DecodeVarint32, FindField, Skip, DecodeField;
  }

  /** The iterator finds the field that a search from the first does. */
  lemma FindIs(fields: seq<Field>, tag: nat, found: bool, pos: nat)
    requires WellFormed(fields) && (found <==> exists i :: 0 <= i < |fields| && fields[i].tag == tag)
    requires found ==> pos < |fields| && fields[pos].tag == tag
    ensures FindField(fields, tag, 0) == if found then Some(pos) else None
  {
    hide FindField;
    var r := FindField(fields, tag, 0);
    if found && r.Some? {
      assert fields[r.value].tag == fields[pos].tag;
    }
  }

  /** pb_decode_noinit: fields in any order, each into its place, and no required one missing. */
  method PbDecodeNoinit(stream: IStream, fields: seq<Field>, slots: seq<Slot>) returns (ok: bool, dest: seq<Slot>)
    requires WellFormed(fields) && |slots| == |fields|
    modifies stream
    ensures var r := DecodeMessage(fields, old(stream.rest), slots); (ok <==> r.Some?) && (ok ==> dest == r.value)
    ensures |dest| == |fields| && (ok ==> HasRequired(fields, old(stream.rest)))
    decreases |stream.rest|, 3
  {
    hide DecodeLoop, AllSeen, Bits, DecodeField, DecodeVarint32, Skip, FindField, WellFormed, HasRequired;
    ghost var s := stream.rest;
    SucceedsIffRequired(fields, s, slots);
    var fieldsSeen: seq<nat> := [0, 0];
    ghost var seen: set<nat> := {};
    NoneSeen(fields);
    var iter := new FieldIter(fields);
    dest := slots;
    while stream.rest != []
      invariant iter.Valid() && iter.fields == fields && |dest| == |fields| && |stream.rest| <= |s|
      invariant Bits(fields, seen, fieldsSeen)
      invariant DecodeLoop(fields, s, slots, {}) == DecodeLoop(fields, stream.rest, dest, seen)
      decreases |stream.rest|
    {
      UnfoldLoop(fields, stream.rest, dest, seen);
      var key;
      ok, key := PbDecodeVarint32(stream);
      if !ok {
        return;
      }
      if key == 0 {
        break;
      }
      var tag, wireType := key / 8, key % 8;
      var found := false;
      if fields != [] {
        found := iter.Find(tag);
      } else if tag == 0 {
        // The terminator of an empty message: not part of this model.
        FindIs(fields, tag, false, 0);
        return false, dest;
      }
      FindIs(fields, tag, found, iter.pos);
      if !found {
        ok := PbSkipField(stream, wireType);
        if !ok {
          return;
        }
      } else {
        if fields[iter.pos].htype.Required? {
          fieldsSeen := MarkSeen(fields, seen, fieldsSeen, iter.pos, iter.requiredFieldIndex);
          seen := seen + {iter.pos};
        }
        ok, dest := DecodeStaticField(stream, fields, dest, iter.pos, wireType);
        if !ok {
          return;
        }
      }
    }
    LoopEnds(fields, dest, seen);
    ok := CheckRequired(iter, seen, fieldsSeen);
  }

  /** pb_decode: into a struct set to its defaults. */
  method PbDecode(stream: IStream, fields: seq<Field>) returns (ok: bool, dest: seq<Slot>)
    requires WellFormed(fields)
    modifies stream
    ensures var r := Decode(fields, old(stream.rest)); (ok <==> r.Some?) && (ok ==> dest == r.value)
    ensures ok ==> HasRequired(fields, old(stream.rest)) && AllHaveRoom(fields, dest)
  {
    hide DecodeMessage, WellFormed, HasRequired, AllHaveRoom;
    DecodedHasRoom(fields, stream.rest);
    ok, dest := PbDecodeNoinit(stream, fields, Defaults(fields));
  }

  /** A message written to a buffer with room for it and read from there is the message. */
  method EncodeAndDecode(fields: seq<Field>, slots: seq<Slot>, bufsize: nat) returns (ok: bool, dest: seq<Slot>)
    requires WellFormed(fields) && FitsAll(fields, slots) && |Encode(fields, slots)| < TWO_32
    ensures ok <==> |Encode(fields, slots)| <= bufsize
    ensures ok ==> dest == slots
  {
    hide Encode, FitsAll, WellFormed, Decode;
    var buffer, size;
    ok, buffer, size := EncodeToBuffer(fields, slots, bufsize);
    dest := Defaults(fields);
    if ok {
      RoundTrip(fields, slots);
      var stream := new IStream(buffer);
      ok, dest := PbDecode(stream, fields);
    }
  }
}
