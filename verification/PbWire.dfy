/** What a decoder makes of the bytes of a message (nanopb: pb_decode.c), as functions. */
module PbWire {
  import opened Keys
  import opened Coding
  import opened PbSchema

  const MAX_REQUIRED_FIELDS: nat := 64

  /** A number of at most 32 bits. Bytes past the fifth may only extend the sign. */
  function DecodeVarint32(s: Bytes): (r: Option<Parsed<nat>>)
    ensures r.Some? ==> |r.value.rest| < |s|
  {
    if s == [] then None
    else if s[0] < 128 then Some(Parsed(s[0], s[1..]))
    else DecodeMore(s[1..], 7, 128, s[0] - 128)
  }

  /** The loop over the bytes after the first: `factor` is 2 to the power of `bitpos` as long as that counts. */
  function DecodeMore(s: Bytes, bitpos: nat, factor: nat, result: nat): (r: Option<Parsed<nat>>)
    ensures r.Some? ==> |r.value.rest| < |s|
  {
    if s == [] then None
    else
      var byte := s[0];
      var sign: nat := if bitpos < 63 then 0xff else 1;
      if bitpos >= 32 && byte % 128 != 0 && (result < 0x8000_0000 || byte != sign) then None
      else
        var next := if bitpos >= 32 then result else (result + byte % 128 * factor) % TWO_32;
        if byte >= 128 then DecodeMore(s[1..], bitpos + 7, 128 * factor, next)
        else if bitpos + 7 == 35 && byte >= 16 then None
        else Some(Parsed(next, s[1..]))
  }

  function Signed(value: nat, span: nat): int
  {
    if value < span / 2 then value else value - span
  }

  /** A number that the field's size can hold. */
  predicate SignedFits(i: int, size: nat) {
    -(Span(size) as int) <= 2 * i < Span(size)
  }

  /** A length, and as many bytes as it says. */
  function DecodeString(s: Bytes): (r: Option<Parsed<Bytes>>)
    ensures r.Some? ==> |r.value.rest| + |r.value.value| < |s|
  {
    match DecodeVarint32(s)
    case None => None
    case Some(p) => if |p.rest| < p.value then None else Some(Parsed(p.rest[..p.value], p.rest[p.value..]))
  }

  /** A value that is no message. */
  function DecodeScalar(t: LType, s: Bytes): (r: Option<Parsed<Value>>)
    requires !t.Submessage?
    ensures r.Some? ==> |r.value.rest| < |s|
  {
    match t
    case VarintType(size) =>
      (match GetVarint64(s)
       case None => None
       case Some(p) =>
         var value := if size == 8 then Signed(p.value, TWO_64) else Signed(p.value % TWO_32, TWO_32);
         if SignedFits(value, size) then Some(Parsed(Int(value), p.rest)) else None)
    case UVarintType(size) =>
      (match GetVarint64(s)
       case None => None
       case Some(p) => if p.value < Span(size) then Some(Parsed(Int(p.value), p.rest)) else None)
    case SVarintType(size) =>
      (match GetVarint64(s)
       case None => None
       case Some(p) =>
         var value := UnZigZag(p.value); if SignedFits(value, size) then Some(Parsed(Int(value), p.rest)) else None)
    case Fixed32Type => if |s| < 4 then None else Some(Parsed(Int(DecodeFixed32(s)), s[4..]))
    case Fixed64Type => if |s| < 8 then None else Some(Parsed(Int(DecodeFixed64(s)), s[8..]))
    case BytesType(max) =>
      (match DecodeVarint32(s)
       case None => None
       case Some(p) =>
         if p.value > max || |p.rest| < p.value then None else Some(Parsed(Blob(p.rest[..p.value]), p.rest[p.value..])))
    case StringType(dataSize) =>
      (match DecodeVarint32(s)
       case None => None
       case Some(p) =>
         if p.value + 1 > dataSize || |p.rest| < p.value then None else Some(Parsed(Blob(p.rest[..p.value]), p.rest[p.value..])))
    case FixedLengthBytes(size) =>
      (match DecodeVarint32(s)
       case None => None
       case Some(p) =>
         if p.value == 0 then Some(Parsed(Blob(Zeros(size)), p.rest))
         else if p.value != size || |p.rest| < p.value then None
         else Some(Parsed(Blob(p.rest[..p.value]), p.rest[p.value..])))
  }

  /** The items of a packed array, after those there are. */
  function DecodePacked(t: LType, s: Bytes, vs: seq<Value>, arraySize: nat): Option<seq<Value>>
    requires !t.Submessage?
    decreases |s|
  {
    if s == [] then Some(vs)
    else if |vs| >= arraySize then None
    else match DecodeScalar(t, s)
      case None => None
      case Some(p) => DecodePacked(t, p.rest, vs + [p.value], arraySize)
  }

  /** The place of the field with a tag. */
  function FindField(fields: seq<Field>, tag: nat, from: nat): (r: Option<nat>)
    requires from <= |fields|
    ensures r.Some? ==> from <= r.value < |fields| && fields[r.value].tag == tag
    ensures r == None ==> forall i | from <= i < |fields| :: fields[i].tag != tag
    decreases |fields| - from
  {
    if from == |fields| then None else if fields[from].tag == tag then Some(from) else FindField(fields, tag, from + 1)
  }

  /** Passing over a field that is not in the message. */
  function Skip(wireType: nat, s: Bytes): (r: Option<Bytes>)
    ensures r.Some? ==> |r.value| <= |s|
  {
    if wireType == VARINT_WIRE then SkipVarint(s)
    else if wireType == FIXED64_WIRE then (if |s| < 8 then None else Some(s[8..]))
    else if wireType == STRING_WIRE then (match DecodeString(s) case None => None case Some(p) => Some(p.rest))
    else if wireType == FIXED32_WIRE then (if |s| < 4 then None else Some(s[4..]))
    else None
  }

  function SkipVarint(s: Bytes): (r: Option<Bytes>)
    ensures r.Some? ==> |r.value| <= |s|
  {
    if s == [] then None else if s[0] < 128 then Some(s[1..]) else SkipVarint(s[1..])
  }

  /** What a slot holds for a value to be read over. */
  function Held(f: Field, s: Slot): Value {
    if s.Present? then s.v else DefaultValue(f.ltype)
  }

  function Items(s: Slot): seq<Value> {
    if s.Many? then s.vs else []
  }

  /** All fields of a union become absent. */
  function ClearUnion(fields: seq<Field>, slots: seq<Slot>, union: nat): (r: seq<Slot>)
    requires |slots| == |fields|
    ensures |r| == |slots| && forall i | 0 <= i < |slots| :: r[i] == if fields[i].htype == Oneof(union) then Absent else slots[i]
  {
    seq(|slots|, i requires 0 <= i < |slots| => if fields[i].htype == Oneof(union) then Absent else slots[i])
  }

  datatype Seen = Seen(slots: seq<Slot>, seen: set<nat>)

  /** A value, a message read over what is held. */
  function DecodeValue(t: LType, s: Bytes, held: Value): (r: Option<Parsed<Value>>)
    ensures r.Some? ==> |r.value.rest| < |s|
    decreases |s|, 0
  {
    if !t.Submessage? then DecodeScalar(t, s)
    else match DecodeString(s)
      case None => None
      case Some(p) =>
        var slots := if held.Message? && |held.slots| == |t.fields| then held.slots else Defaults(t.fields);
        match DecodeMessage(t.fields, p.value, slots)
        case None => None
        case Some(r) => Some(Parsed(Message(r), p.rest))
  }

  /** One occurrence of field `i`. */
  function DecodeField(fields: seq<Field>, slots: seq<Slot>, i: nat, wireType: nat, s: Bytes): (r: Option<Parsed<seq<Slot>>>)
    requires |slots| == |fields| && i < |fields|
    ensures r.Some? ==> |r.value.rest| <= |s| && |r.value.value| == |fields|
    decreases |s|, 1
  {
    var f := fields[i];
    match f.htype
    case Repeated(arraySize) =>
      (if wireType == STRING_WIRE && Packable(f.ltype) then
         match DecodeString(s)
         case None => None
         case Some(p) =>
           match DecodePacked(f.ltype, p.value, Items(slots[i]), arraySize)
           case None => None
           case Some(vs) => Some(Parsed(slots[i := Many(vs)], p.rest))
       else if |Items(slots[i])| >= arraySize then None
       else
         match DecodeValue(f.ltype, s, DefaultValue(f.ltype))
         case None => None
         case Some(p) => Some(Parsed(slots[i := Many(Items(slots[i]) + [p.value])], p.rest)))
    case Oneof(union) =>
      (match DecodeValue(f.ltype, s, DefaultValue(f.ltype))
       case None => None
       case Some(p) => Some(Parsed(ClearUnion(fields, slots, union)[i := Present(p.value)], p.rest)))
    case _ =>
      (match DecodeValue(f.ltype, s, Held(f, slots[i]))
       case None => None
       case Some(p) => Some(Parsed(slots[i := Present(p.value)], p.rest)))
  }

  /** All fields up to the end or a zero key. A key of tag zero, which an empty message would take for its
      terminator, counts as a failure there. */
  function DecodeLoop(fields: seq<Field>, s: Bytes, slots: seq<Slot>, seen: set<nat>): (r: Option<Seen>)
    requires |slots| == |fields|
    ensures r.Some? ==> |r.value.slots| == |fields|
    decreases |s|, 2
  {
    if s == [] then Some(Seen(slots, seen))
    else match DecodeVarint32(s)
      case None => None
      case Some(key) =>
        if key.value == 0 then Some(Seen(slots, seen))
        else
          match FindField(fields, key.value / 8, 0)
          case None =>
            (if fields == [] && key.value / 8 == 0 then None
             else match Skip(key.value % 8, key.rest)
               case None => None
               case Some(rest) => DecodeLoop(fields, rest, slots, seen))
          case Some(i) =>
            match DecodeField(fields, slots, i, key.value % 8, key.rest)
            case None => None
            case Some(p) => DecodeLoop(fields, p.rest, p.value, if fields[i].htype.Required? then seen + {i} else seen)
  }

  /** How many required fields come before field `i`. */
  function RequiredBefore(fields: seq<Field>, i: nat): nat
    requires i <= |fields|
  {
    if i == 0 then 0 else RequiredBefore(fields, i - 1) + if fields[i - 1].htype.Required? then 1 else 0
  }

  /** Each of the first 64 required fields has been seen. */
  predicate AllSeen(fields: seq<Field>, seen: set<nat>) {
    forall i | 0 <= i < |fields| && fields[i].htype.Required? && RequiredBefore(fields, i) < MAX_REQUIRED_FIELDS :: i in seen
  }

  /** Decoding a message over what its struct holds. */
  function DecodeMessage(fields: seq<Field>, s: Bytes, slots: seq<Slot>): (r: Option<seq<Slot>>)
    requires |slots| == |fields|
    ensures r.Some? ==> |r.value| == |fields|
    decreases |s|, 3
  {
    match DecodeLoop(fields, s, slots, {})
    case None => None
    case Some(r) => if AllSeen(fields, r.seen) then Some(r.slots) else None
  }

  /** Decoding into a struct set to its defaults. */
  function Decode(fields: seq<Field>, s: Bytes): Option<seq<Slot>> {
    DecodeMessage(fields, s, Defaults(fields))
  }
}
