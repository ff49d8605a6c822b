/** What a decoder looks for in the bytes of a message (nanopb: pb_decode.c:901-1048): the keys in it, those of the
    required fields, and those it does not know. */
module PbKeys {
  import opened Keys
  import opened Coding
  import opened PbSchema
  import opened PbWire

  /** What is left behind a value of a known field, whatever it means. */
  function PassValue(t: LType, s: Bytes): (r: Option<Bytes>)
    ensures r.Some? ==> |r.value| <= |s|
  {
    match t
    case VarintType(_) => SkipVarint(s)
    case UVarintType(_) => SkipVarint(s)
    case SVarintType(_) => SkipVarint(s)
    case Fixed32Type => if |s| < 4 then None else Some(s[4..])
    case Fixed64Type => if |s| < 8 then None else Some(s[8..])
    case _ => match DecodeString(s) case None => None case Some(p) => Some(p.rest)
  }

  /** What is left behind what follows a key, for a field of the message or another. */
  function PassOver(fields: seq<Field>, tag: nat, wireType: nat, s: Bytes): (r: Option<Bytes>)
    ensures r.Some? ==> |r.value| <= |s|
  {
    match FindField(fields, tag, 0)
    case None => Skip(wireType, s)
    case Some(i) =>
      if fields[i].htype.Repeated? && wireType == STRING_WIRE && Packable(fields[i].ltype) then Skip(STRING_WIRE, s)
      else PassValue(fields[i].ltype, s)
  }

  /** The tags in the bytes of a message, up to the end or a zero key. */
  function TagsOf(fields: seq<Field>, s: Bytes): seq<nat>
    decreases |s|
  {
    if s == [] then []
    else
      match DecodeVarint32(s)
      case None => []
      case Some(key) =>
        if key.value == 0 then []
        else
          match PassOver(fields, key.value / 8, key.value % 8, key.rest)
          case None => [key.value / 8]
          case Some(rest) => [key.value / 8] + TagsOf(fields, rest)
  }

  lemma {:induction false} VarintPasses(s: Bytes, n: nat)
    ensures ReadVarint(s, n).Some? ==> SkipVarint(s) == Some(ReadVarint(s, n).value.rest)
  {
    if n > 0 && s != [] && s[0] >= 128 {
      VarintPasses(s[1..], n - 1);
    }
  }

  /** Decoding a value, if it succeeds, leaves what passing over it does. */
  lemma ValuePasses(t: LType, s: Bytes, held: Value)
    ensures var r := DecodeValue(t, s, held); r.Some? ==> PassValue(t, s) == Some(r.value.rest)
  {
    hide ReadVarint, SkipVarint, DecodeVarint32, DecodeMessage, DecodeFixed32, DecodeFixed64;
    VarintPasses(s, 10);
    EmptyPasses(s);
  }

  lemma EmptyPasses(s: Bytes)
    ensures DecodeVarint32(s).Some? && DecodeVarint32(s).value.value == 0 ==> DecodeString(s) == Some(Parsed([], DecodeVarint32(s).value.rest))
  {
  }

  lemma FieldPasses(fields: seq<Field>, slots: seq<Slot>, tag: nat, i: nat, wireType: nat, s: Bytes)
    requires |slots| == |fields| && i < |fields| && FindField(fields, tag, 0) == Some(i)
    ensures var r := DecodeField(fields, slots, i, wireType, s); r.Some? ==> PassOver(fields, tag, wireType, s) == Some(r.value.rest)
  {
    hide DecodeValue, PassValue, DecodeString, FindField, DecodePacked;
    var t := fields[i].ltype;
    ValuePasses(t, s, DefaultValue(t));
    ValuePasses(t, s, Held(fields[i], slots[i]));
  }

  /** The keys of required fields in the input are those seen. */
  lemma {:induction false} LoopSees(fields: seq<Field>, s: Bytes, slots: seq<Slot>, seen: set<nat>)
    requires WellFormed(fields) && |slots| == |fields| && DecodeLoop(fields, s, slots, seen).Some?
    ensures forall i | 0 <= i < |fields| && fields[i].htype.Required? ::
      i in DecodeLoop(fields, s, slots, seen).value.seen <==> i in seen || fields[i].tag in TagsOf(fields, s)
    decreases |s|
  {
    hide DecodeVarint32, DecodeField, PassOver, Skip, FindField, WellFormedField;
    if s != [] {
      var key := DecodeVarint32(s).value;
      if key.value != 0 {
        var tag := key.value / 8;
        match FindField(fields, tag, 0)
        case None =>
          NotKnown(fields, tag, key.value % 8, key.rest);
          LoopSees(fields, Skip(key.value % 8, key.rest).value, slots, seen);
        case Some(i) =>
          FieldPasses(fields, slots, tag, i, key.value % 8, key.rest);
          var p := DecodeField(fields, slots, i, key.value % 8, key.rest).value;
          LoopSees(fields, p.rest, p.value, if fields[i].htype.Required? then seen + {i} else seen);
      }
    }
  }

  lemma NotKnown(fields: seq<Field>, tag: nat, wireType: nat, s: Bytes)
    requires FindField(fields, tag, 0) == None
    ensures PassOver(fields, tag, wireType, s) == Skip(wireType, s)
  {
  }

  /** The required fields before field `i`. */
  function RequiredTo(fields: seq<Field>, i: nat): set<nat>
    requires i <= |fields|
  {
    set j | 0 <= j < i && fields[j].htype.Required?
  }

  lemma {:induction false} RequiredCounts(fields: seq<Field>, i: nat)
    requires i <= |fields|
    ensures RequiredBefore(fields, i) == |RequiredTo(fields, i)|
  {
    if i > 0 {
      RequiredCounts(fields, i - 1);
      assert RequiredTo(fields, i) == if fields[i - 1].htype.Required? then RequiredTo(fields, i - 1) + {i - 1} else RequiredTo(fields, i - 1);
    }
  }

  /** Of a required field that has fewer than 64 required ones before it there is a key in the input. */
  ghost predicate HasRequired(fields: seq<Field>, s: Bytes) {
    forall i | 0 <= i < |fields| && fields[i].htype.Required? && |RequiredTo(fields, i)| < 64 :: fields[i].tag in TagsOf(fields, s)
  }

  /** Decoding a message, at any depth, succeeds if and only if all its fields can be read and the input has a
      key of every required field that counts. */
  lemma {:induction false} SucceedsIffRequired(fields: seq<Field>, s: Bytes, slots: seq<Slot>)
    requires WellFormed(fields) && |slots| == |fields|
    ensures DecodeMessage(fields, s, slots).Some? <==> DecodeLoop(fields, s, slots, {}).Some? && HasRequired(fields, s)
  {
    hide DecodeLoop, TagsOf, WellFormed, RequiredBefore, RequiredTo;
    forall i | 0 <= i < |fields| ensures RequiredBefore(fields, i) == |RequiredTo(fields, i)| {
      RequiredCounts(fields, i);
    }
    if DecodeLoop(fields, s, slots, {}).Some? {
      LoopSees(fields, s, slots, {});
    }
  }

  /** Nothing at all is no message with a required field. */
  lemma NothingIsMissing(fields: seq<Field>, i: nat)
    requires WellFormed(fields) && i < |fields| && fields[i].htype.Required?
    ensures Decode(fields, []) == None
  {
    hide DecodeLoop, WellFormed, RequiredTo;
    var first := FirstRequired(fields, i);
    SucceedsIffRequired(fields, [], Defaults(fields));
  }

  lemma {:induction false} FirstRequired(fields: seq<Field>, i: nat) returns (first: nat)
    requires i < |fields| && fields[i].htype.Required?
    ensures first < |fields| && fields[first].htype.Required? && RequiredTo(fields, first) == {}
  {
    first := i;
    if RequiredTo(fields, i) != {} {
      var j :| j in RequiredTo(fields, i);
      first := FirstRequired(fields, j);
    }
  }
}
