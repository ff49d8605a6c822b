/** Batches of updates (db/write_batch.cc) and how they are joined (db/db_impl.cc, BuildBatchGroup). */
module WriteBatches {
  import opened Keys
  import opened Coding

  const HEADER: nat := 12

  datatype Op = Put(key: Bytes, value: Bytes) | Delete(key: Bytes)

  /** Keys and values whose length fits 32 bits. */
  predicate Encodable(op: Op) {
    |op.key| < TWO_32 && (op.Put? ==> |op.value| < TWO_32)
  }

  function EncodeOp(op: Op): (r: Bytes)
    ensures |r| >= 2
  {
    match op
    case Put(key, value) => [TYPE_VALUE] + (LengthPrefixed(key) + LengthPrefixed(value))
    case Delete(key) => [TYPE_DELETION] + LengthPrefixed(key)
  }

  function EncodeOps(ops: seq<Op>): (r: Bytes)
    ensures |r| >= 2 * |ops|
  {
    if ops == [] then [] else EncodeOps(ops[..|ops| - 1]) + EncodeOp(ops[|ops| - 1])
  }

  lemma {:induction false} EncodeOpsConcat(a: seq<Op>, b: seq<Op>)
    ensures EncodeOps(a + b) == EncodeOps(a) + EncodeOps(b)
  {
    hide EncodeOp;
    if b == [] {
      assert a + b == a;
    } else {
      EncodeOpsConcat(a, b[..|b| - 1]);
      var all := a + b;
      assert all[..|all| - 1] == a + b[..|b| - 1] && all[|all| - 1] == b[|b| - 1];
    }
  }

  /** The operation at the front of the input, and what follows it; nothing when it is malformed. */
  function ParseOp(input: Bytes): (r: Option<Parsed<Op>>)
    requires input != []
    ensures r.Some? ==> |r.value.rest| < |input|
  {
    if input[0] == TYPE_VALUE then
      match GetLengthPrefixedSlice(input[1..])
      case None => None
      case Some(k) =>
        (match GetLengthPrefixedSlice(k.rest)
         case None => None
         case Some(v) => Some(Parsed(Put(k.value, v.value), v.rest)))
    else if input[0] == TYPE_DELETION then
      match GetLengthPrefixedSlice(input[1..])
      case None => None
      case Some(k) => Some(Parsed(Delete(k.value), k.rest))
    else
      None
  }

  /** The operations up to the first malformed one, and whether there is none such. */
  function ParseOps(input: Bytes): (seq<Op>, bool)
    decreases |input|
  {
    if input == [] then ([], true)
    else
      match ParseOp(input)
      case None => ([], false)
      case Some(p) =>
        var (rest, ok) := ParseOps(p.rest);
        ([p.value] + rest, ok)
  }

  lemma OpRoundTrip(op: Op, rest: Bytes)
    requires Encodable(op)
    ensures ParseOp(EncodeOp(op) + rest) == Some(Parsed(op, rest))
  {
    hide GetLengthPrefixedSlice, LengthPrefixed;
    var input := EncodeOp(op) + rest;
    match op
    case Put(key, value) =>
      assert input[1..] == LengthPrefixed(key) + (LengthPrefixed(value) + rest);
      LengthPrefixedRoundTrip(key, LengthPrefixed(value) + rest);
      LengthPrefixedRoundTrip(value, rest);
    case Delete(key) =>
      assert input[1..] == LengthPrefixed(key) + rest;
      LengthPrefixedRoundTrip(key, rest);
  }

  ghost predicate AllEncodable(ops: seq<Op>) {
    forall i | 0 <= i < |ops| :: Encodable(ops[i])
  }

  /** The operations of a batch are read back. */
  lemma {:induction false} OpsRoundTrip(ops: seq<Op>)
    requires AllEncodable(ops)
    ensures ParseOps(EncodeOps(ops)) == (ops, true)
  {
    hide EncodeOp, ParseOp;
    if ops != [] {
      var first := [ops[0]];
      assert ops == first + ops[1..];
      EncodeOpsConcat(first, ops[1..]);
      assert EncodeOps(first) == EncodeOp(ops[0]) by {
        assert first[..0] == [];
      }
      OpRoundTrip(ops[0], EncodeOps(ops[1..]));
      OpsRoundTrip(ops[1..]);
    }
  }

  function Sequence(rep: Bytes): nat
    requires |rep| >= HEADER
  {
    DecodeFixed64(rep)
  }

  function Count(rep: Bytes): (r: nat)
    requires |rep| >= HEADER
    ensures r < TWO_32
  {
    DecodeFixed32(rep[8..])
  }

  /** The contents of a batch. */
  function Contents(sequence: nat, count: nat, data: Bytes): Bytes {
    EncodeFixed64(sequence) + EncodeFixed32(count) + data
  }

  lemma ContentsParts(sequence: nat, count: nat, data: Bytes)
    requires sequence < TWO_64 && count < TWO_32
    ensures var rep := Contents(sequence, count, data);
      |rep| == HEADER + |data| && Sequence(rep) == sequence && Count(rep) == count && rep[HEADER..] == data
  {
    hide EncodeFixed32, EncodeFixed64, DecodeFixed32, DecodeFixed64;
    var rep := Contents(sequence, count, data);
    assert rep == EncodeFixed64(sequence) + (EncodeFixed32(count) + data);
    Fixed64RoundTrip(sequence, EncodeFixed32(count) + data);
    assert rep[8..] == EncodeFixed32(count) + data;
    Fixed32RoundTrip(count, data);
  }

  class WriteBatch {
    var rep: Bytes
    // What the batch holds.
    ghost var sequence: nat
    ghost var ops: seq<Op>

    constructor ()
      ensures Valid() && ops == []
    {
      rep, sequence, ops := Contents(0, 0, []), 0, [];
    }

    ghost predicate Valid()
      reads this
      ensures Valid() ==> |rep| >= HEADER
    {
      && sequence < TWO_64 && |ops| < TWO_32 && AllEncodable(ops)
      && rep == Contents(sequence, |ops|, EncodeOps(ops))
    }

    method Clear()
      modifies this
      ensures Valid() && ops == []
    {
      rep, sequence, ops := Contents(0, 0, []), 0, [];
    }

    method SetSequence(seqno: nat)
      requires Valid() && seqno < TWO_64
      modifies this
      ensures Valid() && ops == old(ops) && sequence == seqno
    {
      hide EncodeFixed64, EncodeFixed32, EncodeOps;
      ContentsParts(sequence, |ops|, EncodeOps(ops));
      rep := EncodeFixed64(seqno) + rep[8..];
      sequence := seqno;
    }

    /** What SetCount and the appends after it make of a batch. */
    method Grow(count: nat, data: Bytes, ghost more: seq<Op>)
      requires Valid() && |ops| + |more| < TWO_32 && count == |ops| + |more| && AllEncodable(more) && data == EncodeOps(more)
      modifies this
      ensures Valid() && ops == old(ops) + more && sequence == old(sequence)
    {
      hide EncodeFixed64, EncodeFixed32, EncodeOps;
      ContentsParts(sequence, |ops|, EncodeOps(ops));
      EncodeOpsConcat(ops, more);
      assert rep[..8] == EncodeFixed64(sequence);
      rep := rep[..8] + EncodeFixed32(count) + rep[HEADER..];
      rep := rep + data;
      ops := ops + more;
    }

    method Put(key: Bytes, value: Bytes)
      requires Valid() && |key| < TWO_32 && |value| < TWO_32 && |ops| + 1 < TWO_32
      modifies this
      ensures Valid() && ops == old(ops) + [Op.Put(key, value)] && sequence == old(sequence)
    {
      ContentsParts(sequence, |ops|, EncodeOps(ops));
      Single(Op.Put(key, value));
      Grow(Count(rep) + 1, [TYPE_VALUE] + (LengthPrefixed(key) + LengthPrefixed(value)), [Op.Put(key, value)]);
    }

    method Delete(key: Bytes)
      requires Valid() && |key| < TWO_32 && |ops| + 1 < TWO_32
      modifies this
      ensures Valid() && ops == old(ops) + [Op.Delete(key)] && sequence == old(sequence)
    {
      ContentsParts(sequence, |ops|, EncodeOps(ops));
      Single(Op.Delete(key));
      Grow(Count(rep) + 1, [TYPE_DELETION] + LengthPrefixed(key), [Op.Delete(key)]);
    }

    method Append(src: WriteBatch)
      requires Valid() && src.Valid() && src != this && |ops| + |src.ops| < TWO_32
      modifies this
      ensures Valid() && ops == old(ops) + src.ops && sequence == old(sequence)
    {
      ContentsParts(sequence, |ops|, EncodeOps(ops));
      ContentsParts(src.sequence, |src.ops|, EncodeOps(src.ops));
      Grow(Count(rep) + Count(src.rep), src.rep[HEADER..], src.ops);
    }
  }

  lemma Single(op: Op)
    ensures EncodeOps([op]) == EncodeOp(op)
  {
    assert [op][..0] == [];
  }

  /** The entry an operation adds to the memtable. */
  function EntryOf(op: Op, seqno: nat): Entry<Bytes, Bytes> {
    match op
    case Put(key, value) => Entry(InternalKey(key, seqno, TYPE_VALUE), value)
    case Delete(key) => Entry(InternalKey(key, seqno, TYPE_DELETION), [])
  }

  /** The operations' entries, with consecutive sequence numbers. */
  function Numbered(ops: seq<Op>, first: nat): (r: seq<Entry<Bytes, Bytes>>)
    ensures |r| == |ops|
    ensures forall i | 0 <= i < |ops| :: r[i] == EntryOf(ops[i], first + i)
  {
    seq(|ops|, i requires 0 <= i < |ops| => EntryOf(ops[i], first + i))
  }

  lemma NumberedConcat(a: seq<Op>, b: seq<Op>, first: nat)
    ensures Numbered(a + b, first) == Numbered(a, first) + Numbered(b, first + |a|)
  {
  }

  /** What Iterate hands to its handler, and whether it succeeds: all of the data must parse and the count
      must be right. */
  function Iterated(rep: Bytes): (seq<Op>, bool) {
    if |rep| < HEADER then ([], false)
    else
      var (ops, ok) := ParseOps(rep[HEADER..]);
      (ops, ok && |ops| == Count(rep))
  }

  /** The calls of MemTable::Add, in order. What they make of a memtable is in module MemTables. */
  class AddCalls {
    var added: seq<Entry<Bytes, Bytes>>

    constructor ()
      ensures added == []
    {
      added := [];
    }

    method Add(seqno: nat, typ: Byte, key: Bytes, value: Bytes)
      modifies this
      ensures added == old(added) + [Entry(InternalKey(key, seqno, typ), value)]
    {
      added := added + [Entry(InternalKey(key, seqno, typ), value)];
    }
  }

  /** Iterate with the memtable inserter for its handler. */
  method InsertInto(rep: Bytes, memtable: AddCalls) returns (ok: bool)
    modifies memtable
    ensures ok == Iterated(rep).1
    ensures |rep| >= HEADER ==> memtable.added == old(memtable.added) + Numbered(Iterated(rep).0, Sequence(rep))
    ensures |rep| < HEADER ==> memtable.added == old(memtable.added)
  {
    hide ParseOp, Count, Sequence;
    if |rep| < HEADER {
      return false;
    }
    var sequence := Sequence(rep);
    var input := rep[HEADER..];
    var found := 0;
    ghost var done: seq<Op> := [];
    assert done + ParseOps(input).0 == ParseOps(input).0;
    assert memtable.added + Numbered(done, sequence) == memtable.added;
    while input != []
      invariant found == |done| && sequence == Sequence(rep) + found
      invariant ParseOps(rep[HEADER..]) == (done + ParseOps(input).0, ParseOps(input).1)
      invariant memtable.added == old(memtable.added) + Numbered(done, Sequence(rep))
      decreases |input|
    {
      found := found + 1;
      var parsed := ParseOp(input);
      if parsed == None {
        assert done + ParseOps(input).0 == done;
        return false;
      }
      var op := parsed.value.value;
      match op {
        case Put(key, value) => memtable.Add(sequence, TYPE_VALUE, key, value);
        case Delete(key) => memtable.Add(sequence, TYPE_DELETION, key, []);
      }
      assert done + ([op] + ParseOps(parsed.value.rest).0) == done + [op] + ParseOps(parsed.value.rest).0;
      done := done + [op];
      sequence := sequence + 1;
      input := parsed.value.rest;
    }
    assert done + [] == done;
    ok := found == Count(rep);
  }

  /** A valid batch goes into the memtable whole. */
  lemma BatchIterates(sequence: nat, ops: seq<Op>)
    requires sequence < TWO_64 && |ops| < TWO_32 && AllEncodable(ops)
    ensures Iterated(Contents(sequence, |ops|, EncodeOps(ops))) == (ops, true)
  {
    ContentsParts(sequence, |ops|, EncodeOps(ops));
    OpsRoundTrip(ops);
  }

  /** Nothing that begins an operation: another tag than the two, or less than its key and value. */
  ghost predicate Malformed(junk: Bytes) {
    junk != [] && (junk[0] > 1 || exists op, n | Encodable(op) && 0 < n < |EncodeOp(op)| :: junk == EncodeOp(op)[..n])
  }

  lemma CutOp(op: Op, n: nat)
    requires Encodable(op) && 0 < n < |EncodeOp(op)|
    ensures ParseOp(EncodeOp(op)[..n]) == None
  {
    hide LengthPrefixed, GetLengthPrefixedSlice;
    var s := EncodeOp(op)[..n];
    var key := LengthPrefixed(op.key);
    if n - 1 < |key| {
      assert s[1..] == key[..n - 1];
      LengthPrefixedCut(op.key, n - 1);
    } else {
      var part := LengthPrefixed(op.value)[..n - 1 - |key|];
      assert s[1..] == key + part;
      LengthPrefixedRoundTrip(op.key, part);
      LengthPrefixedCut(op.value, n - 1 - |key|);
    }
  }

  lemma {:induction false} OpsThenJunk(ops: seq<Op>, junk: Bytes)
    requires AllEncodable(ops) && Malformed(junk)
    ensures ParseOps(EncodeOps(ops) + junk) == (ops, false)
  {
    hide EncodeOp, ParseOp, Malformed;
    if ops == [] {
      JunkFails(junk);
      assert [] + junk == junk;
    } else {
      var first := [ops[0]];
      assert ops == first + ops[1..];
      EncodeOpsConcat(first, ops[1..]);
      Single(ops[0]);
      assert EncodeOps(ops) + junk == EncodeOp(ops[0]) + (EncodeOps(ops[1..]) + junk);
      OpRoundTrip(ops[0], EncodeOps(ops[1..]) + junk);
      OpsThenJunk(ops[1..], junk);
    }
  }

  lemma JunkFails(junk: Bytes)
    requires Malformed(junk)
    ensures junk != [] && ParseOp(junk) == None
  {
    hide EncodeOp, GetLengthPrefixedSlice;
    if junk[0] <= 1 {
      var op, n :| Encodable(op) && 0 < n < |EncodeOp(op)| && junk == EncodeOp(op)[..n];
      CutOp(op, n);
    }
  }

  /** A batch with a wrong count, or with something malformed behind some operations, fails after those. */
  lemma {:induction false} FaultStops(sequence: nat, count: nat, ops: seq<Op>, junk: Bytes)
    requires sequence < TWO_64 && count < TWO_32 && AllEncodable(ops) && (junk == [] || Malformed(junk))
    ensures Iterated(Contents(sequence, count, EncodeOps(ops) + junk)) == (ops, junk == [] && |ops| == count)
  {
    hide EncodeOps, Malformed, ParseOps;
    ContentsParts(sequence, count, EncodeOps(ops) + junk);
    if junk == [] {
      assert EncodeOps(ops) + junk == EncodeOps(ops);
      OpsRoundTrip(ops);
    } else {
      OpsThenJunk(ops, junk);
    }
  }
}
