/** The queue of writers and the group commit of its head (db/db_impl.cc, Write and BuildBatchGroup). */
module WriteQueue {
  import opened Keys
  import opened WriteBatches

  /** A writer in the queue; one without operations only asks for a memtable switch. */
  datatype Request = Request(ops: Option<seq<Op>>, sync: bool)

  function ByteSize(ops: seq<Op>): nat {
    HEADER + |EncodeOps(ops)|
  }

  function OpsOf(requests: seq<Request>): seq<Op> {
    if requests == [] then []
    else
      var last := requests[|requests| - 1];
      OpsOf(requests[..|requests| - 1]) + if last.ops.Some? then last.ops.value else []
  }

  function MaxSize(size: nat): nat {
    if size <= 0x2_0000 then size + 0x2_0000 else 0x10_0000
  }

  /** Where the group ends that has taken the first `i` requests, of `size` bytes. */
  function GroupFrom(queue: seq<Request>, size: nat, maxSize: nat, i: nat): (n: nat)
    requires 0 < i <= |queue|
    ensures i <= n <= |queue|
    ensures forall j | i <= j < n :: queue[j].sync ==> queue[0].sync
    decreases |queue| - i
  {
    if i == |queue| || (queue[i].sync && !queue[0].sync) then i
    else if queue[i].ops == None then GroupFrom(queue, size, maxSize, i + 1)
    else
      var grown := size + ByteSize(queue[i].ops.value);
      if grown > maxSize then i else GroupFrom(queue, grown, maxSize, i + 1)
  }

  /** How many requests the head takes with it. */
  function GroupSize(queue: seq<Request>): (n: nat)
    requires queue != [] && queue[0].ops.Some?
    ensures 0 < n <= |queue| && forall j | 0 <= j < n :: queue[j].sync ==> queue[0].sync
  {
    var size := ByteSize(queue[0].ops.value);
    GroupFrom(queue, size, MaxSize(size), 1)
  }

  /** The bytes of the batches. */
  function BatchBytes(requests: seq<Request>): nat {
    if requests == [] then 0
    else
      var last := requests[|requests| - 1];
      BatchBytes(requests[..|requests| - 1]) + if last.ops.Some? then ByteSize(last.ops.value) else 0
  }

  /** A request may join those before it: it does not sync for a head that does not, and with its batch they are
      no larger than 1 MiB, or than 128 KiB more than a head that is small. */
  predicate MayJoin(queue: seq<Request>, j: nat)
    requires 0 < j < |queue| && queue[0].ops.Some?
  {
    && (queue[j].sync ==> queue[0].sync)
    && (queue[j].ops.Some? ==>
          var head := ByteSize(queue[0].ops.value);
          BatchBytes(queue[..j + 1]) <= if head <= 128 * 1024 then head + 128 * 1024 else 1024 * 1024)
  }

  lemma BytesGrow(queue: seq<Request>, i: nat)
    requires i < |queue|
    ensures BatchBytes(queue[..i + 1]) == BatchBytes(queue[..i]) + if queue[i].ops.Some? then ByteSize(queue[i].ops.value) else 0
  {
    hide ByteSize;
    assert queue[..i + 1][..i] == queue[..i];
  }

  /** From `i` on, the group goes on as long as requests may join. */
  lemma {:induction false} GroupFromIsLongest(queue: seq<Request>, i: nat)
    requires 0 < i <= |queue| && queue[0].ops.Some?
    ensures var n := GroupFrom(queue, BatchBytes(queue[..i]), MaxSize(ByteSize(queue[0].ops.value)), i);
      (forall j | i <= j < n :: MayJoin(queue, j)) && (n < |queue| ==> !MayJoin(queue, n))
    decreases |queue| - i
  {
    hide ByteSize, BatchBytes;
    if i < |queue| {
      BytesGrow(queue, i);
      GroupFromIsLongest(queue, i + 1);
    }
  }

  /** The group is the longest prefix whose requests may all join. */
  lemma GroupIsLongest(queue: seq<Request>)
    requires queue != [] && queue[0].ops.Some?
    ensures var n := GroupSize(queue); (forall j | 0 < j < n :: MayJoin(queue, j)) && (n < |queue| ==> !MayJoin(queue, n))
  {
    hide ByteSize, MaxSize, MayJoin, GroupFrom;
    BytesGrow(queue, 0);
    GroupFromIsLongest(queue, 1);
  }

  class Writer {
    const batch: WriteBatch?
    const sync: bool

    constructor (batch: WriteBatch?, sync: bool)
      ensures this.batch == batch && this.sync == sync
    {
      this.batch, this.sync := batch, sync;
    }

    ghost function Asks(): Request
      reads batch
    {
      Request(if batch == null then None else Some(batch.ops), sync)
    }
  }

  /** The writers ask for `requests`, with batches that are valid and not `tmp`. */
  ghost predicate Ask(writers: seq<Writer>, requests: seq<Request>, tmp: WriteBatch)
    reads set i | 0 <= i < |writers| :: writers[i].batch
  {
    && |requests| == |writers|
    && forall i | 0 <= i < |writers| ::
      requests[i] == writers[i].Asks() && writers[i].batch != tmp && (writers[i].batch != null ==> writers[i].batch.Valid())
  }

  lemma OpsOfSnoc(requests: seq<Request>, n: nat)
    requires n < |requests|
    ensures OpsOf(requests[..n + 1]) == OpsOf(requests[..n]) + if requests[n].ops.Some? then requests[n].ops.value else []
  {
    assert requests[..n + 1][..n] == requests[..n];
  }

  lemma {:induction false} OpsOfConcat(a: seq<Request>, b: seq<Request>)
    ensures OpsOf(a + b) == OpsOf(a) + OpsOf(b)
  {
    if b == [] {
      assert a + b == a;
    } else {
      OpsOfConcat(a, b[..|b| - 1]);
      var all := a + b;
      assert all[..|all| - 1] == a + b[..|b| - 1];
    }
  }

  /** The bytes of a valid batch bound the number of its operations. */
  lemma RepSize(b: WriteBatch)
    requires b.Valid()
    ensures |b.rep| == ByteSize(b.ops) && |b.rep| >= HEADER + 2 * |b.ops|
  {
    hide EncodeOps;
    ContentsParts(b.sequence, |b.ops|, EncodeOps(b.ops));
  }

  /** Joins the batches of the group in `tmp`, unless the head's batch is alone; no other batch changes. */
  method BuildBatchGroup(writers: seq<Writer>, tmp: WriteBatch, ghost requests: seq<Request>)
      returns (result: WriteBatch, lastWriter: Writer, ghost n: nat)
    requires writers != [] && writers[0].batch != null
    requires tmp.Valid() && tmp.ops == [] && Ask(writers, requests, tmp)
    modifies tmp
    ensures n == GroupSize(requests) && lastWriter == writers[n - 1]
    ensures result.Valid() && result.ops == OpsOf(requests[..n])
    ensures result == tmp || result == writers[0].batch
  {
    hide WriteBatch.Valid, EncodeOps, OpsOf;
    var first := writers[0];
    result := first.batch;
    RepSize(first.batch);
    var size: nat := |result.rep|;
    var maxSize := MaxSize(size);
    lastWriter := first;
    OpsOfSnoc(requests, 0);
    OpsOfNone();
    assert requests[..0] == [] && [] + first.batch.ops == first.batch.ops;
    var i: nat := 1;
    while i < |writers|
      invariant 1 <= i <= |writers| && lastWriter == writers[i - 1] && Ask(writers, requests, tmp)
      invariant GroupFrom(requests, size, maxSize, i) == GroupSize(requests)
      invariant result.Valid() && result.ops == OpsOf(requests[..i]) && 2 * |result.ops| <= size
      invariant result == first.batch || (result == tmp && size <= maxSize)
      invariant result == first.batch ==> tmp.Valid() && tmp.ops == []
    {
      var w := writers[i];
      if w.sync && !first.sync {
        break;
      }
      OpsOfSnoc(requests, i);
      if w.batch != null {
        RepSize(w.batch);
        size := size + |w.batch.rep|;
        if size > maxSize {
          break;
        }
        if result == first.batch {
          result := tmp;
          result.Append(first.batch);
        }
        result.Append(w.batch);
      }
      lastWriter := w;
      i := i + 1;
    }
    n := i;
  }

  lemma OpsOfNone()
    ensures OpsOf([]) == []
  {
  }
}
