/** Replaying the log (db/db_impl.cc, RecoverLogFile), and what it brings back of a run of the writer
    protocol. Checks are not paranoid, which is the default. */
module Recovery {
  import opened Keys
  import opened Coding
  import opened Crc32c
  import opened Log
  import opened LogRoundTrip
  import opened LogFaults
  import opened WriteBatches
  import opened WriteQueue
  import opened WriteRuns
  import opened Comparators
  import opened SkipLists
  import MemTables

  datatype Recovered = Recovered(entries: seq<Entry<Bytes, Bytes>>, maxSequence: nat)

  function Max(a: nat, b: nat): nat {
    if a < b then b else a
  }

  /** What one record adds: a record too short for a batch is skipped, and of a malformed batch the part
      before the fault is kept. */
  function ReplayOne(r: Recovered, record: Bytes): Recovered {
    if |record| < HEADER then r
    else
      var lastSeq := (Sequence(record) + Count(record) + TWO_64 - 1) % TWO_64;
      Recovered(r.entries + Numbered(Iterated(record).0, Sequence(record)), Max(r.maxSequence, lastSeq))
  }

  function Replay(records: seq<Bytes>): Recovered {
    if records == [] then Recovered([], 0) else ReplayOne(Replay(records[..|records| - 1]), records[|records| - 1])
  }

  lemma ReplaySnoc(records: seq<Bytes>, record: Bytes)
    ensures Replay(records + [record]) == ReplayOne(Replay(records), record)
  {
    assert (records + [record])[..|records|] == records;
  }

  /** Replays the log file, noting what goes into the memtable. */
  method RecoverLogFile(crc: Bytes -> Word, file: Bytes) returns (mem: AddCalls, maxSequence: nat)
    ensures var r := Replay(ReadAll(crc, true, file, 0).0); mem.added == r.entries && maxSequence == r.maxSequence
  {
    hide NextLogical, ReadAll, Reader.Valid, Reader.Pos, Replay, Iterated, Sequence, Count;
    var reader := new Reader(crc, true, file);
    mem := new AddCalls();
    maxSequence := 0;
    ghost var read: seq<Bytes> := [];
    ReplayNone();
    assert read + ReadAll(crc, true, file, 0).0 == ReadAll(crc, true, file, 0).0;
    while true
      invariant reader.Valid() && reader.crc == crc && reader.checksum && reader.file == file
      invariant read + ReadAll(crc, true, file, reader.Pos()).0 == ReadAll(crc, true, file, 0).0
      invariant Replay(read) == Recovered(mem.added, maxSequence)
      decreases |file| - reader.Pos()
    {
      UnfoldAll(crc, true, file, reader.Pos());
      var record := reader.ReadRecord();
      if record == None {
        break;
      }
      ReplaySnoc(read, record.value);
      read := read + [record.value];
      if |record.value| >= HEADER {
        var _ := InsertInto(record.value, mem);
        var lastSeq := (Sequence(record.value) + Count(record.value) + TWO_64 - 1) % TWO_64;
        if lastSeq > maxSequence {
          maxSequence := lastSeq;
        }
      }
    }
    assert read + [] == read;
  }

  lemma ReplayNone()
    ensures Replay([]) == Recovered([], 0)
  {
  }

  /** The entries of the groups whose record is in the log. */
  function LoggedEntries(groups: seq<Group>): seq<Entry<Bytes, Bytes>> {
    if groups == [] then []
    else
      var g := groups[|groups| - 1];
      LoggedEntries(groups[..|groups| - 1]) + if g.logged then Numbered(g.ops, g.first) else []
  }

  lemma ReplayRecord(r: Recovered, first: nat, ops: seq<Op>)
    requires 0 < first < TWO_64 && first + |ops| <= TWO_64 && |ops| < TWO_32 && AllEncodable(ops)
    ensures ReplayOne(r, LogRecord(first, ops)) == Recovered(r.entries + Numbered(ops, first), Max(r.maxSequence, first + |ops| - 1))
  {
    hide EncodeOps, Iterated, Sequence, Count, Contents;
    var record := LogRecord(first, ops);
    ContentsParts(first, |ops|, EncodeOps(ops));
    BatchIterates(first, ops);
    assert (first + |ops| + TWO_64 - 1) % TWO_64 == first + |ops| - 1;
  }

  /** A record too short for a batch adds nothing, and one with something malformed in it, or a wrong count,
      what is in front of that. */
  lemma MalformedRecord(r: Recovered, record: Bytes, first: nat, count: nat, ops: seq<Op>, junk: Bytes)
    requires first < TWO_64 && count < TWO_32 && AllEncodable(ops) && (junk == [] || Malformed(junk))
    ensures |record| < HEADER ==> ReplayOne(r, record) == r
    ensures ReplayOne(r, Contents(first, count, EncodeOps(ops) + junk)).entries == r.entries + Numbered(ops, first)
  {
    hide EncodeOps, Malformed, Iterated, Sequence, Count, Contents;
    ContentsParts(first, count, EncodeOps(ops) + junk);
    FaultStops(first, count, ops, junk);
  }

  lemma {:induction false} ReplayGroups(groups: seq<Group>)
    requires GoodGroups(groups) && Assigned(groups) + 1 < TWO_64
    ensures Replay(Records(groups)).entries == LoggedEntries(groups)
    ensures Replay(Records(groups)).maxSequence <= Assigned(groups)
    ensures (forall i | 0 <= i < |groups| :: groups[i].ok && groups[i].intact) ==> Replay(Records(groups)).maxSequence == Assigned(groups)
  {
    hide GoodGroup, Replay, ReplayOne, Records, LogRecord;
    if groups == [] {
      NoRecords();
      ReplayNone();
    } else {
      var init, g := groups[..|groups| - 1], groups[|groups| - 1];
      assert groups == init + [g];
      ReplayGroups(init);
      Snoc(init, g);
      GoodGroupMeans(g);
      if g.logged {
        ReplaySnoc(Records(init), LogRecord(g.first, g.ops));
        ReplayRecord(Replay(Records(init)), g.first, g.ops);
      } else {
        assert Records(init) + [] == Records(init) && LoggedEntries(init) + [] == LoggedEntries(init);
      }
    }
  }

  lemma NoRecords()
    ensures Records([]) == []
  {
  }

  lemma GoodGroupMeans(g: Group)
    requires GoodGroup(g)
    ensures AllEncodable(g.ops) && |g.ops| < TWO_32 && (g.intact ==> g.inStep)
    ensures (g.ok ==> g.ops == OpsOf(g.requests)) && (g.ok && g.intact && !g.logged ==> g.ops == [])
  {
  }

  lemma GroupHead(g: Group)
    requires GoodGroup(g)
    ensures g.requests != [] && (g.ok && g.ops != [] ==> g.requests[0].ops.Some?)
    ensures (exists r :: r in g.requests && r.sync) ==> g.requests[0].sync
  {
  }

  /** Every group has its sequence numbers to itself, from 1 to the last assigned. */
  lemma {:induction false} AppliedBelow(groups: seq<Group>)
    requires GoodGroups(groups)
    ensures forall i | 0 <= i < |Applied(groups)| :: 0 < Applied(groups)[i].key.seqno <= Assigned(groups)
    ensures forall i, j | 0 <= i < j < |Applied(groups)| :: Applied(groups)[i].key.seqno < Applied(groups)[j].key.seqno
  {
    hide GoodGroup;
    if groups != [] {
      AppliedBelow(groups[..|groups| - 1]);
    }
  }

  /** A read at the last sequence number sees all of every group acknowledged OK and nothing of any other. */
  lemma GroupsAreAtomic(crc: Bytes -> Word, s: State)
    requires Inv(crc, s)
    ensures forall e | e in s.mem :: e.key.seqno <= s.lastSequence <==> e in Applied(s.groups)
    ensures Applied(s.groups) <= s.mem
  {
    hide GoodGroups, GoodLog;
    AppliedBelow(s.groups);
  }

  /** Without errors, the writers served so far are the first to arrive, and their operations are applied once
      each, in that order, under consecutive sequence numbers. */
  lemma {:induction false} ServedInOrder(groups: seq<Group>)
    requires GoodGroups(groups) && forall i | 0 <= i < |groups| :: groups[i].ok
    ensures Applied(groups) == Numbered(OpsOf(Served(groups)), 1) && Assigned(groups) == |OpsOf(Served(groups))|
    ensures (forall i | 0 <= i < |groups| :: groups[i].intact) ==> LoggedEntries(groups) == Applied(groups)
  {
    hide GoodGroup, Records, LogRecord;
    if groups != [] {
      var init, g := groups[..|groups| - 1], groups[|groups| - 1];
      GoodGroupMeans(g);
      ServedInOrder(init);
      OpsOfConcat(Served(init), g.requests);
      NumberedConcat(OpsOf(Served(init)), OpsOf(g.requests), 1);
      assert g.ok;
      assert forall i | 0 <= i < |init| :: init[i] == groups[i];
    }
  }

  lemma AppliedOnceInOrder(crc: Bytes -> Word, s: State)
    requires Inv(crc, s) && s.phase.Idle? && forall i | 0 <= i < |s.groups| :: s.groups[i].ok
    ensures Served(s.groups) + s.queue == s.arrived
    ensures s.mem == Numbered(OpsOf(Served(s.groups)), 1) && s.lastSequence == |OpsOf(Served(s.groups))|
  {
    hide GoodGroups, GoodLog;
    ServedInOrder(s.groups);
  }

  /** Without errors, replaying the log of an idle store rebuilds its memtable and last sequence number. */
  lemma ReplayRebuilds(crc: Bytes -> Word, s: State)
    requires Inv(crc, s) && s.phase.Idle? && s.intact && (forall i | 0 <= i < |s.groups| :: s.groups[i].ok)
    requires s.lastSequence + 1 < TWO_64
    ensures s.file == LogOf(crc, Records(s.groups)) && Replay(Records(s.groups)) == Recovered(s.mem, s.lastSequence)
    ensures Replay(ReadAll(crc, true, s.file, 0).0) == Recovered(s.mem, s.lastSequence)
  {
    hide GoodGroups, LogOf, Replay, ReadAll;
    assert Whole(s) == Records(s.groups);
    ServedInOrder(s.groups);
    ReplayGroups(s.groups);
    LogReadsBack(crc, true, Records(s.groups));
  }

  lemma {:induction false} ReplayPrefix(records: seq<Bytes>, k: nat)
    requires k <= |records|
    ensures Replay(records[..k]).entries <= Replay(records).entries
    decreases |records| - k
  {
    hide Iterated;
    if k < |records| {
      ReplayPrefix(records, k + 1);
      assert records[..k + 1] == records[..k] + [records[k]];
      ReplaySnoc(records[..k], records[k]);
    } else {
      assert records[..k] == records;
    }
  }

  lemma {:induction false} GoodPrefix(groups: seq<Group>, i: nat)
    requires GoodGroups(groups) && i <= |groups|
    ensures GoodGroups(groups[..i]) && Assigned(groups[..i]) <= Assigned(groups)
    ensures Records(groups[..i]) <= Records(groups) && Applied(groups[..i]) <= Applied(groups)
  {
    hide GoodGroup, LogRecord;
    if i < |groups| {
      var init := groups[..|groups| - 1];
      GoodPrefix(init, i);
      assert init[..i] == groups[..i];
    } else {
      assert groups[..i] == groups;
    }
  }

  /** What a record holds comes back if it is read. */
  lemma {:induction false} ReplayHas(records: seq<Bytes>, first: nat, ops: seq<Op>)
    requires 0 < first < TWO_64 && first + |ops| <= TWO_64 && |ops| < TWO_32 && AllEncodable(ops) && LogRecord(first, ops) in records
    ensures forall e | e in Numbered(ops, first) :: e in Replay(records).entries
  {
    hide Replay, ReplayOne, LogRecord;
    var k :| 0 <= k < |records| && records[k] == LogRecord(first, ops);
    assert records[..k + 1] == records[..k] + [records[k]];
    ReplaySnoc(records[..k], records[k]);
    ReplayRecord(Replay(records[..k]), first, ops);
    ReplayPrefix(records, k + 1);
    var before, entries, all := Replay(records[..k]).entries, Numbered(ops, first), Replay(records).entries;
    forall e | e in entries ensures e in all {
      var j :| 0 <= j < |entries| && entries[j] == e;
      assert (before + entries)[|before| + j] == all[|before| + j];
    }
  }

  /** After a crash that keeps any prefix of the log's file as long as what was synced, recovery brings back all
      of every group with a sync write that was acknowledged OK, provided that the writer's offset agreed with the
      file after every record up to the group's, whichever of them failed. Without that see LosesSyncedWrite. */
  lemma {:induction false} SyncedSurvives(crc: Bytes -> Word, s: State, n: nat, i: nat)
    requires Inv(crc, s) && s.lastSequence + 1 < TWO_64 && s.synced <= n <= |s.file|
    requires i < |s.groups| && s.groups[i].ok && s.groups[i].inStep && exists r :: r in s.groups[i].requests && r.sync
    ensures forall e | e in Numbered(s.groups[i].ops, s.groups[i].first) :: e in Replay(ReadAll(crc, true, s.file[..n], 0).0).entries
  {
    hide ReadAll, Replay, GoodGroups, GoodLog, ReadThrough, LogRecord;
    var g := s.groups[i];
    GroupFits(s.groups, i);
    if g.ops != [] {
      assert AckedRead(crc, g, s.file, s.file[..s.synced]);
      assert s.file[..s.synced] <= s.file[..n];
      ReplayHas(ReadAll(crc, true, s.file[..n], 0).0, g.first, g.ops);
    }
  }

  /** Without a crash, or when one keeps the whole file, that goes for every write acknowledged OK. */
  lemma {:induction false} AcknowledgedSurvives(crc: Bytes -> Word, s: State, i: nat)
    requires Inv(crc, s) && s.lastSequence + 1 < TWO_64 && i < |s.groups| && s.groups[i].ok && s.groups[i].inStep
    ensures forall e | e in Numbered(s.groups[i].ops, s.groups[i].first) :: e in Replay(ReadAll(crc, true, s.file, 0).0).entries
  {
    hide ReadAll, Replay, GoodGroups, GoodLog, ReadThrough, LogRecord;
    var g := s.groups[i];
    GroupFits(s.groups, i);
    if g.ops != [] {
      assert AckedRead(crc, g, s.file, s.file[..s.synced]);
      ReplayHas(ReadAll(crc, true, s.file, 0).0, g.first, g.ops);
    }
  }

  /** In particular when every record up to the group's reached the file whole. */
  lemma IntactIsInStep(crc: Bytes -> Word, s: State, i: nat)
    requires Inv(crc, s) && i < |s.groups| && s.groups[i].intact
    ensures s.groups[i].inStep
  {
    hide GoodLog, ReadThrough;
    GroupFits(s.groups, i);
  }

  lemma {:induction false} GroupFits(groups: seq<Group>, i: nat)
    requires GoodGroups(groups) && i < |groups|
    ensures var g := groups[i];
      && 0 < g.first && g.first + |g.ops| <= Assigned(groups) + 1 && AllEncodable(g.ops) && |g.ops| < TWO_32 && (g.intact ==> g.inStep)
      && g.requests != [] && (g.ok && g.ops != [] ==> g.requests[0].ops.Some?)
      && ((exists r :: r in g.requests && r.sync) ==> g.requests[0].sync)
  {
    hide GoodGroup;
    GoodPrefix(groups, i + 1);
    var part := groups[..i + 1];
    assert part[|part| - 1] == groups[i];
    GoodGroupMeans(groups[i]);
    GroupHead(groups[i]);
  }

  /** Without errors, what comes back after any crash is what some first part of the operations left. */
  lemma {:induction false} CrashLeavesPrefix(crc: Bytes -> Word, s: State, n: nat)
    requires Inv(crc, s) && s.phase.Idle? && s.intact && (forall i | 0 <= i < |s.groups| :: s.groups[i].ok)
    requires s.lastSequence + 1 < TWO_64 && n <= |s.file|
    ensures Replay(ReadAll(crc, true, s.file[..n], 0).0).entries <= s.mem
  {
    hide LogOf, ReadAll, Replay, GoodGroups;
    ReplayRebuilds(crc, s);
    var records := Records(s.groups);
    PrefixRoundTrip(crc, true, records, n);
    ReplayPrefix(records, Contained(crc, records, n));
  }

  /** A lone writer leads with its own batch. */
  lemma LeadsAlone(crc: Bytes -> Word, s: State, r: Request, s': State)
    requires s.phase.Idle? && s.queue == [r] && r.ops.Some? && !s.bgError
    requires s' == s.(phase := Leading(1, r.ops.value, s.lastSequence + 1))
    ensures Next(crc, s, Lead, s')
  {
    hide GroupFrom;
    OpsOfSnoc([r], 0);
    OpsOfNone();
    assert [r][..0] == [] && [r][..1] == [r] && [] + r.ops.value == r.ops.value;
    assert GroupSize([r]) == 1;
  }

  lemma RecordFits(first: nat, op: Op)
    requires Encodable(op) && first < TWO_64
    ensures |LogRecord(first, [op])| == HEADER + |EncodeOp(op)|
  {
    hide EncodeOp;
    assert [op][..0] == [];
    assert EncodeOps([op]) == [] + EncodeOp(op);
    ContentsParts(first, 1, EncodeOps([op]));
  }

  /** The header of a record is written, and then an append fails. */
  lemma HeaderOnly(crc: Bytes -> Word, offset: nat, record: Bytes)
    requires offset + HEADER_SIZE + |record| <= BLOCK_SIZE
    ensures AddFrom(crc, offset, record, true, [None, Some(0)])
      == Written(Physical(crc, FULL_TYPE, record)[..HEADER_SIZE], offset + HEADER_SIZE + |record|, false, [])
  {
    hide Physical;
    var faults: Faults := [None, Some(0)];
    var header := Physical(crc, FULL_TYPE, record)[..HEADER_SIZE];
    UnfoldAddFrom(crc, offset, record, true, faults);
    assert Later(faults) == [Some(0)] && Later(Later(faults)) == [];
    assert record[..0] == [] && header + [] == header;
    if |record| == 0 {
      assert record == [];
    }
  }

  lemma AddedWhole(crc: Bytes -> Word, offset: nat, record: Bytes)
    requires offset + HEADER_SIZE + |record| <= BLOCK_SIZE
    ensures AddFrom(crc, offset, record, true, []) == Written(Physical(crc, FULL_TYPE, record), offset + HEADER_SIZE + |record|, true, [])
  {
    hide Physical;
    UnfoldAddFrom(crc, offset, record, true, []);
  }

  /** A header whose record does not fit into the rest of the file ends the reading. */
  lemma HeaderHides(crc: Bytes -> Word, record: Bytes, rest: Bytes)
    requires HEADER_SIZE + |record| <= BLOCK_SIZE && |rest| < |record|
    ensures var file := Physical(crc, FULL_TYPE, record)[..HEADER_SIZE] + rest; ReadAll(crc, true, file, 0) == ([], [])
  {
    hide EncodeFixed32, Mask, Unmask, DecodeFixed32, NextLogical;
    var p := Physical(crc, FULL_TYPE, record);
    var file := p[..HEADER_SIZE] + rest;
    assert p == EncodeFixed32(Mask(crc([FULL_TYPE] + record))) + ([|record| % 256, |record| / 256, FULL_TYPE] + record);
    assert file[4] == p[4] == |record| % 256 && file[5] == p[5] == |record| / 256;
    assert file[0..|file|] == file;
    assert NextPhysical(crc, true, file, 0) == (Eof, |file|);
    UnfoldLogical(crc, true, file, 0, None);
    UnfoldAll(crc, true, file, 0);
  }

  /** A failed write that leaves only its header in the log, and is told an error; then a sync write that is
      shorter, meets no fault and is acknowledged OK. Reading the log finds neither. */
  lemma {:induction false} LosesSyncedWrite(crc: Bytes -> Word, a: Op, b: Op) returns (states: seq<State>, steps: seq<Step>)
    requires Encodable(a) && Encodable(b)
    requires |EncodeOp(b)| + HEADER_SIZE < |EncodeOp(a)| && |EncodeOp(a)| + |EncodeOp(b)| + 2 * (HEADER + HEADER_SIZE) <= BLOCK_SIZE
    ensures IsRun(crc, states, steps)
    ensures var s := states[|steps|];
      && s.phase.Idle? && s.synced == |s.file| && s.mem == Numbered([b], 2)
      && |s.groups| == 2 && !s.groups[0].ok && s.groups[1].ok && !s.groups[1].inStep
      && s.groups[1].requests == [Request(Some([b]), true)] && s.groups[1].ops == [b]
      && ReadAll(crc, true, s.file, 0) == ([], []) && Replay(ReadAll(crc, true, s.file, 0).0).entries == []
  {
    hide EncodeOp, LogRecord, Physical, Next, AddFrom, Appended, ReadAll, Replay, GroupSize, OpsOf;
    ReplayNone();
    var ra, rb := Request(Some([a]), false), Request(Some([b]), true);
    var recordA, recordB := LogRecord(1, [a]), LogRecord(2, [b]);
    RecordFits(1, a);
    RecordFits(2, b);
    var header, added := Physical(crc, FULL_TYPE, recordA)[..HEADER_SIZE], Physical(crc, FULL_TYPE, recordB);
    var ga, gb := Group([ra], [a], 1, false, false, false, false), Group([rb], [b], 2, false, true, false, false);
    var s0 := State([], Idle, [], 0, true, true, 0, [], 0, false, [], []);
    var s1 := s0.(queue := [ra], arrived := [ra]);
    var s2 := s1.(phase := Leading(1, [a], 1));
    var s3 := s2.(
      phase := Logged(1, [a], 1, false, false, false, 0), file := header, offset := HEADER_SIZE + |recordA|, intact := false, inStep := false);
    var s4 := s3.(phase := Idle, lastSequence := 1, queue := [], groups := [ga]);
    var s5 := s4.(queue := [rb], arrived := [ra, rb]);
    var s6 := s5.(phase := Leading(1, [b], 2));
    var s7 := s6.(
      phase := Logged(1, [b], 2, false, true, false, 0), file := header + added,
      offset := HEADER_SIZE + |recordA| + HEADER_SIZE + |recordB|, synced := |header + added|);
    var s8 := s7.(phase := Logged(1, [b], 2, false, true, false, 1), mem := [EntryOf(b, 2)]);
    var s9 := s8.(phase := Idle, lastSequence := 2, queue := [], groups := [ga, gb]);
    states := [s0, s1, s2, s3, s4, s5, s6, s7, s8, s9];
    steps := [Arrive(ra), Lead, AddRecord([None, Some(0)], true), Finish, Arrive(rb), Lead, AddRecord([], true), InsertOne, Finish];
    LeadsAlone(crc, s1, ra, s2);
    FirstFails(crc, s2, [None, Some(0)], recordA, s3);
    LeadsAlone(crc, s5, rb, s6);
    SecondSucceeds(crc, s6, recordB, s7);
    HeaderHides(crc, recordA, added);
    assert Numbered([b], 2) == [EntryOf(b, 2)];
    assert [ra] + [rb] == [ra, rb] && [ga] + [gb] == [ga, gb];
    ArriveNext(crc, s0, ra, s1);
    FinishNext(crc, s3, ra, s4);
    ArriveNext(crc, s4, rb, s5);
    InsertNext(crc, s7, b, s8);
    FinishNext(crc, s8, rb, s9);
  }

  lemma ArriveNext(crc: Bytes -> Word, s: State, r: Request, s': State)
    requires Acceptable(r) && s' == s.(queue := s.queue + [r], arrived := s.arrived + [r])
    ensures Next(crc, s, Arrive(r), s')
  {
  }

  lemma InsertNext(crc: Bytes -> Word, s: State, op: Op, s': State)
    requires s.phase.Logged? && s.phase.ok && s.phase.ops == [op] && s.phase.inserted == 0
    requires s' == s.(mem := s.mem + [EntryOf(op, s.phase.first)], phase := s.phase.(inserted := 1))
    ensures Next(crc, s, InsertOne, s')
  {
  }

  /** A lone writer leaves. */
  lemma FinishNext(crc: Bytes -> Word, s: State, r: Request, s': State)
    requires s.phase.Logged? && s.phase.n == 1 && s.queue == [r] && (s.phase.ok ==> s.phase.inserted == |s.phase.ops|)
    requires s' == s.(
      phase := Idle, lastSequence := s.lastSequence + |s.phase.ops|, bgError := s.bgError || s.phase.syncError, queue := [],
      groups := s.groups + [Group([r], s.phase.ops, s.phase.first, s.phase.logged, s.phase.ok, s.intact, s.inStep)])
    ensures Next(crc, s, Finish, s')
  {
    assert [r][..1] == [r] && [r][1..] == [];
  }

  lemma FirstFails(crc: Bytes -> Word, s: State, faults: Faults, record: Bytes, s': State)
    requires s.phase.Leading? && s.queue != [] && !s.queue[0].sync && s.file == [] && s.offset == 0 && s.synced == 0
    requires faults == [None, Some(0)] && record == LogRecord(s.phase.first, s.phase.ops) && 0 < |record| && HEADER_SIZE + |record| <= BLOCK_SIZE
    requires s' == s.(
      phase := Logged(s.phase.n, s.phase.ops, s.phase.first, false, false, false, 0),
      file := Physical(crc, FULL_TYPE, record)[..HEADER_SIZE], offset := HEADER_SIZE + |record|, intact := false, inStep := false)
    ensures Next(crc, s, AddRecord(faults, true), s')
  {
    hide LogRecord, AddFrom, Appended, Physical;
    HeaderOnly(crc, 0, record);
    UnfoldAppended(crc, 0, record, true);
    var header := Physical(crc, FULL_TYPE, record)[..HEADER_SIZE];
    assert [] + header == header;
  }

  lemma SecondSucceeds(crc: Bytes -> Word, s: State, record: Bytes, s': State)
    requires s.phase.Leading? && s.queue != [] && s.queue[0].sync && !s.intact && !s.inStep && s.offset + HEADER_SIZE + |record| <= BLOCK_SIZE
    requires record == LogRecord(s.phase.first, s.phase.ops)
    requires var file := s.file + Physical(crc, FULL_TYPE, record);
      s' == s.(
        phase := Logged(s.phase.n, s.phase.ops, s.phase.first, false, true, false, 0), file := file,
        offset := s.offset + HEADER_SIZE + |record|, synced := |file|)
    ensures Next(crc, s, AddRecord([], true), s')
  {
    hide LogRecord, AddFrom, Appended, Physical;
    AddedWhole(crc, s.offset, record);
  }

  /** Recovery of a store without errors fills a fresh memtable with just the entries that its memtable had. */
  method RecoverMemTable(crc: Bytes -> Word, file: Bytes, user: Comparator, heights: nat -> nat, ghost s: State) returns (mem: MemTables.MemTable)
    requires TotalOrder(user.less) && forall i :: 0 < heights(i) <= MAX_HEIGHT
    requires Inv(crc, s) && s.phase.Idle? && s.intact && (forall i | 0 <= i < |s.groups| :: s.groups[i].ok) && file == s.file
    requires s.lastSequence <= MAX_SEQUENCE && forall e | e in s.mem :: MemTables.Storable(e)
    ensures fresh(mem) && mem.Valid() && mem.user == user && Elements(mem.entries) == Elements(s.mem)
  {
    hide Replay, ReadAll, GoodGroups, GoodLog, TotalOrder, MemTables.Storable;
    ReplayRebuilds(crc, s);
    AppliedBelow(s.groups);
    var calls, _ := RecoverLogFile(crc, file);
    mem := new MemTables.MemTable(user);
    mem.AddAll(calls.added, heights);
  }
}
