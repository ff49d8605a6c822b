/** Reading back any prefix of a log gives exactly the records it holds whole (db/log_writer.cc,
    db/log_reader.cc). */
module LogRoundTrip {
  import opened Keys
  import opened Coding
  import opened Crc32c
  import opened Log

  /** The file holds `s` from `pos` on, or ends within it. */
  ghost predicate HoldsAt(file: Bytes, pos: nat, s: Bytes)
    ensures HoldsAt(file, pos, s) ==> pos <= |file|
  {
    && pos <= |file|
    && forall i | 0 <= i < |s| && pos + i < |file| :: file[pos + i] == s[i]
  }

  lemma {:induction false} HoldsParts(file: Bytes, pos: nat, a: Bytes, b: Bytes)
    requires HoldsAt(file, pos, a + b)
    ensures HoldsAt(file, pos, a)
    ensures pos + |a| <= |file| ==> HoldsAt(file, pos + |a|, b)
  {
    forall i | 0 <= i < |a| && pos + i < |file| ensures file[pos + i] == a[i] {
      assert (a + b)[i] == a[i];
    }
    if pos + |a| <= |file| {
      forall i | 0 <= i < |b| && pos + |a| + i < |file| ensures file[pos + |a| + i] == b[i] {
        var j := |a| + i;
        assert (a + b)[j] == b[i] && file[pos + j] == (a + b)[j];
      }
    }
  }

  lemma {:induction false} HoldsSlice(file: Bytes, pos: nat, s: Bytes, limit: nat)
    requires HoldsAt(file, pos, s) && pos + |s| <= limit <= |file|
    ensures file[pos..limit][..|s|] == s
  {
  }

  /** A header read from the front of its bytes. */
  lemma {:induction false} HeaderReads(crc: Bytes -> Word, typ: Byte, payload: Bytes, buffer: Bytes)
    requires |payload| <= 0xffff && HEADER_SIZE + |payload| <= |buffer| && buffer[..HEADER_SIZE + |payload|] == Physical(crc, typ, payload)
    ensures buffer[4] + 256 * buffer[5] as nat == |payload| && buffer[6] == typ
    ensures buffer[HEADER_SIZE..HEADER_SIZE + |payload|] == payload && buffer[6..HEADER_SIZE + |payload|] == [typ] + payload
    ensures Unmask(DecodeFixed32(buffer)) == crc([typ] + payload)
  {
    hide Mask, Unmask, EncodeFixed32, DecodeFixed32;
    var p := Physical(crc, typ, payload);
    var stored := Mask(crc([typ] + payload));
    var rest := [|payload| % 256, |payload| / 256, typ] + payload;
    assert p == EncodeFixed32(stored) + rest;
    assert forall i | 0 <= i < |p| :: buffer[i] == p[i];
    assert p[4] == rest[0] && p[5] == rest[1] && p[6] == rest[2];
    Fixed32RoundTrip(stored, rest);
    SameFixed32(buffer, p);
    UnmaskMask(crc([typ] + payload));
    forall i | 0 <= i < |payload| ensures buffer[HEADER_SIZE + i] == payload[i] {
      assert p[HEADER_SIZE + i] == rest[3 + i];
    }
  }

  lemma {:induction false} SameFixed32(a: Bytes, b: Bytes)
    requires |a| >= 4 && |b| >= 4 && forall i | 0 <= i < 4 :: a[i] == b[i]
    ensures DecodeFixed32(a) == DecodeFixed32(b)
  {
    assert a[..4] == b[..4];
  }

  /** A physical record that is there whole is read back. */
  lemma {:induction false} PhysicalReads(crc: Bytes -> Word, checksum: bool, file: Bytes, pos: nat, typ: Byte, payload: Bytes)
    requires HEADER_SIZE + |payload| <= Leftover(pos) && HoldsAt(file, pos, Physical(crc, typ, payload))
    requires pos + HEADER_SIZE + |payload| <= |file| && typ != ZERO_TYPE
    ensures NextPhysical(crc, checksum, file, pos) == (Record(typ, payload), pos + HEADER_SIZE + |payload|)
  {
    hide Physical, Unmask, DecodeFixed32;
    var limit := BlockLimit(file, pos);
    HoldsSlice(file, pos, Physical(crc, typ, payload), limit);
    HeaderReads(crc, typ, payload, file[pos..limit]);
  }

  /** One that the end of the file cuts short is taken for the end. */
  lemma {:induction false} PhysicalCut(crc: Bytes -> Word, checksum: bool, file: Bytes, pos: nat, typ: Byte, payload: Bytes)
    requires HEADER_SIZE + |payload| <= Leftover(pos) && HoldsAt(file, pos, Physical(crc, typ, payload))
    requires |file| < pos + HEADER_SIZE + |payload|
    ensures NextPhysical(crc, checksum, file, pos) == (Eof, |file|)
  {
    hide EncodeFixed32, Mask, Unmask, DecodeFixed32;
    if |file| - pos >= HEADER_SIZE {
      var p := Physical(crc, typ, payload);
      var buffer := file[pos..|file|];
      assert p == EncodeFixed32(Mask(crc([typ] + payload))) + ([|payload| % 256, |payload| / 256, typ] + payload);
      assert buffer[4] == file[pos + 4] == p[4] && buffer[5] == file[pos + 5] == p[5];
      assert p[4] == |payload| % 256 && p[5] == |payload| / 256;
    }
  }

  lemma {:induction false} AtEnd(crc: Bytes -> Word, checksum: bool, file: Bytes)
    ensures NextLogical(crc, checksum, file, |file|, None) == Outcome(None, |file|, [])
  {
  }

  ghost function Gathered(gathered: Option<Bytes>): Bytes {
    if gathered.Some? then gathered.value else []
  }

  /** The bytes of a record, from the first fragment on or from a later one, are read back; when they are cut
      short there is no record and no complaint. */
  lemma {:induction false} RecordReads(
      crc: Bytes -> Word, checksum: bool, file: Bytes, pos: nat, data: Bytes, gathered: Option<Bytes>)
    requires HoldsAt(file, pos, Appended(crc, pos, data, gathered == None))
    ensures NextLogical(crc, checksum, file, pos, gathered) ==
      if pos + |Appended(crc, pos, data, gathered == None)| <= |file|
      then Outcome(Some(Gathered(gathered) + data), pos + |Appended(crc, pos, data, gathered == None)|, [])
      else Outcome(None, |file|, [])
    decreases |data|, if Leftover(pos) < HEADER_SIZE then 1 else if Leftover(pos) == HEADER_SIZE then 2 else 0
  {
    hide NextPhysical, NextLogical, Appended, Physical, HoldsAt;
    var leftover := Leftover(pos);
    var begin := gathered == None;
    UnfoldAppended(crc, pos, data, begin);
    UnfoldLogical(crc, checksum, file, pos, gathered);
    LeftoverNext(pos);
    if leftover < HEADER_SIZE {
      HoldsParts(file, pos, Zeros(leftover), Appended(crc, pos + leftover, data, begin));
      TrailerReads(crc, checksum, file, pos, gathered);
      if pos + leftover <= |file| {
        RecordReads(crc, checksum, file, pos + leftover, data, gathered);
      }
    } else if |data| <= leftover - HEADER_SIZE {
      LastFragmentReads(crc, checksum, file, pos, data, gathered);
    } else {
      var n := leftover - HEADER_SIZE;
      var typ := FragmentType(begin, false);
      var rest := Appended(crc, pos + leftover, data[n..], false);
      HoldsParts(file, pos, Physical(crc, typ, data[..n]), rest);
      if pos + leftover <= |file| {
        PhysicalReads(crc, checksum, file, pos, typ, data[..n]);
        assert Own(Record(typ, data[..n])) + [] + [] == [];
        assert gathered == None ==> [] + data[..n] == data[..n];
        RecordReads(crc, checksum, file, pos + leftover, data[n..], Some(Gathered(gathered) + data[..n]));
        assert Gathered(gathered) + data[..n] + data[n..] == Gathered(gathered) + data;
      } else {
        PhysicalCut(crc, checksum, file, pos, typ, data[..n]);
        assert Own(Eof) + [] == [];
      }
    }
  }

  /** A trailer too short for a header is skipped, or ends the file. */
  lemma {:induction false} TrailerReads(crc: Bytes -> Word, checksum: bool, file: Bytes, pos: nat, gathered: Option<Bytes>)
    requires Leftover(pos) < HEADER_SIZE && pos <= |file|
    ensures NextLogical(crc, checksum, file, pos, gathered) ==
      if pos + Leftover(pos) <= |file| then NextLogical(crc, checksum, file, pos + Leftover(pos), gathered) else Outcome(None, |file|, [])
  {
    hide NextLogical;
    UnfoldLogical(crc, checksum, file, pos, gathered);
    if pos + Leftover(pos) <= |file| {
      assert NextPhysical(crc, checksum, file, pos) == NextPhysical(crc, checksum, file, pos + Leftover(pos));
      UnfoldLogical(crc, checksum, file, pos + Leftover(pos), gathered);
    }
  }

  lemma {:induction false} LastFragmentReads(crc: Bytes -> Word, checksum: bool, file: Bytes, pos: nat, data: Bytes, gathered: Option<Bytes>)
    requires HEADER_SIZE + |data| <= Leftover(pos) && HoldsAt(file, pos, Physical(crc, FragmentType(gathered == None, true), data))
    ensures NextLogical(crc, checksum, file, pos, gathered) ==
      if pos + HEADER_SIZE + |data| <= |file|
      then Outcome(Some(Gathered(gathered) + data), pos + HEADER_SIZE + |data|, [])
      else Outcome(None, |file|, [])
  {
    hide NextLogical, NextPhysical, Physical, HoldsAt;
    UnfoldLogical(crc, checksum, file, pos, gathered);
    var typ := FragmentType(gathered == None, true);
    if pos + HEADER_SIZE + |data| <= |file| {
      PhysicalReads(crc, checksum, file, pos, typ, data);
      assert Own(Record(typ, data)) + [] == [];
      assert gathered == None ==> [] + data == data;
    } else {
      PhysicalCut(crc, checksum, file, pos, typ, data);
      assert Own(Eof) + [] == [];
    }
  }

  /** How long the log is after the first `i` records. */
  ghost function End(crc: Bytes -> Word, records: seq<Bytes>, i: nat): nat
    requires i <= |records|
  {
    |LogOf(crc, records[..i])|
  }

  lemma {:induction false} LogSnoc(crc: Bytes -> Word, records: seq<Bytes>, i: nat)
    requires i < |records|
    ensures LogOf(crc, records[..i + 1]) == LogOf(crc, records[..i]) + Appended(crc, End(crc, records, i), records[i], true)
  {
    assert records[..i + 1][..i] == records[..i];
  }

  /** A log begins with the log of its first records. */
  lemma {:induction false} LogPrefix(crc: Bytes -> Word, records: seq<Bytes>, i: nat)
    requires i <= |records|
    ensures End(crc, records, i) <= |LogOf(crc, records)| && LogOf(crc, records)[..End(crc, records, i)] == LogOf(crc, records[..i])
    decreases |records| - i
  {
    if i < |records| {
      LogPrefix(crc, records, i + 1);
      LogSnoc(crc, records, i);
      var a, b := LogOf(crc, records[..i]), LogOf(crc, records[..i + 1]);
      assert b[..|a|] == a;
      assert LogOf(crc, records)[..|a|] == LogOf(crc, records)[..|b|][..|a|];
    } else {
      assert records[..i] == records;
    }
  }

  /** The reader at the start of record `i` returns it if the prefix holds it whole, and otherwise reports the
      end of the file without a complaint. */
  lemma {:induction false} PrefixReads(crc: Bytes -> Word, checksum: bool, records: seq<Bytes>, n: nat, i: nat)
    requires i <= |records| && End(crc, records, i) <= n <= |LogOf(crc, records)|
    ensures var file := LogOf(crc, records)[..n];
      NextLogical(crc, checksum, file, End(crc, records, i), None) ==
        if i < |records| && End(crc, records, i + 1) <= n
        then Outcome(Some(records[i]), End(crc, records, i + 1), [])
        else Outcome(None, n, [])
  {
    hide NextLogical, Appended;
    var file := LogOf(crc, records)[..n];
    if i == |records| {
      assert records[..i] == records;
      AtEnd(crc, checksum, file);
    } else {
      var pos := End(crc, records, i);
      var added := Appended(crc, pos, records[i], true);
      LogSnoc(crc, records, i);
      LogPrefix(crc, records, i + 1);
      forall j | 0 <= j < |added| && pos + j < |file| ensures file[pos + j] == added[j] {
        assert file[pos + j] == LogOf(crc, records)[..pos + |added|][pos + j];
      }
      RecordReads(crc, checksum, file, pos, records[i], None);
      assert [] + records[i] == records[i];
    }
  }

  /** All records from `pos` to the first end of the file reported, and all that is reported as dropped. */
  function ReadAll(crc: Bytes -> Word, checksum: bool, file: Bytes, pos: nat): (seq<Bytes>, seq<nat>)
    requires pos <= |file|
    decreases |file| - pos
  {
    var o := NextLogical(crc, checksum, file, pos, None);
    match o.record
    case None => ([], o.dropped)
    case Some(record) =>
      var (records, dropped) := ReadAll(crc, checksum, file, o.next);
      ([record] + records, o.dropped + dropped)
  }

  /** How many of the records lie wholly within the first `n` bytes of their log. */
  ghost function Contained(crc: Bytes -> Word, records: seq<Bytes>, n: nat): (r: nat)
    ensures r <= |records|
  {
    if records == [] then 0
    else if |LogOf(crc, records)| <= n then |records|
    else Contained(crc, records[..|records| - 1], n)
  }

  lemma {:induction false} ContainedMeans(crc: Bytes -> Word, records: seq<Bytes>, n: nat, i: nat)
    requires i <= |records|
    ensures i <= Contained(crc, records, n) <==> End(crc, records, i) <= n
  {
    if i == 0 {
      assert records[..0] == [];
    } else if |LogOf(crc, records)| <= n {
      LogPrefix(crc, records, i);
    } else if i < |records| {
      var init := records[..|records| - 1];
      assert init[..i] == records[..i];
      ContainedMeans(crc, init, n, i);
    } else {
      assert records[..i] == records;
    }
  }

  /** From the start of record `i`, reading to the end gives the rest of the records held whole. */
  lemma {:induction false} ReadsRest(crc: Bytes -> Word, checksum: bool, records: seq<Bytes>, n: nat, i: nat)
    requires n <= |LogOf(crc, records)| && i <= Contained(crc, records, n) && End(crc, records, i) <= n
    ensures ReadAll(crc, checksum, LogOf(crc, records)[..n], End(crc, records, i)) == (records[i..Contained(crc, records, n)], [])
    decreases |records| - i
  {
    hide NextLogical, LogOf;
    PrefixReads(crc, checksum, records, n, i);
    var k := Contained(crc, records, n);
    if i < k {
      ContainedMeans(crc, records, n, i + 1);
      ReadsRest(crc, checksum, records, n, i + 1);
      assert records[i..k] == [records[i]] + records[i + 1..k];
      var none: seq<nat> := [];
      assert none + none == none;
    } else {
      if i < |records| {
        ContainedMeans(crc, records, n, i + 1);
      }
      assert records[i..k] == [];
    }
  }

  /** Any prefix of a log reads as exactly the records it holds whole, with nothing reported as dropped. */
  lemma {:induction false} PrefixRoundTrip(crc: Bytes -> Word, checksum: bool, records: seq<Bytes>, n: nat)
    requires n <= |LogOf(crc, records)|
    ensures ReadAll(crc, checksum, LogOf(crc, records)[..n], 0) == (records[..Contained(crc, records, n)], [])
    ensures forall i | 0 <= i <= |records| :: i <= Contained(crc, records, n) <==> End(crc, records, i) <= n
  {
    hide ReadAll;
    assert records[..0] == [];
    ReadsRest(crc, checksum, records, n, 0);
    forall i | 0 <= i <= |records| ensures i <= Contained(crc, records, n) <==> End(crc, records, i) <= n {
      ContainedMeans(crc, records, n, i);
    }
  }

  /** The whole log reads back. */
  lemma {:induction false} LogReadsBack(crc: Bytes -> Word, checksum: bool, records: seq<Bytes>)
    ensures ReadAll(crc, checksum, LogOf(crc, records), 0) == (records, [])
  {
    var log := LogOf(crc, records);
    PrefixRoundTrip(crc, checksum, records, |log|);
    assert log[..|log|] == log;
    assert records[..|records|] == records;
  }

  /** What a record adds depends only on where in its block the log ends. */
  lemma {:induction false} AppendedShift(crc: Bytes -> Word, pos: nat, other: nat, data: Bytes, begin: bool)
    requires pos % BLOCK_SIZE == other % BLOCK_SIZE
    ensures Appended(crc, pos, data, begin) == Appended(crc, other, data, begin)
    decreases |data|, if Leftover(pos) < HEADER_SIZE then 1 else if Leftover(pos) == HEADER_SIZE then 2 else 0
  {
    hide Appended, Physical;
    UnfoldAppended(crc, pos, data, begin);
    UnfoldAppended(crc, other, data, begin);
    LeftoverNext(pos);
    LeftoverNext(other);
    var next, otherNext := pos + Leftover(pos), other + Leftover(other);
    assert next % BLOCK_SIZE == otherNext % BLOCK_SIZE;
    if Leftover(pos) < HEADER_SIZE {
      AppendedShift(crc, next, otherNext, data, begin);
    } else if |data| > Leftover(pos) - HEADER_SIZE {
      AppendedShift(crc, next, otherNext, data[Leftover(pos) - HEADER_SIZE..], false);
    }
  }

  /** The offset is that of a file of length `n` in its block. */
  predicate InStep(offset: nat, n: nat) {
    offset % BLOCK_SIZE == n % BLOCK_SIZE
  }

  lemma StepOn(offset: nat, n: nat, k: nat)
    requires InStep(offset, n)
    ensures InStep(offset + k, n + k)
  {
    assert (offset + k) % BLOCK_SIZE == (offset % BLOCK_SIZE + k) % BLOCK_SIZE;
    assert (n + k) % BLOCK_SIZE == (n % BLOCK_SIZE + k) % BLOCK_SIZE;
  }

  /** In step, both have as much of the block left, and the next block begins for both. */
  lemma StepLeftover(offset: nat, n: nat)
    requires offset <= BLOCK_SIZE && InStep(offset, n)
    ensures if offset == BLOCK_SIZE then InStep(0, n) else Leftover(n) == BLOCK_SIZE - offset && InStep(0, n + (BLOCK_SIZE - offset))
  {
    LeftoverNext(n);
  }

  /** Without faults AddRecord appends the whole record and stays in step. */
  lemma {:induction false} NoFaults(crc: Bytes -> Word, offset: nat, n: nat, data: Bytes, begin: bool, faults: Faults)
    requires offset <= BLOCK_SIZE && InStep(offset, n) && AllSucceed(faults)
    ensures var w := AddFrom(crc, offset, data, begin, faults);
      w.added == Appended(crc, n, data, begin) && w.ok && AllSucceed(w.faults) && InStep(w.offset, n + |w.added|)
    decreases |data|, if BLOCK_SIZE - offset < HEADER_SIZE then 1 else if BLOCK_SIZE - offset == HEADER_SIZE then 2 else 0
  {
    hide AddFrom, Appended, Physical, Emitted, AllSucceed, InStep, Leftover;
    var leftover := BLOCK_SIZE - offset;
    UnfoldAddFrom(crc, offset, data, begin, faults);
    UnfoldAppended(crc, n, data, begin);
    SucceedsFirst(faults);
    StepLeftover(offset, n);
    if leftover == 0 {
      NoFaults(crc, 0, n, data, begin, faults);
    } else if leftover < HEADER_SIZE {
      NoFaults(crc, 0, n + leftover, data, begin, Later(faults));
      var rest := Appended(crc, n + leftover, data, begin);
      assert n + leftover + |rest| == n + |Zeros(leftover) + rest|;
    } else if |data| <= leftover - HEADER_SIZE {
      EmittedWhole(crc, offset, FragmentType(begin, true), data, faults);
      StepOn(offset, n, HEADER_SIZE + |data|);
    } else {
      var avail := leftover - HEADER_SIZE;
      EmittedWhole(crc, offset, FragmentType(begin, false), data[..avail], faults);
      var e := Emitted(crc, offset, FragmentType(begin, false), data[..avail], faults);
      StepOn(offset, n, leftover);
      NoFaults(crc, e.offset, n + leftover, data[avail..], false, e.faults);
    }
  }

  lemma SucceedsFirst(faults: Faults)
    requires AllSucceed(faults)
    ensures Succeeds(faults) && AllSucceed(Later(faults))
  {
  }

  lemma EmittedWhole(crc: Bytes -> Word, offset: nat, typ: Byte, payload: Bytes, faults: Faults)
    requires |payload| <= 0xffff && AllSucceed(faults)
    ensures var e := Emitted(crc, offset, typ, payload, faults);
      e == Written(Physical(crc, typ, payload), offset + HEADER_SIZE + |payload|, true, e.faults) && AllSucceed(e.faults)
  {
  }

  /** Writing some records, stopping, and going on with a new writer at the end of the log leaves the log that
      one writer would have left. */
  method WriteAndResume(crc: Bytes -> Word, first: seq<Bytes>, second: seq<Bytes>) returns (log: Bytes)
    ensures log == LogOf(crc, first + second)
  {
    var dest := new WritableFile([], []);
    var w := new Writer(crc, dest);
    AddRecords(w, [], first);
    assert [] + first == first;
    var resumed := new Writer.Resume(crc, dest, |dest.contents|);
    AddRecords(resumed, first, second);
    log := dest.contents;
  }

  method AddRecords(w: Writer, ghost before: seq<Bytes>, records: seq<Bytes>)
    requires w.Valid() && w.dest.contents == LogOf(w.crc, before) && InStep(w.blockOffset, |w.dest.contents|) && AllSucceed(w.dest.faults)
    modifies w, w.dest
    ensures w.Valid() && w.dest.contents == LogOf(w.crc, before + records) && InStep(w.blockOffset, |w.dest.contents|)
    ensures AllSucceed(w.dest.faults)
  {
    hide Appended, AddFrom, AllSucceed, InStep;
    assert before + records[..0] == before;
    for i := 0 to |records|
      invariant w.Valid() && w.dest.contents == LogOf(w.crc, before + records[..i]) && InStep(w.blockOffset, |w.dest.contents|)
      invariant AllSucceed(w.dest.faults)
    {
      var next := before + records[..i + 1];
      assert next[..|next| - 1] == before + records[..i];
      NoFaults(w.crc, w.blockOffset, |w.dest.contents|, records[i], true, w.dest.faults);
      var _ := w.AddRecord(records[i]);
    }
    assert records[..|records|] == records;
  }

  lemma UnfoldAll(crc: Bytes -> Word, checksum: bool, file: Bytes, pos: nat)
    requires pos <= |file|
    ensures var o := NextLogical(crc, checksum, file, pos, None);
      ReadAll(crc, checksum, file, pos) ==
        if o.record == None then ([], o.dropped)
        else ([o.record.value] + ReadAll(crc, checksum, file, o.next).0, o.dropped + ReadAll(crc, checksum, file, o.next).1)
  {
  }

  /** A reader run to the end of a prefix. */
  method ReadBack(crc: Bytes -> Word, checksum: bool, ghost records: seq<Bytes>, file: Bytes) returns (read: seq<Bytes>, dropped: seq<nat>)
    requires |file| <= |LogOf(crc, records)| && file == LogOf(crc, records)[..|file|]
    ensures read == records[..Contained(crc, records, |file|)] && dropped == []
  {
    hide NextLogical, LogOf, ReadAll, Reader.Valid, Reader.Pos;
    var reader := new Reader(crc, checksum, file);
    read := [];
    PrefixRoundTrip(crc, checksum, records, |file|);
    ghost var all, reports := ReadAll(crc, checksum, file, 0).0, ReadAll(crc, checksum, file, 0).1;
    while true
      invariant reader.Valid() && reader.crc == crc && reader.checksum == checksum && reader.file == file
      invariant read + ReadAll(crc, checksum, file, reader.Pos()).0 == all
      invariant reader.dropped + ReadAll(crc, checksum, file, reader.Pos()).1 == reports
      decreases |file| - reader.Pos()
    {
      UnfoldAll(crc, checksum, file, reader.Pos());
      var record := reader.ReadRecord();
      if record == None {
        return read, reader.dropped;
      }
      read := read + [record.value];
    }
  }
}
