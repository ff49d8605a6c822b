/** Log writes that fail (db/log_writer.cc): after which of them a writer may go on, and what becomes of the
    records it adds after the others. */
module LogFaults {
  import opened Keys
  import opened Coding
  import opened Crc32c
  import opened Log
  import opened LogRoundTrip

  /** The records read from `pos` on, with the fragments gathered so far. */
  function ReadFrom(crc: Bytes -> Word, checksum: bool, file: Bytes, pos: nat, gathered: Option<Bytes>): seq<Bytes>
    requires pos <= |file|
    decreases |file| - pos
  {
    var o := NextLogical(crc, checksum, file, pos, gathered);
    if o.record == None then [] else [o.record.value] + ReadFrom(crc, checksum, file, o.next, None)
  }

  lemma {:induction false} ReadFromIs(crc: Bytes -> Word, checksum: bool, file: Bytes, pos: nat)
    requires pos <= |file|
    ensures ReadAll(crc, checksum, file, pos).0 == ReadFrom(crc, checksum, file, pos, None)
    decreases |file| - pos
  {
    hide NextLogical;
    UnfoldAll(crc, checksum, file, pos);
    var o := NextLogical(crc, checksum, file, pos, None);
    if o.record.Some? {
      ReadFromIs(crc, checksum, file, o.next);
    }
  }

  /** A log is read first, whatever follows it. */
  lemma {:induction false} LogThenMore(crc: Bytes -> Word, checksum: bool, records: seq<Bytes>, file: Bytes, i: nat)
    requires LogOf(crc, records) <= file && i <= |records|
    ensures End(crc, records, i) <= |LogOf(crc, records)|
    ensures ReadAll(crc, checksum, file, End(crc, records, i)).0 == records[i..] + ReadAll(crc, checksum, file, |LogOf(crc, records)|).0
    decreases |records| - i
  {
    hide NextLogical, Appended, LogOf, ReadAll;
    LogPrefix(crc, records, i);
    var log, pos := LogOf(crc, records), End(crc, records, i);
    if i == |records| {
      assert records[..i] == records;
      assert records[i..] == [];
    } else {
      LogThenMore(crc, checksum, records, file, i + 1);
      LogSnoc(crc, records, i);
      LogPrefix(crc, records, i + 1);
      var added := Appended(crc, pos, records[i], true);
      forall j | 0 <= j < |added| && pos + j < |file| ensures file[pos + j] == added[j] {
        assert file[pos + j] == log[..pos + |added|][pos + j];
      }
      RecordReads(crc, checksum, file, pos, records[i], None);
      assert [] + records[i] == records[i];
      UnfoldAll(crc, checksum, file, pos);
      assert records[i..] == [records[i]] + records[i + 1..];
    }
  }

  /** Reading from `pos` comes to `next`, whatever it returns and gathers on the way. */
  ghost predicate Arrives(crc: Bytes -> Word, checksum: bool, file: Bytes, pos: nat, gathered: Option<Bytes>, next: nat)
    requires pos <= |file| && next <= |file|
  {
    exists xs: seq<Bytes>, more: Option<Bytes> ::
      ReadFrom(crc, checksum, file, pos, gathered) == xs + ReadFrom(crc, checksum, file, next, more)
  }

  lemma Stay(crc: Bytes -> Word, checksum: bool, file: Bytes, pos: nat, gathered: Option<Bytes>)
    requires pos <= |file|
    ensures Arrives(crc, checksum, file, pos, gathered, pos)
  {
    hide ReadFrom;
    var none: seq<Bytes> := [];
    assert ReadFrom(crc, checksum, file, pos, gathered) == none + ReadFrom(crc, checksum, file, pos, gathered);
  }

  lemma GoOn(crc: Bytes -> Word, checksum: bool, file: Bytes, pos: nat, gathered: Option<Bytes>, mid: nat, next: nat)
    requires pos <= |file| && mid <= |file| && next <= |file| && Arrives(crc, checksum, file, pos, gathered, mid)
    requires forall more :: Arrives(crc, checksum, file, mid, more, next)
    ensures Arrives(crc, checksum, file, pos, gathered, next)
  {
    hide ReadFrom;
    var xs: seq<Bytes>, more: Option<Bytes> :|
      ReadFrom(crc, checksum, file, pos, gathered) == xs + ReadFrom(crc, checksum, file, mid, more);
    assert Arrives(crc, checksum, file, mid, more, next);
    var ys: seq<Bytes>, last: Option<Bytes> :|
      ReadFrom(crc, checksum, file, mid, more) == ys + ReadFrom(crc, checksum, file, next, last);
    assert xs + (ys + ReadFrom(crc, checksum, file, next, last)) == (xs + ys) + ReadFrom(crc, checksum, file, next, last);
  }

  /** A physical record is passed. */
  lemma OneStep(crc: Bytes -> Word, checksum: bool, file: Bytes, pos: nat, gathered: Option<Bytes>)
    requires pos <= |file|
    ensures var (physical, next) := NextPhysical(crc, checksum, file, pos);
      !physical.Eof? ==> Arrives(crc, checksum, file, pos, gathered, next)
  {
    hide NextPhysical, NextLogical;
    UnfoldLogical(crc, checksum, file, pos, gathered);
    var (physical, next) := NextPhysical(crc, checksum, file, pos);
    if !physical.Eof? {
      match Take(physical, gathered)
      case Settled(record, _) =>
        assert ReadFrom(crc, checksum, file, pos, gathered) == [record.value] + ReadFrom(crc, checksum, file, next, None);
      case Going(more, _) =>
        var none: seq<Bytes> := [];
        assert ReadFrom(crc, checksum, file, pos, gathered) == none + ReadFrom(crc, checksum, file, next, more);
    }
  }

  lemma Skip(crc: Bytes -> Word, checksum: bool, file: Bytes, pos: nat, gathered: Option<Bytes>)
    requires Leftover(pos) < HEADER_SIZE && BlockEnd(pos) <= |file|
    ensures ReadFrom(crc, checksum, file, pos, gathered) == ReadFrom(crc, checksum, file, BlockEnd(pos), gathered)
  {
    hide NextLogical;
    TrailerReads(crc, checksum, file, pos, gathered);
  }

  /** Whatever a block holds, reading comes to its end. */
  lemma {:induction false} ToBlockEnd(crc: Bytes -> Word, checksum: bool, file: Bytes, pos: nat, gathered: Option<Bytes>, end: nat)
    requires end == BlockEnd(pos) <= |file|
    ensures Arrives(crc, checksum, file, pos, gathered, end)
    decreases end - pos
  {
    hide Arrives, ReadFrom, ParsePhysical;
    if Leftover(pos) < HEADER_SIZE {
      Skip(crc, checksum, file, pos, gathered);
      Stay(crc, checksum, file, end, gathered);
      SameArrival(crc, checksum, file, pos, gathered, end, end);
    } else {
      WholeParses(crc, checksum, file[pos..end]);
      var (physical, next) := NextPhysical(crc, checksum, file, pos);
      OneStep(crc, checksum, file, pos, gathered);
      if next < end {
        assert BlockEnd(next) == end;
        forall more ensures Arrives(crc, checksum, file, next, more, end) {
          ToBlockEnd(crc, checksum, file, next, more, end);
        }
        GoOn(crc, checksum, file, pos, gathered, next, end);
      }
    }
  }

  lemma WholeParses(crc: Bytes -> Word, checksum: bool, buffer: Bytes)
    requires |buffer| >= HEADER_SIZE
    ensures !ParsePhysical(crc, checksum, buffer, true).0.Eof?
  {
  }

  lemma SameArrival(crc: Bytes -> Word, checksum: bool, file: Bytes, pos: nat, gathered: Option<Bytes>, other: nat, next: nat)
    requires pos <= |file| && other <= |file| && next <= |file|
    requires ReadFrom(crc, checksum, file, pos, gathered) == ReadFrom(crc, checksum, file, other, gathered)
    requires Arrives(crc, checksum, file, other, gathered, next)
    ensures Arrives(crc, checksum, file, pos, gathered, next)
  {
  }

  /** And to every later block. */
  lemma {:induction false} ToBlock(crc: Bytes -> Word, checksum: bool, file: Bytes, pos: nat, gathered: Option<Bytes>, block: nat)
    requires pos <= block * BLOCK_SIZE <= |file|
    ensures Arrives(crc, checksum, file, pos, gathered, block * BLOCK_SIZE)
    decreases block * BLOCK_SIZE - pos
  {
    hide Arrives;
    var target := block * BLOCK_SIZE;
    if pos == target {
      Stay(crc, checksum, file, pos, gathered);
    } else {
      var end := BlockEnd(pos);
      EndBefore(pos, block);
      ToBlockEnd(crc, checksum, file, pos, gathered, end);
      forall more ensures Arrives(crc, checksum, file, end, more, target) {
        ToBlock(crc, checksum, file, end, more, block);
      }
      GoOn(crc, checksum, file, pos, gathered, end, target);
    }
  }

  lemma EndBefore(pos: nat, block: nat)
    requires pos < block * BLOCK_SIZE
    ensures pos < BlockEnd(pos) <= block * BLOCK_SIZE
  {
    assert pos == pos / BLOCK_SIZE * BLOCK_SIZE + pos % BLOCK_SIZE;
    assert BlockEnd(pos) == (pos / BLOCK_SIZE + 1) * BLOCK_SIZE;
    assert pos / BLOCK_SIZE < block;
  }

  /** A record with its first fragment at `pos` is read whatever was gathered before. */
  lemma {:induction false} StartReads(crc: Bytes -> Word, checksum: bool, file: Bytes, pos: nat, data: Bytes, gathered: Option<Bytes>)
    requires HoldsAt(file, pos, Appended(crc, pos, data, true)) && pos + |Appended(crc, pos, data, true)| <= |file|
    ensures var o := NextLogical(crc, checksum, file, pos, gathered);
      o.record == Some(data) && o.next == pos + |Appended(crc, pos, data, true)|
    decreases if Leftover(pos) < HEADER_SIZE then 1 else 0
  {
    hide NextLogical, NextPhysical, Appended, Physical, HoldsAt;
    RecordReads(crc, checksum, file, pos, data, None);
    assert [] + data == data;
    UnfoldAppended(crc, pos, data, true);
    var leftover := Leftover(pos);
    LeftoverNext(pos);
    if leftover < HEADER_SIZE {
      HoldsParts(file, pos, Zeros(leftover), Appended(crc, pos + leftover, data, true));
      TrailerReads(crc, checksum, file, pos, gathered);
      StartReads(crc, checksum, file, pos + leftover, data, gathered);
    } else {
      UnfoldLogical(crc, checksum, file, pos, gathered);
      UnfoldLogical(crc, checksum, file, pos, None);
      if |data| <= leftover - HEADER_SIZE {
        PhysicalReads(crc, checksum, file, pos, FULL_TYPE, data);
      } else {
        var n := leftover - HEADER_SIZE;
        HoldsParts(file, pos, Physical(crc, FIRST_TYPE, data[..n]), Appended(crc, pos + leftover, data[n..], false));
        PhysicalReads(crc, checksum, file, pos, FIRST_TYPE, data[..n]);
      }
    }
  }

  /** There is no end of a block within a trailer's length before `pos`, or it is at it. */
  predicate AtBlockEnd(pos: nat) {
    pos % BLOCK_SIZE == 0 || Leftover(pos) < HEADER_SIZE
  }

  /** A fault that leaves bytes of a trailer unwritten is made up for only by another in a whole block, of which
      as many bytes or fewer are written: they end in that trailer. */
  lemma {:induction false} Slipped(crc: Bytes -> Word, pos: nat, missing: nat, block: nat, data: Bytes, begin: bool, faults: Faults)
    requires 1 <= missing < HEADER_SIZE && pos + missing == block * BLOCK_SIZE
    ensures var w := AddFrom(crc, 0, data, begin, faults); InStep(w.offset, pos + |w.added|) ==> AtBlockEnd(pos + |w.added|)
    decreases |data|
  {
    hide AddFrom, Emitted, Physical, InStep, AtBlockEnd;
    UnfoldAddFrom(crc, 0, data, begin, faults);
    var avail := BLOCK_SIZE - HEADER_SIZE;
    var n := if |data| <= avail then |data| else avail;
    var e := Emitted(crc, 0, FragmentType(begin, n == |data|), data[..n], faults);
    if n == |data| {
      assert data[..n] == data;
    }
    EmittedMeans(crc, 0, FragmentType(begin, n == |data|), data[..n], faults);
    if n < |data| && e.ok {
      UnfoldAddFrom(crc, BLOCK_SIZE, data[n..], false, e.faults);
      Slipped(crc, pos + BLOCK_SIZE, missing, block + 1, data[n..], false, e.faults);
      var rest := AddFrom(crc, 0, data[n..], false, e.faults);
      assert pos + BLOCK_SIZE + |rest.added| == pos + |e.added + rest.added|;
    } else {
      SlippedEnd(pos, missing, block, HEADER_SIZE + n, |e.added|);
    }
  }

  lemma EmittedMeans(crc: Bytes -> Word, offset: nat, typ: Byte, payload: Bytes, faults: Faults)
    requires |payload| <= 0xffff
    ensures var e := Emitted(crc, offset, typ, payload, faults);
      && e.added <= Physical(crc, typ, payload) && (e.ok ==> e.added == Physical(crc, typ, payload))
      && e.offset == offset + HEADER_SIZE + |payload| && |e.added| <= HEADER_SIZE + |payload|
  {
  }

  lemma SlippedEnd(pos: nat, missing: nat, block: nat, size: nat, reached: nat)
    requires 1 <= missing < HEADER_SIZE && pos + missing == block * BLOCK_SIZE && reached <= size <= BLOCK_SIZE
    ensures InStep(size, pos + reached) ==> AtBlockEnd(pos + reached)
  {
    if InStep(size, pos + reached) {
      var p := pos + reached;
      // Both are as far from the end of a block.
      assert (p + missing + (size - reached)) == block * BLOCK_SIZE + size;
      assert (block * BLOCK_SIZE + size) % BLOCK_SIZE == size % BLOCK_SIZE;
      assert (p + (missing + (size - reached))) % BLOCK_SIZE == p % BLOCK_SIZE;
      var d := missing + (size - reached);
      SameRest(p, d);
      assert d == BLOCK_SIZE;
      assert p == block * BLOCK_SIZE + size - BLOCK_SIZE;
      assert BLOCK_SIZE - size < HEADER_SIZE;
    }
  }

  lemma SameRest(p: nat, d: nat)
    requires (p + d) % BLOCK_SIZE == p % BLOCK_SIZE && 0 < d < 2 * BLOCK_SIZE
    ensures d == BLOCK_SIZE
  {
    var q, r := p / BLOCK_SIZE, (p + d) / BLOCK_SIZE;
    assert p == q * BLOCK_SIZE + p % BLOCK_SIZE && p + d == r * BLOCK_SIZE + p % BLOCK_SIZE;
    assert d == (r - q) * BLOCK_SIZE;
  }

  /** Any reading that started before comes to the end of a block. */
  lemma LandsAtEnd(crc: Bytes -> Word, checksum: bool, file: Bytes, pos: nat, gathered: Option<Bytes>, next: nat)
    requires pos <= next <= |file| && AtBlockEnd(next) && (Leftover(next) < HEADER_SIZE ==> BlockEnd(next) <= |file|)
    ensures Arrives(crc, checksum, file, pos, gathered, next)
  {
    hide ReadFrom;
    if next % BLOCK_SIZE == 0 {
      assert next == next / BLOCK_SIZE * BLOCK_SIZE;
      ToBlock(crc, checksum, file, pos, gathered, next / BLOCK_SIZE);
    } else {
      var end := BlockEnd(next);
      assert end == (next / BLOCK_SIZE + 1) * BLOCK_SIZE;
      ToBlock(crc, checksum, file, pos, gathered, next / BLOCK_SIZE + 1);
      var xs: seq<Bytes>, more: Option<Bytes> :|
        ReadFrom(crc, checksum, file, pos, gathered) == xs + ReadFrom(crc, checksum, file, end, more);
      Skip(crc, checksum, file, next, more);
    }
  }

  /** When a write leaves the writer in step, faults or not, reading comes to where it left off. */
  lemma {:induction false} InStepLands(
      crc: Bytes -> Word, checksum: bool, file: Bytes, pos: nat, gathered: Option<Bytes>, offset: nat, data: Bytes, begin: bool, faults: Faults)
    requires offset <= BLOCK_SIZE && InStep(offset, pos)
    requires var w := AddFrom(crc, offset, data, begin, faults);
      var next := pos + |w.added|;
      && next <= |file| && HoldsAt(file, pos, w.added) && InStep(w.offset, next) && (Leftover(next) < HEADER_SIZE ==> BlockEnd(next) <= |file|)
    ensures Arrives(crc, checksum, file, pos, gathered, pos + |AddFrom(crc, offset, data, begin, faults).added|)
    decreases |data|, if BLOCK_SIZE - offset < HEADER_SIZE then 1 else if BLOCK_SIZE - offset == HEADER_SIZE then 2 else 0
  {
    hide AddFrom, Emitted, Physical, InStep, AtBlockEnd, Arrives, HoldsAt, Leftover;
    var w := AddFrom(crc, offset, data, begin, faults);
    var leftover, next := BLOCK_SIZE - offset, pos + |w.added|;
    UnfoldAddFrom(crc, offset, data, begin, faults);
    StepLeftover(offset, pos);
    if leftover == 0 {
      InStepLands(crc, checksum, file, pos, gathered, 0, data, begin, faults);
    } else if leftover < HEADER_SIZE {
      var reached := Reached(faults, Zeros(leftover));
      TrailerParts(file, pos, reached, AddFrom(crc, 0, data, begin, Later(faults)).added, w.added);
      if |reached| == leftover {
        var end := pos + leftover;
        forall more ensures Arrives(crc, checksum, file, end, more, next) {
          InStepLands(crc, checksum, file, end, more, 0, data, begin, Later(faults));
        }
        ToBlockEnd(crc, checksum, file, pos, gathered, end);
        GoOn(crc, checksum, file, pos, gathered, end, next);
      } else {
        BlockOf(pos + leftover);
        Slipped(crc, pos + |reached|, leftover - |reached|, (pos + leftover) / BLOCK_SIZE, data, begin, Later(faults));
        LandsAtEnd(crc, checksum, file, pos, gathered, next);
      }
    } else {
      var avail := leftover - HEADER_SIZE;
      var n := if |data| <= avail then |data| else avail;
      var typ := FragmentType(begin, n == |data|);
      if n == |data| {
        assert data[..n] == data;
      }
      FragmentLands(crc, checksum, file, pos, gathered, offset, data, n, begin, faults);
    }
  }

  lemma TrailerParts(file: Bytes, pos: nat, a: Bytes, b: Bytes, added: Bytes)
    requires added == a + b && pos + |added| <= |file| && HoldsAt(file, pos, added)
    ensures HoldsAt(file, pos + |a|, b) && pos + |added| == pos + |a| + |b|
  {
    HoldsParts(file, pos, a, b);
  }

  lemma BlockOf(pos: nat)
    requires InStep(0, pos)
    ensures pos == pos / BLOCK_SIZE * BLOCK_SIZE
  {
  }

  /** The part of InStepLands about a fragment and what follows it. */
  lemma {:induction false} FragmentLands(
      crc: Bytes -> Word, checksum: bool, file: Bytes, pos: nat, gathered: Option<Bytes>, offset: nat, data: Bytes, n: nat, begin: bool,
      faults: Faults)
    requires offset + HEADER_SIZE <= BLOCK_SIZE && InStep(offset, pos)
    requires n == if |data| <= BLOCK_SIZE - offset - HEADER_SIZE then |data| else BLOCK_SIZE - offset - HEADER_SIZE
    requires var w := AddFrom(crc, offset, data, begin, faults);
      var next := pos + |w.added|;
      && next <= |file| && HoldsAt(file, pos, w.added) && InStep(w.offset, next) && (Leftover(next) < HEADER_SIZE ==> BlockEnd(next) <= |file|)
    ensures Arrives(crc, checksum, file, pos, gathered, pos + |AddFrom(crc, offset, data, begin, faults).added|)
    decreases |data|, if BLOCK_SIZE - offset == HEADER_SIZE then 2 else 0, 0
  {
    hide AddFrom, Emitted, Physical, InStep, AtBlockEnd, Arrives, HoldsAt, Leftover;
    var w := AddFrom(crc, offset, data, begin, faults);
    var typ := FragmentType(begin, n == |data|);
    if n == |data| {
      assert data[..n] == data;
    }
    var e := Emitted(crc, offset, typ, data[..n], faults);
    UnfoldAddFrom(crc, offset, data, begin, faults);
    EmittedMeans(crc, offset, typ, data[..n], faults);
    StepLeftover(offset, pos);
    var next := pos + |w.added|;
    if |e.added| == HEADER_SIZE + n {
      assert e.added == Physical(crc, typ, data[..n]);
      var mid := pos + HEADER_SIZE + n;
      if n < |data| && e.ok {
        var rest := AddFrom(crc, e.offset, data[n..], false, e.faults);
        HoldsParts(file, pos, e.added, rest.added);
        StepOn(offset, pos, HEADER_SIZE + n);
        forall more ensures Arrives(crc, checksum, file, mid, more, next) {
          InStepLands(crc, checksum, file, mid, more, e.offset, data[n..], false, e.faults);
        }
        Passed(crc, checksum, file, pos, gathered, typ, data[..n]);
        GoOn(crc, checksum, file, pos, gathered, mid, next);
      } else {
        Passed(crc, checksum, file, pos, gathered, typ, data[..n]);
      }
    } else {
      NothingReached(offset, pos, HEADER_SIZE + n, |e.added|);
      Stay(crc, checksum, file, pos, gathered);
    }
  }

  lemma Passed(crc: Bytes -> Word, checksum: bool, file: Bytes, pos: nat, gathered: Option<Bytes>, typ: Byte, payload: Bytes)
    requires HEADER_SIZE + |payload| <= Leftover(pos) && HoldsAt(file, pos, Physical(crc, typ, payload))
    requires pos + HEADER_SIZE + |payload| <= |file| && typ != ZERO_TYPE
    ensures Arrives(crc, checksum, file, pos, gathered, pos + HEADER_SIZE + |payload|)
  {
    hide NextPhysical, Physical, Arrives;
    PhysicalReads(crc, checksum, file, pos, typ, payload);
    OneStep(crc, checksum, file, pos, gathered);
  }

  /** A fragment of which not all is written leaves the writer in step only if it is a whole block, and nothing
      of it is written. */
  lemma NothingReached(offset: nat, pos: nat, size: nat, reached: nat)
    requires InStep(offset, pos) && reached < size <= BLOCK_SIZE && InStep(offset + size, pos + reached)
    ensures reached == 0
  {
    StepOn(offset, pos, reached);
    assert (offset + reached + (size - reached)) % BLOCK_SIZE == (offset + reached) % BLOCK_SIZE;
    SameRest(offset + reached, size - reached);
  }

  /** The last record read of a file. */
  ghost predicate LastRead(crc: Bytes -> Word, checksum: bool, file: Bytes, record: Bytes) {
    var records := ReadAll(crc, checksum, file, 0).0;
    records != [] && records[|records| - 1] == record
  }

  /** A record at the end of the file is read once reading comes to where it begins. */
  lemma LandedReads(crc: Bytes -> Word, checksum: bool, file: Bytes, pos: nat, gathered: Option<Bytes>, next: nat, record: Bytes)
    requires pos <= |file| && next <= |file| && Arrives(crc, checksum, file, pos, gathered, next)
    requires HoldsAt(file, next, Appended(crc, next, record, true)) && next + |Appended(crc, next, record, true)| == |file|
    ensures exists xs: seq<Bytes> :: ReadFrom(crc, checksum, file, pos, gathered) == xs + [record]
  {
    hide NextLogical, Appended, HoldsAt;
    var xs: seq<Bytes>, more: Option<Bytes> :|
      ReadFrom(crc, checksum, file, pos, gathered) == xs + ReadFrom(crc, checksum, file, next, more);
    StartReads(crc, checksum, file, next, record, more);
    AtEnd(crc, checksum, file);
    assert ReadFrom(crc, checksum, file, next, more) == [record];
  }

  lemma ShiftInStep(crc: Bytes -> Word, offset: nat, pos: nat, data: Bytes)
    requires InStep(offset, pos)
    ensures Appended(crc, offset, data, true) == Appended(crc, pos, data, true)
  {
    AppendedShift(crc, offset, pos, data, true);
  }

  lemma HoldsMiddle(a: Bytes, b: Bytes, c: Bytes)
    ensures HoldsAt(a + b + c, |a|, b) && HoldsAt(a + b + c, |a + b|, c) && a <= a + b + c
  {
    forall i | 0 <= i < |b| ensures (a + b + c)[|a| + i] == b[i] {
      assert (a + b + c)[|a| + i] == (a + b)[|a| + i];
    }
  }

  lemma TrailerFits(crc: Bytes -> Word, pos: nat, data: Bytes)
    ensures Leftover(pos) < HEADER_SIZE ==> BlockEnd(pos) <= pos + |Appended(crc, pos, data, true)|
  {
    hide Appended;
    UnfoldAppended(crc, pos, data, true);
  }

  lemma LogStart(crc: Bytes -> Word, records: seq<Bytes>)
    ensures End(crc, records, 0) == 0 && records[0..] == records
  {
    assert records[..0] == [];
  }

  const PAYLOAD_SIZE: nat := BLOCK_SIZE - HEADER_SIZE

  function Filled(x: Byte, n: nat): (r: Bytes)
    ensures |r| == n
  {
    seq(n, i => x)
  }

  lemma FilledParts(x: Byte, n: nat, k: nat)
    requires k <= n
    ensures Filled(x, n)[..k] == Filled(x, k) && Filled(x, n)[k..] == Filled(x, n - k)
  {
  }

  /** The type of a fragment. */
  predicate IsType(b: Byte) {
    FULL_TYPE <= b <= LAST_TYPE
  }

  /** In a block filled by the middle of a record of `x`s nothing but the type in its header looks like one:
      neither `x` nor a byte of the checksum. */
  ghost predicate ShowsNoType(crc: Bytes -> Word, x: Byte) {
    !IsType(x) && forall i | 0 <= i < HEADER_SIZE - 1 :: !IsType(Physical(crc, MIDDLE_TYPE, Filled(x, PAYLOAD_SIZE))[i])
  }

  /** The bytes of the middle of such a record. */
  lemma {:induction false} MiddleBytes(crc: Bytes -> Word, x: Byte, n: nat, i: nat)
    requires i + BLOCK_SIZE <= n
    ensures var middle := Appended(crc, 0, Filled(x, n), false);
      && i < |middle|
      && middle[i] == if i % BLOCK_SIZE < HEADER_SIZE then Physical(crc, MIDDLE_TYPE, Filled(x, PAYLOAD_SIZE))[i % BLOCK_SIZE] else x
    decreases n
  {
    hide Appended, EncodeFixed32, Mask;
    UnfoldAppended(crc, 0, Filled(x, n), false);
    FilledParts(x, n, PAYLOAD_SIZE);
    AppendedShift(crc, BLOCK_SIZE, 0, Filled(x, n - PAYLOAD_SIZE), false);
    var first, rest := Physical(crc, MIDDLE_TYPE, Filled(x, PAYLOAD_SIZE)), Appended(crc, 0, Filled(x, n - PAYLOAD_SIZE), false);
    assert Appended(crc, 0, Filled(x, n), false) == first + rest;
    if i >= BLOCK_SIZE {
      MiddleBytes(crc, x, n - PAYLOAD_SIZE, i - BLOCK_SIZE);
      assert (first + rest)[i] == rest[i - BLOCK_SIZE];
    }
  }

  lemma MiddleShowsNoType(crc: Bytes -> Word, x: Byte, n: nat, i: nat)
    requires i + BLOCK_SIZE <= n && i % BLOCK_SIZE != HEADER_SIZE - 1 && ShowsNoType(crc, x)
    ensures var middle := Appended(crc, 0, Filled(x, n), false); i < |middle| && !IsType(middle[i])
  {
    hide Appended, Physical;
    MiddleBytes(crc, x, n, i);
  }

  /** A record takes hardly more than its own bytes. */
  lemma {:induction false} MiddleSize(crc: Bytes -> Word, pos: nat, data: Bytes)
    requires pos % BLOCK_SIZE == 0
    ensures var n := |Appended(crc, pos, data, false)|;
      |data| <= n && PAYLOAD_SIZE * (n - |data|) <= HEADER_SIZE * |data| + HEADER_SIZE * PAYLOAD_SIZE
    decreases |data|
  {
    hide Appended, Physical;
    UnfoldAppended(crc, pos, data, false);
    if |data| > PAYLOAD_SIZE {
      MiddleSize(crc, pos + BLOCK_SIZE, data[PAYLOAD_SIZE..]);
    }
  }

  /** A record of `x`s is first fitted into the block begun, if it may be, and then goes on in whole blocks. */
  lemma {:induction false} StartOfBlocks(crc: Bytes -> Word, offset: nat, x: Byte, n: nat) returns (start: nat, m: nat)
    requires n >= 2 * BLOCK_SIZE
    ensures start < 2 * BLOCK_SIZE && (offset + start) % BLOCK_SIZE == 0 && n - 2 * BLOCK_SIZE <= m <= n
    ensures var all := Appended(crc, offset, Filled(x, n), true);
      start <= |all| && all[start..] == Appended(crc, 0, Filled(x, m), false)
  {
    hide Appended, Physical;
    var leftover := Leftover(offset);
    LeftoverNext(offset);
    UnfoldAppended(crc, offset, Filled(x, n), true);
    if leftover >= HEADER_SIZE {
      var k := leftover - HEADER_SIZE;
      FilledParts(x, n, k);
      AppendedShift(crc, offset + leftover, 0, Filled(x, n - k), false);
      start, m := leftover, n - k;
    } else {
      var next := offset + leftover;
      UnfoldAppended(crc, next, Filled(x, n), true);
      LeftoverNext(next);
      FilledParts(x, n, PAYLOAD_SIZE);
      AppendedShift(crc, next + BLOCK_SIZE, 0, Filled(x, n - PAYLOAD_SIZE), false);
      start, m := leftover + BLOCK_SIZE, n - PAYLOAD_SIZE;
      var first := Physical(crc, FIRST_TYPE, Filled(x, PAYLOAD_SIZE));
      var rest := Appended(crc, 0, Filled(x, m), false);
      assert Zeros(leftover) + (first + rest) == Zeros(leftover) + first + rest;
    }
  }

  /** A block whose first header shows no type ends whatever was being gathered. */
  ghost predicate Stops(file: Bytes, block: nat) {
    block * BLOCK_SIZE + BLOCK_SIZE <= |file| && !IsType(file[block * BLOCK_SIZE + 6])
  }

  lemma StopsThere(crc: Bytes -> Word, checksum: bool, file: Bytes, block: nat, gathered: Option<Bytes>)
    requires Stops(file, block)
    ensures var pos := block * BLOCK_SIZE;
      var next := NextPhysical(crc, checksum, file, pos).1;
      var o, after := NextLogical(crc, checksum, file, pos, gathered), NextLogical(crc, checksum, file, next, None);
      pos < next && o.record == after.record && o.next == after.next
  {
    hide NextLogical, NextPhysical;
    var pos := block * BLOCK_SIZE;
    UnfoldLogical(crc, checksum, file, pos, gathered);
    NoTypeThere(crc, checksum, file, block);
  }

  lemma NoTypeThere(crc: Bytes -> Word, checksum: bool, file: Bytes, block: nat)
    requires Stops(file, block)
    ensures var physical := NextPhysical(crc, checksum, file, block * BLOCK_SIZE).0;
      physical.BadRecord? || (physical.Record? && !IsType(physical.typ))
  {
    hide ParsePhysical, IsType;
    var pos := block * BLOCK_SIZE;
    assert pos % BLOCK_SIZE == 0;
    var buffer := file[pos..pos + BLOCK_SIZE];
    assert buffer[6] == file[pos + 6];
    NoTypeParses(crc, checksum, buffer);
  }

  lemma NoTypeParses(crc: Bytes -> Word, checksum: bool, buffer: Bytes)
    requires |buffer| >= HEADER_SIZE && !IsType(buffer[6])
    ensures var physical := ParsePhysical(crc, checksum, buffer, true).0;
      physical.BadRecord? || (physical.Record? && !IsType(physical.typ))
  {
  }

  /** A record is no longer than what was gathered and read for it. */
  lemma {:induction false} RecordSize(crc: Bytes -> Word, checksum: bool, file: Bytes, pos: nat, gathered: Option<Bytes>)
    requires pos <= |file|
    ensures var o := NextLogical(crc, checksum, file, pos, gathered);
      o.record.Some? ==> |o.record.value| <= |Gathered(gathered)| + (o.next - pos)
    decreases |file| - pos
  {
    hide NextLogical, NextPhysical;
    UnfoldLogical(crc, checksum, file, pos, gathered);
    PayloadSize(crc, checksum, file, pos);
    var (physical, next) := NextPhysical(crc, checksum, file, pos);
    match Take(physical, gathered)
    case Settled(_, _) =>
    case Going(more, _) => RecordSize(crc, checksum, file, next, more);
  }

  lemma {:induction false} PayloadSize(crc: Bytes -> Word, checksum: bool, file: Bytes, pos: nat)
    requires pos <= |file|
    ensures var (physical, next) := NextPhysical(crc, checksum, file, pos); physical.Record? ==> |physical.payload| <= next - pos
    decreases |file| - pos
  {
    hide Unmask, DecodeFixed32;
    if BlockLimit(file, pos) - pos < HEADER_SIZE && BlockEnd(pos) <= |file| {
      PayloadSize(crc, checksum, file, BlockLimit(file, pos));
    }
  }

  /** What is returned ends before the block or began in it. */
  lemma {:induction false} StopsRecords(crc: Bytes -> Word, checksum: bool, file: Bytes, block: nat, pos: nat, gathered: Option<Bytes>)
    requires Stops(file, block) && pos <= block * BLOCK_SIZE && |Gathered(gathered)| <= pos
    ensures var o := NextLogical(crc, checksum, file, pos, gathered);
      o.record.Some? ==>
        if o.next <= block * BLOCK_SIZE then |o.record.value| <= o.next else |o.record.value| <= |file| - block * BLOCK_SIZE
    decreases |file| - pos
  {
    hide NextLogical, NextPhysical, Stops;
    var target := block * BLOCK_SIZE;
    StopsFits(file, block);
    if pos == target {
      StopsThere(crc, checksum, file, block, gathered);
      RecordSize(crc, checksum, file, NextPhysical(crc, checksum, file, pos).1, None);
    } else {
      EndBefore(pos, block);
      if Leftover(pos) < HEADER_SIZE {
        TrailerReads(crc, checksum, file, pos, gathered);
        StopsRecords(crc, checksum, file, block, BlockEnd(pos), gathered);
      } else {
        UnfoldLogical(crc, checksum, file, pos, gathered);
        PayloadSize(crc, checksum, file, pos);
        WithinBlock(crc, checksum, file, pos);
        var (physical, next) := NextPhysical(crc, checksum, file, pos);
        match Take(physical, gathered)
        case Settled(_, _) =>
        case Going(more, _) => StopsRecords(crc, checksum, file, block, next, more);
      }
    }
  }

  lemma WithinBlock(crc: Bytes -> Word, checksum: bool, file: Bytes, pos: nat)
    requires pos <= |file| && Leftover(pos) >= HEADER_SIZE
    ensures NextPhysical(crc, checksum, file, pos).1 <= BlockEnd(pos)
  {
    hide ParsePhysical;
  }

  lemma StopsFits(file: Bytes, block: nat)
    requires Stops(file, block)
    ensures block * BLOCK_SIZE + BLOCK_SIZE <= |file|
  {
  }

  lemma {:induction false} StopsAll(crc: Bytes -> Word, checksum: bool, file: Bytes, block: nat, pos: nat, record: Bytes)
    requires Stops(file, block) && pos <= |file| && record in ReadAll(crc, checksum, file, pos).0
    ensures |record| <= block * BLOCK_SIZE || |record| <= |file| - block * BLOCK_SIZE
    decreases |file| - pos
  {
    hide NextLogical, Stops;
    StopsFits(file, block);
    var o := NextLogical(crc, checksum, file, pos, None);
    UnfoldAll(crc, checksum, file, pos);
    if pos <= block * BLOCK_SIZE {
      StopsRecords(crc, checksum, file, block, pos, None);
    } else {
      RecordSize(crc, checksum, file, pos, None);
    }
    if record != o.record.value {
      StopsAll(crc, checksum, file, block, o.next, record);
    }
  }

  /** A writer out of step with its file loses a record that it then adds without a fault. */
  lemma {:induction false} OutOfStepLoses(crc: Bytes -> Word, checksum: bool, file: Bytes, offset: nat, x: Byte)
    requires !InStep(offset, |file|) && ShowsNoType(crc, x)
    ensures var record := Filled(x, 2 * |file| + 8 * BLOCK_SIZE);
      record !in ReadAll(crc, checksum, file + Appended(crc, offset, record, true), 0).0
  {
    hide ReadAll, Appended, Physical, ShowsNoType, IsType;
    var p := |file|;
    var n := 2 * p + 8 * BLOCK_SIZE;
    var record := Filled(x, n);
    var added := Appended(crc, offset, record, true);
    var all := file + added;
    var start, m := StartOfBlocks(crc, offset, x, n);
    var block := 2 * p / BLOCK_SIZE + 4;
    var i := block * BLOCK_SIZE + 6 - (p + start);
    PlaceOfBlock(p, offset, start, m, block, i);
    MiddleShowsNoType(crc, x, m, i);
    MiddleSize(crc, 0, Filled(x, m));
    var middle := Appended(crc, 0, Filled(x, m), false);
    assert added[start..][i] == middle[i];
    assert all[block * BLOCK_SIZE + 6] == added[start + i];
    SizesApart(p, start, m, |middle|, block);
    assert |all| == p + start + |middle|;
    assert Stops(all, block);
    if record in ReadAll(crc, checksum, all, 0).0 {
      StopsAll(crc, checksum, all, block, 0, record);
    }
  }

  lemma PlaceOfBlock(p: nat, offset: nat, start: nat, m: nat, block: nat, i: int)
    requires !InStep(offset, p) && start < 2 * BLOCK_SIZE && (offset + start) % BLOCK_SIZE == 0 && m >= 2 * p + 6 * BLOCK_SIZE
    requires block == 2 * p / BLOCK_SIZE + 4 && i == block * BLOCK_SIZE + 6 - (p + start)
    ensures 0 <= i && i + BLOCK_SIZE <= m && i % BLOCK_SIZE != HEADER_SIZE - 1
  {
    hide InStep;
    if i % BLOCK_SIZE == HEADER_SIZE - 1 {
      AtTypeInStep(p, offset, start, block, i);
    }
  }

  lemma AtTypeInStep(p: nat, offset: nat, start: nat, block: nat, i: int)
    requires (offset + start) % BLOCK_SIZE == 0 && i == block * BLOCK_SIZE + 6 - (p + start) && i % BLOCK_SIZE == HEADER_SIZE - 1
    ensures InStep(offset, p)
  {
    var q, r := i / BLOCK_SIZE, (offset + start) / BLOCK_SIZE;
    assert i == q * BLOCK_SIZE + 6 && offset + start == r * BLOCK_SIZE;
    WholeBlocks(offset, p, r - block + q);
  }

  lemma WholeBlocks(a: nat, b: nat, k: int)
    requires a == b + k * BLOCK_SIZE
    ensures InStep(a, b)
  {
  }

  lemma SizesApart(p: nat, start: nat, m: nat, size: nat, block: nat)
    requires start < 2 * BLOCK_SIZE && 2 * p + 6 * BLOCK_SIZE <= m <= 2 * p + 8 * BLOCK_SIZE && block == 2 * p / BLOCK_SIZE + 4
    requires m <= size && PAYLOAD_SIZE * (size - m) <= HEADER_SIZE * m + HEADER_SIZE * PAYLOAD_SIZE
    ensures block * BLOCK_SIZE < 2 * p + 8 * BLOCK_SIZE && block * BLOCK_SIZE + BLOCK_SIZE <= p + start + size
    ensures p + start + size - block * BLOCK_SIZE < 2 * p + 8 * BLOCK_SIZE
  {
  }

  /** A write that adds as many bytes as the record takes has added the record and leaves the writer in step. */
  lemma {:induction false} WholeInStep(crc: Bytes -> Word, offset: nat, n: nat, data: Bytes, begin: bool, faults: Faults)
    requires offset <= BLOCK_SIZE && InStep(offset, n)
    ensures var w := AddFrom(crc, offset, data, begin, faults);
      && |w.added| <= |Appended(crc, n, data, begin)|
      && (|w.added| == |Appended(crc, n, data, begin)| ==> w.added == Appended(crc, n, data, begin) && InStep(w.offset, n + |w.added|))
    decreases |data|, if BLOCK_SIZE - offset < HEADER_SIZE then 1 else if BLOCK_SIZE - offset == HEADER_SIZE then 2 else 0
  {
    hide AddFrom, Appended, Physical, Emitted, InStep, Leftover;
    var leftover := BLOCK_SIZE - offset;
    UnfoldAddFrom(crc, offset, data, begin, faults);
    UnfoldAppended(crc, n, data, begin);
    StepLeftover(offset, n);
    if leftover == 0 {
      WholeInStep(crc, 0, n, data, begin, faults);
    } else if leftover < HEADER_SIZE {
      WholeInStep(crc, 0, n + leftover, data, begin, Later(faults));
      var rest := Appended(crc, n + leftover, data, begin);
      assert n + leftover + |rest| == n + |Zeros(leftover) + rest|;
    } else {
      var k := if |data| <= leftover - HEADER_SIZE then |data| else leftover - HEADER_SIZE;
      assert k == |data| ==> data[..k] == data;
      var typ := FragmentType(begin, k == |data|);
      var e := Emitted(crc, offset, typ, data[..k], faults);
      EmittedMeans(crc, offset, typ, data[..k], faults);
      StepOn(offset, n, HEADER_SIZE + k);
      if k < |data| {
        UnfoldAppended(crc, n + leftover, data[k..], false);
        if e.ok {
          WholeInStep(crc, e.offset, n + leftover, data[k..], false, e.faults);
        }
      }
    }
  }

  /** A write without a trailer that reports no error has added the record. */
  lemma {:induction false} OkIsWhole(crc: Bytes -> Word, offset: nat, n: nat, data: Bytes, begin: bool, faults: Faults)
    requires offset <= BLOCK_SIZE && InStep(offset, n) && (offset == BLOCK_SIZE || offset + HEADER_SIZE <= BLOCK_SIZE)
    ensures var w := AddFrom(crc, offset, data, begin, faults);
      w.ok ==> w.added == Appended(crc, n, data, begin) && InStep(w.offset, n + |w.added|)
    decreases |data|, if BLOCK_SIZE - offset == 0 then 1 else if BLOCK_SIZE - offset == HEADER_SIZE then 2 else 0
  {
    hide AddFrom, Appended, Physical, Emitted, InStep, Leftover;
    var leftover := BLOCK_SIZE - offset;
    UnfoldAddFrom(crc, offset, data, begin, faults);
    UnfoldAppended(crc, n, data, begin);
    StepLeftover(offset, n);
    if leftover == 0 {
      OkIsWhole(crc, 0, n, data, begin, faults);
    } else {
      var k := if |data| <= leftover - HEADER_SIZE then |data| else leftover - HEADER_SIZE;
      assert k == |data| ==> data[..k] == data;
      var e := Emitted(crc, offset, FragmentType(begin, k == |data|), data[..k], faults);
      EmittedMeans(crc, offset, FragmentType(begin, k == |data|), data[..k], faults);
      StepOn(offset, n, HEADER_SIZE + k);
      if k < |data| && e.ok {
        OkIsWhole(crc, e.offset, n + leftover, data[k..], false, e.faults);
      }
    }
  }

  /** A trailer cut short goes unnoticed, but then the writer is out of step. */
  lemma {:induction false} OkInStepIsWhole(crc: Bytes -> Word, offset: nat, n: nat, data: Bytes, begin: bool, faults: Faults)
    requires offset <= BLOCK_SIZE && InStep(offset, n)
    requires var w := AddFrom(crc, offset, data, begin, faults); w.ok && InStep(w.offset, n + |w.added|)
    ensures AddFrom(crc, offset, data, begin, faults).added == Appended(crc, n, data, begin)
  {
    hide AddFrom, Appended, InStep, Leftover;
    var leftover := BLOCK_SIZE - offset;
    if 0 < leftover < HEADER_SIZE {
      UnfoldAddFrom(crc, offset, data, begin, faults);
      UnfoldAppended(crc, n, data, begin);
      StepLeftover(offset, n);
      OkIsWhole(crc, 0, n + leftover, data, begin, Later(faults));
      var rest := AddFrom(crc, 0, data, begin, Later(faults));
      MissingIsOut(
        rest.offset, n + |Reached(faults, Zeros(leftover))| + |rest.added|, leftover - |Reached(faults, Zeros(leftover))|);
    } else {
      OkIsWhole(crc, offset, n, data, begin, faults);
    }
  }

  lemma MissingIsOut(offset: nat, n: nat, missing: nat)
    requires missing < HEADER_SIZE && InStep(offset, n) && InStep(offset, n + missing)
    ensures missing == 0
  {
    if missing > 0 {
      SameRest(n, missing);
    }
  }

  predicate TrailerWithin(pos: nat, file: Bytes) {
    Leftover(pos) < HEADER_SIZE ==> BlockEnd(pos) <= |file|
  }

  /** Reading comes to the end of `file`, whatever follows it there. */
  ghost predicate ReadThrough(crc: Bytes -> Word, checksum: bool, file: Bytes) {
    forall all: Bytes | file <= all && TrailerWithin(|file|, all) :: Arrives(crc, checksum, all, 0, None, |file|)
  }

  /** The record is read from every file that begins with `kept`. */
  ghost predicate AlwaysRead(crc: Bytes -> Word, checksum: bool, kept: Bytes, record: Bytes) {
    forall file: Bytes | kept <= file :: record in ReadAll(crc, checksum, file, 0).0
  }

  lemma NothingReadThrough(crc: Bytes -> Word, checksum: bool)
    ensures ReadThrough(crc, checksum, [])
  {
    hide Arrives;
    forall all: Bytes ensures Arrives(crc, checksum, all, 0, None, 0) {
      Stay(crc, checksum, all, 0, None);
    }
  }

  lemma TrailerBefore(pos: nat, next: nat, file: Bytes)
    requires pos <= next <= |file| && TrailerWithin(next, file)
    ensures TrailerWithin(pos, file)
  {
    if next < BlockEnd(pos) {
      LeftoverWithin(pos, next - pos);
    }
  }

  lemma HoldsNext(file: Bytes, added: Bytes, all: Bytes)
    requires file + added <= all
    ensures file <= all && HoldsAt(all, |file|, added)
  {
    HoldsMiddle(file, added, all[|file + added|..]);
    assert all == file + added + all[|file + added|..];
  }

  /** As long as each write leaves the writer in step, faults or not, reading comes to where the last left off. */
  lemma {:induction false} StaysReadThrough(crc: Bytes -> Word, checksum: bool, file: Bytes, offset: nat, data: Bytes, faults: Faults)
    requires offset <= BLOCK_SIZE && InStep(offset, |file|) && ReadThrough(crc, checksum, file)
    requires var w := AddFrom(crc, offset, data, true, faults); InStep(w.offset, |file + w.added|)
    ensures ReadThrough(crc, checksum, file + AddFrom(crc, offset, data, true, faults).added)
  {
    hide AddFrom, Arrives, InStep, HoldsAt, Leftover;
    var w := AddFrom(crc, offset, data, true, faults);
    var pos, next := |file|, |file + w.added|;
    forall all: Bytes | file + w.added <= all && TrailerWithin(next, all) ensures Arrives(crc, checksum, all, 0, None, next) {
      TrailerBefore(pos, next, all);
      HoldsNext(file, w.added, all);
      forall more ensures Arrives(crc, checksum, all, pos, more, next) {
        InStepLands(crc, checksum, all, pos, more, offset, data, true, faults);
      }
      GoOn(crc, checksum, all, 0, None, pos, next);
    }
  }

  /** And what the last added without an error is read from then on. */
  lemma {:induction false} OkIsRead(crc: Bytes -> Word, checksum: bool, file: Bytes, offset: nat, record: Bytes, faults: Faults)
    requires offset <= BLOCK_SIZE && InStep(offset, |file|) && ReadThrough(crc, checksum, file)
    requires var w := AddFrom(crc, offset, record, true, faults); w.ok && InStep(w.offset, |file + w.added|)
    ensures AlwaysRead(crc, checksum, file + AddFrom(crc, offset, record, true, faults).added, record)
  {
    hide AddFrom, InStep, HoldsAt, Appended, NextLogical, ReadAll, Leftover;
    var added := AddFrom(crc, offset, record, true, faults).added;
    OkInStepIsWhole(crc, offset, |file|, record, true, faults);
    TrailerFits(crc, |file|, record);
    forall all: Bytes | file + added <= all ensures record in ReadAll(crc, checksum, all, 0).0 {
      HoldsNext(file, added, all);
      assert Arrives(crc, checksum, all, 0, None, |file|);
      var xs: seq<Bytes>, more: Option<Bytes> :|
        ReadFrom(crc, checksum, all, 0, None) == xs + ReadFrom(crc, checksum, all, |file|, more);
      StartReads(crc, checksum, all, |file|, record, more);
      ReadFromIs(crc, checksum, all, 0);
      assert ReadFrom(crc, checksum, all, |file|, more)[0] == record;
    }
  }

  /** A log is read through. */
  lemma LogReadThrough(crc: Bytes -> Word, checksum: bool, records: seq<Bytes>)
    ensures ReadThrough(crc, checksum, LogOf(crc, records))
  {
    hide LogOf, ReadAll, NextLogical;
    var log := LogOf(crc, records);
    LogStart(crc, records);
    forall all: Bytes | log <= all ensures Arrives(crc, checksum, all, 0, None, |log|) {
      LogThenMore(crc, checksum, records, all, 0);
      ReadFromIs(crc, checksum, all, 0);
      ReadFromIs(crc, checksum, all, |log|);
    }
  }

  /** A writer in step goes on: the next record is read. */
  lemma {:induction false} GoesOn(crc: Bytes -> Word, checksum: bool, file: Bytes, offset: nat, record: Bytes)
    requires InStep(offset, |file|) && ReadThrough(crc, checksum, file)
    ensures LastRead(crc, checksum, file + Appended(crc, offset, record, true), record)
  {
    hide Appended, InStep, ReadAll, ReadFrom, Arrives, HoldsAt, Leftover;
    var added := Appended(crc, offset, record, true);
    ShiftInStep(crc, offset, |file|, record);
    HoldsNext(file, added, file + added);
    TrailerFits(crc, |file|, record);
    LandedReads(crc, checksum, file + added, 0, None, |file|, record);
    ReadFromIs(crc, checksum, file + added, 0);
    var xs: seq<Bytes> :| ReadFrom(crc, checksum, file + added, 0, None) == xs + [record];
    assert (xs + [record])[|xs|] == record;
  }

  /** A writer in step after a write on a whole log that may have failed: the next record is read, behind all
      those before. */
  lemma {:induction false} InStepGoesOn(
      crc: Bytes -> Word, checksum: bool, records: seq<Bytes>, offset: nat, data: Bytes, faults: Faults, record: Bytes)
    requires offset <= BLOCK_SIZE && InStep(offset, |LogOf(crc, records)|)
    requires var w := AddFrom(crc, offset, data, true, faults); InStep(w.offset, |LogOf(crc, records) + w.added|)
    ensures var w := AddFrom(crc, offset, data, true, faults);
      var file := LogOf(crc, records) + w.added + Appended(crc, w.offset, record, true);
      records <= ReadAll(crc, checksum, file, 0).0 && LastRead(crc, checksum, file, record)
  {
    hide AddFrom, Appended, LogOf, InStep, ReadAll, ReadThrough, LastRead;
    var w := AddFrom(crc, offset, data, true, faults);
    var log := LogOf(crc, records);
    LogReadThrough(crc, checksum, records);
    StaysReadThrough(crc, checksum, log, offset, data, faults);
    GoesOn(crc, checksum, log + w.added, w.offset, record);
    LogThenMore(crc, checksum, records, log + w.added + Appended(crc, w.offset, record, true), 0);
    LogStart(crc, records);
  }

  /** After any call of AddRecord, faults or not, by a writer that was in step so far, whatever is added next
      without a fault is read back if and only if the writer's offset still is that of the end of the file. */
  lemma {:induction false} GoesOnIffInStep(
      crc: Bytes -> Word, checksum: bool, before: Bytes, offset: nat, data: Bytes, faults: Faults, x: Byte)
    requires offset <= BLOCK_SIZE && InStep(offset, |before|) && ReadThrough(crc, checksum, before) && ShowsNoType(crc, x)
    ensures var w := AddFrom(crc, offset, data, true, faults);
      var file := before + w.added;
      InStep(w.offset, |file|) <==>
        forall record: Bytes :: LastRead(crc, checksum, file + Appended(crc, w.offset, record, true), record)
  {
    hide AddFrom, Appended, InStep, ReadAll, ReadThrough, ShowsNoType, Filled;
    var w := AddFrom(crc, offset, data, true, faults);
    var file := before + w.added;
    if InStep(w.offset, |file|) {
      StaysReadThrough(crc, checksum, before, offset, data, faults);
      forall record: Bytes ensures LastRead(crc, checksum, file + Appended(crc, w.offset, record, true), record) {
        GoesOn(crc, checksum, file, w.offset, record);
      }
    } else {
      OutOfStepLoses(crc, checksum, file, w.offset, x);
      var lost := Filled(x, 2 * |file| + 8 * BLOCK_SIZE);
      assert !LastRead(crc, checksum, file + Appended(crc, w.offset, lost, true), lost);
    }
  }
}
