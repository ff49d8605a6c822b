/** The block-framed log (db/log_format.h, db/log_writer.cc, db/log_reader.cc). The checksum of a record is a
    parameter; reading starts at offset 0. */
module Log {
  import opened Keys
  import opened Coding
  import opened Crc32c

  const BLOCK_SIZE: nat := 32768
  const HEADER_SIZE: nat := 7

  const ZERO_TYPE: Byte := 0
  const FULL_TYPE: Byte := 1
  const FIRST_TYPE: Byte := 2
  const MIDDLE_TYPE: Byte := 3
  const LAST_TYPE: Byte := 4

  function Zeros(n: nat): (r: Bytes)
    ensures |r| == n
  {
    seq(n, i => 0)
  }

  /** A header of checksum, length and type, then the payload. */
  function Physical(crc: Bytes -> Word, typ: Byte, payload: Bytes): (r: Bytes)
    requires |payload| <= 0xffff
    ensures |r| == HEADER_SIZE + |payload|
  {
    EncodeFixed32(Mask(crc([typ] + payload))) + [|payload| % 256, |payload| / 256, typ] + payload
  }

  function FragmentType(begin: bool, end: bool): Byte {
    if begin && end then FULL_TYPE else if begin then FIRST_TYPE else if end then LAST_TYPE else MIDDLE_TYPE
  }

  /** The bytes left of the block that holds position `pos`. */
  function Leftover(pos: nat): (r: nat)
    ensures 0 < r <= BLOCK_SIZE
  {
    BLOCK_SIZE - pos % BLOCK_SIZE
  }

  /** The block that holds a position ends where the next begins. */
  lemma LeftoverWithin(pos: nat, n: nat)
    requires n < Leftover(pos)
    ensures Leftover(pos + n) == Leftover(pos) - n
  {
  }

  lemma LeftoverNext(pos: nat)
    ensures Leftover(pos + Leftover(pos)) == BLOCK_SIZE
  {
    assert (pos + Leftover(pos)) % BLOCK_SIZE == 0;
  }

  /** What a record adds to a log of length `pos`. */
  function Appended(crc: Bytes -> Word, pos: nat, data: Bytes, begin: bool): Bytes
    decreases |data|, if Leftover(pos) < HEADER_SIZE then 1 else if Leftover(pos) == HEADER_SIZE then 2 else 0
  {
    var leftover := Leftover(pos);
    if leftover < HEADER_SIZE then
      LeftoverNext(pos);
      Zeros(leftover) + Appended(crc, pos + leftover, data, begin)
    else
      var avail := leftover - HEADER_SIZE;
      if |data| <= avail then
        Physical(crc, FragmentType(begin, true), data)
      else
        LeftoverNext(pos);
        Physical(crc, FragmentType(begin, false), data[..avail]) + Appended(crc, pos + leftover, data[avail..], false)
  }

  /** The log of some records. */
  function LogOf(crc: Bytes -> Word, records: seq<Bytes>): Bytes {
    if records == [] then []
    else
      var before := LogOf(crc, records[..|records| - 1]);
      before + Appended(crc, |before|, records[|records| - 1], true)
  }

  /** What the calls on a file that are to come will do: each succeeds, or fails after so many of its bytes have
      reached the file. Calls past the end of the list succeed. */
  type Faults = seq<Option<nat>>

  predicate Succeeds(faults: Faults) {
    faults == [] || faults[0] == None
  }

  predicate AllSucceed(faults: Faults) {
    forall i | 0 <= i < |faults| :: faults[i] == None
  }

  function Later(faults: Faults): (r: Faults)
    ensures AllSucceed(faults) ==> AllSucceed(r)
  {
    if faults == [] then [] else faults[1..]
  }

  /** What of an append reaches the file. */
  function Reached(faults: Faults, data: Bytes): (r: Bytes)
    ensures r <= data && (Succeeds(faults) ==> r == data)
  {
    if Succeeds(faults) || faults[0].value >= |data| then data else data[..faults[0].value]
  }

  class WritableFile {
    var contents: Bytes
    var faults: Faults

    constructor (contents: Bytes, faults: Faults)
      ensures this.contents == contents && this.faults == faults
    {
      this.contents, this.faults := contents, faults;
    }

    method Append(data: Bytes) returns (ok: bool)
      modifies this
      ensures ok == Succeeds(old(faults)) && faults == Later(old(faults)) && contents == old(contents) + Reached(old(faults), data)
    {
      ok, contents, faults := Succeeds(faults), contents + Reached(faults, data), Later(faults);
    }

    method Flush() returns (ok: bool)
      modifies this
      ensures ok == Succeeds(old(faults)) && faults == Later(old(faults)) && contents == old(contents)
    {
      ok, faults := Succeeds(faults), Later(faults);
    }
  }

  /** What a write adds to the file, the writer's offset after it, whether it is said to have succeeded, and the
      faults to come. */
  datatype Written = Written(added: Bytes, offset: nat, ok: bool, faults: Faults)

  /** One physical record: header, payload and flush, as far as they succeed. The offset goes on as if they had. */
  function Emitted(crc: Bytes -> Word, offset: nat, typ: Byte, payload: Bytes, faults: Faults): (r: Written)
    requires |payload| <= 0xffff
    ensures r.added <= Physical(crc, typ, payload) && (r.ok ==> r.added == Physical(crc, typ, payload))
    ensures r.offset == offset + HEADER_SIZE + |payload|
    ensures AllSucceed(faults) ==> r.ok && AllSucceed(r.faults)
  {
    var physical := Physical(crc, typ, payload);
    var header, after := physical[..HEADER_SIZE], offset + HEADER_SIZE + |payload|;
    assert physical[HEADER_SIZE..] == payload && header + payload == physical;
    var second := Later(faults);
    if !Succeeds(faults) then Written(Reached(faults, header), after, false, second)
    else
      var third := Later(second);
      if !Succeeds(second) then Written(header + Reached(second, payload), after, false, third)
      else Written(physical, after, Succeeds(third), Later(third))
  }

  /** What AddRecord does from an offset in the block. An append of a trailer may fail unnoticed. */
  function AddFrom(crc: Bytes -> Word, offset: nat, data: Bytes, begin: bool, faults: Faults): (r: Written)
    requires offset <= BLOCK_SIZE
    ensures r.offset <= BLOCK_SIZE
    decreases |data|, if BLOCK_SIZE - offset < HEADER_SIZE then 1 else if BLOCK_SIZE - offset == HEADER_SIZE then 2 else 0
  {
    var leftover := BLOCK_SIZE - offset;
    if leftover == 0 then
      AddFrom(crc, 0, data, begin, faults)
    else if leftover < HEADER_SIZE then
      var rest := AddFrom(crc, 0, data, begin, Later(faults));
      rest.(added := Reached(faults, Zeros(leftover)) + rest.added)
    else
      var avail := leftover - HEADER_SIZE;
      if |data| <= avail then
        Emitted(crc, offset, FragmentType(begin, true), data, faults)
      else
        var w := Emitted(crc, offset, FragmentType(begin, false), data[..avail], faults);
        if !w.ok then w
        else
          var rest := AddFrom(crc, w.offset, data[avail..], false, w.faults);
          rest.(added := w.added + rest.added)
  }

  class Writer {
    const crc: Bytes -> Word
    const dest: WritableFile
    var blockOffset: nat

    constructor (crc: Bytes -> Word, dest: WritableFile)
      ensures Valid() && this.crc == crc && this.dest == dest && blockOffset == 0
    {
      this.crc, this.dest, blockOffset := crc, dest, 0;
    }

    /** A writer that goes on at the end of an existing log. */
    constructor Resume(crc: Bytes -> Word, dest: WritableFile, destLength: nat)
      ensures Valid() && this.crc == crc && this.dest == dest && blockOffset % BLOCK_SIZE == destLength % BLOCK_SIZE
    {
      this.crc, this.dest, blockOffset := crc, dest, destLength % BLOCK_SIZE;
    }

    ghost predicate Valid()
      reads this
    {
      blockOffset <= BLOCK_SIZE
    }

    method AddRecord(slice: Bytes) returns (ok: bool)
      requires Valid()
      modifies this, dest
      ensures Valid()
      ensures var w := AddFrom(crc, old(blockOffset), slice, true, old(dest.faults));
        dest.contents == old(dest.contents) + w.added && blockOffset == w.offset && ok == w.ok && dest.faults == w.faults
    {
      hide Physical, AddFrom, Emitted, Pending;
      ghost var w := AddFrom(crc, blockOffset, slice, true, dest.faults);
      ghost var target := dest.contents + w.added;
      var left := slice;
      var begin := true;
      ok := true;
      StartPending(crc, dest.contents, blockOffset, slice, dest.faults);
      // The source's loop runs once before its test.
      while begin || (ok && left != [])
        invariant Valid()
        invariant if begin || (ok && left != [])
          then Pending(crc, dest.contents, blockOffset, left, begin, dest.faults, w, target)
          else target == dest.contents && w == Written(w.added, blockOffset, ok, dest.faults)
        decreases begin, |left|, if BLOCK_SIZE - blockOffset < HEADER_SIZE then 1 else if BLOCK_SIZE - blockOffset == HEADER_SIZE then 2 else 0
      {
        SwitchBlock(left, begin, w, target);
        FragmentStep(crc, dest.contents, blockOffset, left, begin, dest.faults, w, target);
        var avail := BLOCK_SIZE - blockOffset - HEADER_SIZE;
        var fragmentLength := if |left| < avail then |left| else avail;
        var end := |left| == fragmentLength;
        var typ := if begin && end then FULL_TYPE else if begin then FIRST_TYPE else if end then LAST_TYPE else MIDDLE_TYPE;
        ok := EmitPhysicalRecord(typ, left[..fragmentLength]);
        left := left[fragmentLength..];
        begin := false;
      }
    }

    /** Fills the trailer of a block that has no room for a header. */
    method SwitchBlock(ghost left: Bytes, ghost begin: bool, ghost w: Written, ghost target: Bytes)
      requires Valid() && Pending(crc, dest.contents, blockOffset, left, begin, dest.faults, w, target)
      modifies this, dest
      ensures Valid() && blockOffset + HEADER_SIZE <= BLOCK_SIZE
      ensures blockOffset == if BLOCK_SIZE - old(blockOffset) < HEADER_SIZE then 0 else old(blockOffset)
      ensures Pending(crc, dest.contents, blockOffset, left, begin, dest.faults, w, target)
    {
      hide AddFrom;
      UnfoldAddFrom(crc, blockOffset, left, begin, dest.faults);
      var leftover := BLOCK_SIZE - blockOffset;
      if leftover < HEADER_SIZE {
        if leftover > 0 {
          ghost var reached := Reached(dest.faults, Zeros(leftover));
          var _ := dest.Append(Zeros(leftover));
          ghost var rest := AddFrom(crc, 0, left, begin, dest.faults);
          assert old(dest.contents) + (reached + rest.added) == old(dest.contents) + reached + rest.added;
        }
        blockOffset := 0;
      }
    }

    method EmitPhysicalRecord(typ: Byte, fragment: Bytes) returns (ok: bool)
      requires Valid() && blockOffset + HEADER_SIZE + |fragment| <= BLOCK_SIZE
      modifies this, dest
      ensures Valid()
      ensures var w := Emitted(crc, old(blockOffset), typ, fragment, old(dest.faults));
        dest.contents == old(dest.contents) + w.added && blockOffset == w.offset && ok == w.ok && dest.faults == w.faults
    {
      hide EncodeFixed32, Mask;
      var n := |fragment|;
      assert n / 256 < 256;
      var header := EncodeFixed32(Mask(crc([typ] + fragment))) + [n % 256, n / 256, typ];
      assert Physical(crc, typ, fragment) == header + fragment && Physical(crc, typ, fragment)[..HEADER_SIZE] == header;
      ok := dest.Append(header);
      if ok {
        assert dest.contents == old(dest.contents) + header;
        ok := dest.Append(fragment);
        assert forall t: Bytes :: old(dest.contents) + header + t == old(dest.contents) + (header + t);
        if ok {
          ok := dest.Flush();
        }
      }
      blockOffset := blockOffset + HEADER_SIZE + n;
    }
  }

  /** What is still to be written completes `target` and comes to what `w` says. */
  ghost predicate Pending(
      crc: Bytes -> Word, contents: Bytes, offset: nat, left: Bytes, begin: bool, faults: Faults, w: Written, target: Bytes) {
    && offset <= BLOCK_SIZE
    && var rest := AddFrom(crc, offset, left, begin, faults);
    w == rest.(added := w.added) && target == contents + rest.added
  }

  lemma StartPending(crc: Bytes -> Word, contents: Bytes, offset: nat, data: Bytes, faults: Faults)
    requires offset <= BLOCK_SIZE
    ensures var w := AddFrom(crc, offset, data, true, faults); Pending(crc, contents, offset, data, true, faults, w, contents + w.added)
  {
  }

  lemma FragmentStep(
      crc: Bytes -> Word, contents: Bytes, offset: nat, left: Bytes, begin: bool, faults: Faults, w: Written, target: Bytes)
    requires Pending(crc, contents, offset, left, begin, faults, w, target) && offset + HEADER_SIZE <= BLOCK_SIZE
    ensures var n := if |left| < BLOCK_SIZE - offset - HEADER_SIZE then |left| else BLOCK_SIZE - offset - HEADER_SIZE;
      var e := Emitted(crc, offset, FragmentType(begin, n == |left|), left[..n], faults);
      if e.ok && left[n..] != [] then Pending(crc, contents + e.added, e.offset, left[n..], false, e.faults, w, target)
      else target == contents + e.added && w == Written(w.added, e.offset, e.ok, e.faults)
  {
    hide AddFrom, Emitted;
    UnfoldAddFrom(crc, offset, left, begin, faults);
    var n := if |left| < BLOCK_SIZE - offset - HEADER_SIZE then |left| else BLOCK_SIZE - offset - HEADER_SIZE;
    var e := Emitted(crc, offset, FragmentType(begin, n == |left|), left[..n], faults);
    if n == |left| {
      assert left[..n] == left;
    } else if e.ok {
      var rest := AddFrom(crc, e.offset, left[n..], false, e.faults);
      assert contents + (e.added + rest.added) == contents + e.added + rest.added;
    }
  }

  lemma UnfoldAddFrom(crc: Bytes -> Word, offset: nat, data: Bytes, begin: bool, faults: Faults)
    requires offset <= BLOCK_SIZE
    ensures var leftover := BLOCK_SIZE - offset;
      var w := AddFrom(crc, offset, data, begin, faults);
      && (leftover == 0 ==> w == AddFrom(crc, 0, data, begin, faults))
      && (0 < leftover < HEADER_SIZE ==>
            var rest := AddFrom(crc, 0, data, begin, Later(faults));
            w == rest.(added := Reached(faults, Zeros(leftover)) + rest.added))
      && (HEADER_SIZE <= leftover && |data| <= leftover - HEADER_SIZE ==>
            w == Emitted(crc, offset, FragmentType(begin, true), data, faults))
      && (HEADER_SIZE <= leftover && |data| > leftover - HEADER_SIZE ==>
            var first := Emitted(crc, offset, FragmentType(begin, false), data[..leftover - HEADER_SIZE], faults);
            && (!first.ok ==> w == first)
            && (first.ok ==>
                  var rest := AddFrom(crc, first.offset, data[leftover - HEADER_SIZE..], false, first.faults);
                  w == rest.(added := first.added + rest.added)))
  {
  }

  lemma UnfoldAppended(crc: Bytes -> Word, pos: nat, data: Bytes, begin: bool)
    ensures Leftover(pos) < HEADER_SIZE ==>
      Appended(crc, pos, data, begin) == Zeros(Leftover(pos)) + Appended(crc, pos + Leftover(pos), data, begin)
    ensures HEADER_SIZE <= Leftover(pos) && |data| <= Leftover(pos) - HEADER_SIZE ==>
      Appended(crc, pos, data, begin) == Physical(crc, FragmentType(begin, true), data)
    ensures HEADER_SIZE <= Leftover(pos) && |data| > Leftover(pos) - HEADER_SIZE ==>
      Appended(crc, pos, data, begin) ==
        Physical(crc, FragmentType(begin, false), data[..Leftover(pos) - HEADER_SIZE])
        + Appended(crc, pos + Leftover(pos), data[Leftover(pos) - HEADER_SIZE..], false)
  {
  }

  datatype PhysicalRecord =
    | Eof
    | BadRecord(dropped: Option<nat>) // the bytes reported as dropped, if any
    | Record(typ: Byte, payload: Bytes)

  /** What ReadPhysicalRecord makes of the bytes from a header to the end of the block or file, and how many
      of them it uses up; `whole` when the block is not cut short by the end of the file. */
  function ParsePhysical(crc: Bytes -> Word, checksum: bool, buffer: Bytes, whole: bool): (r: (PhysicalRecord, nat))
    requires |buffer| >= HEADER_SIZE
    ensures 0 < r.1 <= |buffer|
  {
    var length: nat := buffer[4] + 256 * buffer[5] as nat;
    var typ := buffer[6];
    if HEADER_SIZE + length > |buffer| then
      (if whole then BadRecord(Some(|buffer|)) else Eof, |buffer|)
    else if typ == ZERO_TYPE && length == 0 then
      (BadRecord(None), |buffer|)
    else if checksum && crc(buffer[6..HEADER_SIZE + length]) != Unmask(DecodeFixed32(buffer)) then
      (BadRecord(Some(|buffer|)), |buffer|)
    else
      (Record(typ, buffer[HEADER_SIZE..HEADER_SIZE + length]), HEADER_SIZE + length)
  }

  /** The end of the block that holds `pos`, and of what the file has of it. */
  function BlockEnd(pos: nat): nat {
    pos + Leftover(pos)
  }

  function BlockLimit(file: Bytes, pos: nat): nat {
    if BlockEnd(pos) <= |file| then BlockEnd(pos) else |file|
  }

  /** The physical record at or after `pos`, and the position behind it. */
  function NextPhysical(crc: Bytes -> Word, checksum: bool, file: Bytes, pos: nat): (r: (PhysicalRecord, nat))
    requires pos <= |file|
    ensures pos <= r.1 <= |file| && (!r.0.Eof? ==> pos < r.1)
    decreases |file| - pos
  {
    var limit := BlockLimit(file, pos);
    if limit - pos < HEADER_SIZE then
      if BlockEnd(pos) <= |file| then NextPhysical(crc, checksum, file, limit) else (Eof, |file|)
    else
      var (r, used) := ParsePhysical(crc, checksum, file[pos..limit], BlockEnd(pos) <= |file|);
      (r, pos + used)
  }

  /** A header at `p` has its record whole in its block and in the file. */
  predicate WholeAt(file: Bytes, p: nat) {
    p + HEADER_SIZE <= |file| && HEADER_SIZE + LengthAt(file, p) <= BlockLimit(file, p) - p
  }

  /** The length that a header at `p` gives. */
  function LengthAt(file: Bytes, p: nat): nat
    requires p + HEADER_SIZE <= |file|
  {
    file[p + 4] + 256 * file[p + 5] as nat
  }

  /** The checksum in a header at `p` is that of the type and the payload behind it. */
  predicate ChecksumHolds(crc: Bytes -> Word, file: Bytes, p: nat)
    requires WholeAt(file, p)
  {
    Unmask(DecodeFixed32(file[p..p + 4])) == crc(file[p + 6..p + HEADER_SIZE + LengthAt(file, p)])
  }

  /** Where the next header can be: no block has one in its last bytes. */
  function HeaderFrom(pos: nat): nat {
    if Leftover(pos) < HEADER_SIZE then BlockEnd(pos) else pos
  }

  /** A physical record that passes is returned from where it is. */
  ghost predicate Returned(crc: Bytes -> Word, checksum: bool, file: Bytes, p: nat, typ: Byte, payload: Bytes) {
    && WholeAt(file, p) && !(file[p + 6] == ZERO_TYPE && LengthAt(file, p) == 0) && (checksum ==> ChecksumHolds(crc, file, p))
    && typ == file[p + 6] && payload == file[p + HEADER_SIZE..p + HEADER_SIZE + LengthAt(file, p)]
  }

  /** What reading one physical record from `pos` on comes to. */
  ghost predicate Judged(crc: Bytes -> Word, checksum: bool, file: Bytes, pos: nat, r: PhysicalRecord, next: nat) {
    var p := HeaderFrom(pos);
    if p + HEADER_SIZE > |file| then r == Eof && next == |file|
    else if !WholeAt(file, p) then
      // The record ends in another block, or behind the file.
      next == BlockLimit(file, p) && r == if BlockEnd(p) <= |file| then BadRecord(Some(next - p)) else Eof
    else if file[p + 6] == ZERO_TYPE && LengthAt(file, p) == 0 then next == BlockLimit(file, p) && r == BadRecord(None)
    else if checksum && !ChecksumHolds(crc, file, p) then next == BlockLimit(file, p) && r == BadRecord(Some(next - p))
    else r.Record? && Returned(crc, checksum, file, p, r.typ, r.payload) && next == p + HEADER_SIZE + |r.payload|
  }

  lemma {:induction false} PhysicalJudged(crc: Bytes -> Word, checksum: bool, file: Bytes, pos: nat)
    requires pos <= |file|
    ensures var (r, next) := NextPhysical(crc, checksum, file, pos); Judged(crc, checksum, file, pos, r, next)
  {
    var limit := BlockLimit(file, pos);
    if limit - pos < HEADER_SIZE {
      if BlockEnd(pos) <= |file| {
        LeftoverNext(pos);
        assert NextPhysical(crc, checksum, file, pos) == NextPhysical(crc, checksum, file, limit);
        PhysicalJudgedHere(crc, checksum, file, limit);
      }
    } else {
      PhysicalJudgedHere(crc, checksum, file, pos);
    }
  }

  lemma PhysicalJudgedHere(crc: Bytes -> Word, checksum: bool, file: Bytes, p: nat)
    requires p <= |file| && HEADER_SIZE <= Leftover(p)
    ensures var (r, next) := NextPhysical(crc, checksum, file, p); Judged(crc, checksum, file, p, r, next)
  {
    var limit := BlockLimit(file, p);
    if limit - p >= HEADER_SIZE {
      var buffer := file[p..limit];
      var n := HEADER_SIZE + LengthAt(file, p);
      assert buffer[4] == file[p + 4] && buffer[5] == file[p + 5] && buffer[6] == file[p + 6];
      if n <= |buffer| {
        assert buffer[6..n] == file[p + 6..p + n] && buffer[HEADER_SIZE..n] == file[p + HEADER_SIZE..p + n];
        assert buffer[..4] == file[p..p + 4];
        FixedOfFirst(buffer);
      }
    }
  }

  lemma FixedOfFirst(s: Bytes)
    requires |s| >= 4
    ensures DecodeFixed32(s) == DecodeFixed32(s[..4])
  {
    assert s[..4][..4] == s[..4];
  }

  /** What reading one logical record gives: the record, if any, where the reading stopped, and the sizes
      reported as dropped on the way. */
  datatype Outcome = Outcome(record: Option<Bytes>, next: nat, dropped: seq<nat>)

  /** The outcome after one more physical record: either it is settled, or reading goes on with other
      fragments gathered; and what is reported. */
  datatype Progress = Settled(record: Option<Bytes>, dropped: seq<nat>) | Going(gathered: Option<Bytes>, dropped: seq<nat>)

  function Own(physical: PhysicalRecord): seq<nat> {
    if physical.BadRecord? && physical.dropped.Some? then [physical.dropped.value] else []
  }

  function Take(physical: PhysicalRecord, gathered: Option<Bytes>): Progress {
    match physical
    case Eof => Settled(None, [])
    case BadRecord(_) => Going(None, if gathered.Some? then [|gathered.value|] else [])
    case Record(typ, payload) =>
      var unfinished := if gathered.Some? && gathered.value != [] then [|gathered.value|] else [];
      if typ == FULL_TYPE then Settled(Some(payload), unfinished)
      else if typ == FIRST_TYPE then Going(Some(payload), unfinished)
      else if typ == MIDDLE_TYPE then
        if gathered.Some? then Going(Some(gathered.value + payload), []) else Going(None, [|payload|])
      else if typ == LAST_TYPE then
        if gathered.Some? then Settled(Some(gathered.value + payload), []) else Going(None, [|payload|])
      else
        Going(None, [|payload| + if gathered.Some? then |gathered.value| else 0])
  }

  /** Reading on from `pos`, with the fragments gathered so far. */
  function NextLogical(crc: Bytes -> Word, checksum: bool, file: Bytes, pos: nat, gathered: Option<Bytes>): (r: Outcome)
    requires pos <= |file|
    ensures pos <= r.next <= |file|
    ensures r.record.Some? ==> pos < r.next
    decreases |file| - pos
  {
    var (physical, next) := NextPhysical(crc, checksum, file, pos);
    match Take(physical, gathered)
    case Settled(record, dropped) => Outcome(record, next, Own(physical) + dropped)
    case Going(more, dropped) =>
      var o := NextLogical(crc, checksum, file, next, more);
      Outcome(o.record, o.next, Own(physical) + dropped + o.dropped)
  }

  class Reader {
    const crc: Bytes -> Word
    const checksum: bool
    const file: Bytes
    // How much of the file has been read into the buffer.
    var endOfBufferOffset: nat
    var buffer: Bytes
    var eof: bool
    // What has been reported as corrupt.
    var dropped: seq<nat>

    constructor (crc: Bytes -> Word, checksum: bool, file: Bytes)
      ensures Valid() && this.crc == crc && this.checksum == checksum && this.file == file && Pos() == 0 && dropped == []
    {
      this.crc, this.checksum, this.file := crc, checksum, file;
      endOfBufferOffset, buffer, eof, dropped := 0, [], false, [];
    }

    /** The buffer is what is left of the last block read, which was whole unless the file has ended. */
    ghost predicate Valid()
      reads this`endOfBufferOffset, this`buffer, this`eof
      ensures Valid() ==> Pos() <= |file| && Pos() + |buffer| == endOfBufferOffset
    {
      && |buffer| <= endOfBufferOffset <= |file| && buffer == file[endOfBufferOffset - |buffer|..endOfBufferOffset]
      && (buffer != [] ==> if eof then |buffer| < Leftover(endOfBufferOffset - |buffer|)
            else |buffer| == Leftover(endOfBufferOffset - |buffer|))
      && (if eof then endOfBufferOffset == |file| else endOfBufferOffset % BLOCK_SIZE == 0)
    }

    /** The position of the next byte to look at. */
    ghost function Pos(): nat
      reads this`endOfBufferOffset, this`buffer
    {
      if |buffer| <= endOfBufferOffset then endOfBufferOffset - |buffer| else 0
    }

    /** A nonempty buffer is the rest of its block, as far as the file goes. */
    lemma BufferIsRest()
      requires Valid() && buffer != []
      ensures BlockLimit(file, Pos()) == endOfBufferOffset && (BlockEnd(Pos()) <= |file| <==> !eof)
      ensures buffer == file[Pos()..BlockLimit(file, Pos())]
    {
    }

    /** With less than a header left of a whole block the next one begins at the end of the buffer. */
    lemma SkipTrailer()
      requires Valid() && |buffer| < HEADER_SIZE && !eof
      ensures NextPhysical(crc, checksum, file, Pos()) == NextPhysical(crc, checksum, file, endOfBufferOffset)
    {
    }

    /** With less than a header left of the file there is no more to read. */
    lemma SkipLast()
      requires Valid() && |buffer| < HEADER_SIZE && eof
      ensures NextPhysical(crc, checksum, file, Pos()) == (Eof, |file|)
    {
      if buffer != [] {
        BufferIsRest();
      }
    }

    /** Reads the next block, or what the file has of it. */
    method ReadBlock()
      requires Valid() && |buffer| < HEADER_SIZE && !eof
      modifies this`endOfBufferOffset, this`buffer, this`eof
      ensures Valid() && Pos() == old(endOfBufferOffset)
      ensures |buffer| == BLOCK_SIZE || eof
    {
      var n := if BLOCK_SIZE <= |file| - endOfBufferOffset then BLOCK_SIZE else |file| - endOfBufferOffset;
      buffer := file[endOfBufferOffset..endOfBufferOffset + n];
      endOfBufferOffset := endOfBufferOffset + |buffer|;
      if |buffer| < BLOCK_SIZE {
        eof := true;
      }
    }

    method ReadPhysicalRecord() returns (r: PhysicalRecord)
      requires Valid()
      modifies this
      ensures Valid() && (r, Pos()) == NextPhysical(crc, checksum, file, old(Pos()))
      ensures Judged(crc, checksum, file, old(Pos()), r, Pos())
      ensures old(Pos()) <= Pos() && (!r.Eof? ==> old(Pos()) < Pos())
      ensures dropped == old(dropped) + Own(r)
    {
      hide NextPhysical, Judged;
      PhysicalJudged(crc, checksum, file, Pos());
      while |buffer| < HEADER_SIZE
        invariant Valid() && dropped == old(dropped)
        invariant NextPhysical(crc, checksum, file, Pos()) == NextPhysical(crc, checksum, file, old(Pos()))
        decreases !eof, |buffer| < HEADER_SIZE
      {
        if !eof {
          SkipTrailer();
          ReadBlock();
        } else {
          SkipLast();
          buffer := [];
          return Eof;
        }
      }
      r := ParseHeader();
    }

    /** The part of ReadPhysicalRecord that parses a header in the buffer. */
    method ParseHeader() returns (r: PhysicalRecord)
      requires Valid() && |buffer| >= HEADER_SIZE
      modifies this
      ensures Valid() && (r, Pos()) == NextPhysical(crc, checksum, file, old(Pos()))
      ensures dropped == old(dropped) + Own(r)
    {
      BufferIsRest();
      var header := buffer;
      var length: nat := header[4] + 256 * header[5] as nat;
      var typ := header[6];
      if HEADER_SIZE + length > |buffer| {
        var dropSize := |buffer|;
        buffer := [];
        if !eof {
          dropped := dropped + [dropSize];
          return BadRecord(Some(dropSize));
        }
        return Eof;
      }
      if typ == ZERO_TYPE && length == 0 {
        buffer := [];
        return BadRecord(None);
      }
      if checksum {
        var expected := Unmask(DecodeFixed32(header));
        var actual := crc(header[6..HEADER_SIZE + length]);
        if actual != expected {
          var dropSize := |buffer|;
          buffer := [];
          dropped := dropped + [dropSize];
          return BadRecord(Some(dropSize));
        }
      }
      Consume(HEADER_SIZE + length);
      return Record(typ, header[HEADER_SIZE..HEADER_SIZE + length]);
    }

    method Consume(n: nat)
      requires Valid() && n <= |buffer|
      modifies this`buffer
      ensures Valid() && Pos() == old(Pos()) + n
    {
      if n < |buffer| {
        LeftoverWithin(Pos(), n);
      }
      buffer := buffer[n..];
    }

    /** Reads on to the end of one logical record, or of the file. */
    method ReadRecord() returns (record: Option<Bytes>)
      requires Valid()
      modifies this
      ensures Valid() && var o := NextLogical(crc, checksum, file, old(Pos()), None);
        record == o.record && Pos() == o.next && dropped == old(dropped) + o.dropped
    {
      hide NextPhysical, Valid, Pos, Take, NextLogical, Own;
      var gathered: Option<Bytes> := None;
      ghost var whole := NextLogical(crc, checksum, file, Pos(), None);
      while true
        invariant Valid()
        invariant var o := NextLogical(crc, checksum, file, Pos(), gathered);
          whole.record == o.record && whole.next == o.next && old(dropped) + whole.dropped == dropped + o.dropped
        decreases |file| - Pos()
      {
        UnfoldLogical(crc, checksum, file, Pos(), gathered);
        var physical := ReadPhysicalRecord();
        var settled;
        settled, record, gathered := HandlePhysical(physical, gathered);
        if settled {
          return;
        }
      }
    }

    /** The switch of ReadRecord. The fragments gathered are the source's scratch, if it is inside a record. */
    method HandlePhysical(physical: PhysicalRecord, before: Option<Bytes>)
        returns (settled: bool, record: Option<Bytes>, gathered: Option<Bytes>)
      modifies this`dropped
      ensures match Take(physical, before)
        case Settled(r, d) => settled && record == r && dropped == old(dropped) + d
        case Going(g, d) => !settled && gathered == g && dropped == old(dropped) + d
    {
      var inFragmentedRecord, scratch := before.Some?, if before.Some? then before.value else [];
      settled, record := false, None;
      match physical {
      case Record(typ, fragment) =>
        if typ == FULL_TYPE || typ == FIRST_TYPE {
          if inFragmentedRecord {
            // An empty first fragment at the end of a block, by earlier writers, is let pass.
            if scratch != [] {
              dropped := dropped + [|scratch|];
            }
          }
          if typ == FULL_TYPE {
            settled, record := true, Some(fragment);
          }
          inFragmentedRecord, scratch := true, fragment;
        } else if typ == MIDDLE_TYPE {
          if !inFragmentedRecord {
            dropped := dropped + [|fragment|];
          } else {
            scratch := scratch + fragment;
          }
        } else if typ == LAST_TYPE {
          if !inFragmentedRecord {
            dropped := dropped + [|fragment|];
          } else {
            scratch := scratch + fragment;
            settled, record := true, Some(scratch);
          }
        } else {
          dropped := dropped + [|fragment| + if inFragmentedRecord then |scratch| else 0];
          inFragmentedRecord := false;
        }
      case Eof =>
        settled := true;
      case BadRecord(_) =>
        if inFragmentedRecord {
          dropped := dropped + [|scratch|];
          inFragmentedRecord := false;
        }
      }
      gathered := if inFragmentedRecord then Some(scratch) else None;
    }
  }

  lemma UnfoldLogical(crc: Bytes -> Word, checksum: bool, file: Bytes, pos: nat, gathered: Option<Bytes>)
    requires pos <= |file|
    ensures var (physical, next) := NextPhysical(crc, checksum, file, pos);
      var o := NextLogical(crc, checksum, file, pos, gathered);
      match Take(physical, gathered)
      case Settled(record, dropped) => o == Outcome(record, next, Own(physical) + dropped)
      case Going(more, dropped) =>
        && !physical.Eof?
        && var rest := NextLogical(crc, checksum, file, next, more);
          o == Outcome(rest.record, rest.next, Own(physical) + dropped + rest.dropped)
  {
  }
}
