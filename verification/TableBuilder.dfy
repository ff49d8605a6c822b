/** Building a table (table/table_builder.cc), with compression off and no filter. */
module TableBuilders {
  import opened Keys
  import opened Coding
  import opened Comparators
  import opened Blocks
  import opened BlockIters
  import opened TableFormat

  /** The contents are a block of these entries. */
  ghost predicate IsBlock(contents: Bytes, es: seq<Pair>) {
    exists layout: Layout, limit: nat :: Holds(contents, limit, layout) && layout.entries == es
  }

  /** All entries of some groups, in order. */
  ghost function Flat(groups: seq<seq<Pair>>): seq<Pair> {
    if groups == [] then [] else Flat(groups[..|groups| - 1]) + groups[|groups| - 1]
  }

  lemma {:induction false} FlatHolds(groups: seq<seq<Pair>>, x: Pair)
    ensures x in Flat(groups) <==> exists i :: 0 <= i < |groups| && x in groups[i]
  {
    if groups != [] {
      FlatHolds(groups[..|groups| - 1], x);
    }
  }

  ghost function LastKey(g: seq<Pair>): Bytes
    requires g != []
  {
    g[|g| - 1].key
  }

  /** The separator of a block is at or after its last key and before a later key, whose user key it cannot
      have unless it is that last key. */
  ghost predicate Separating(user: Comparator, last: Bytes, sep: Bytes, later: Bytes) {
    && |last| >= 8 && |sep| >= 8 && |later| >= 8 && !EncodedLess(user, sep, last) && EncodedLess(user, sep, later)
    && (sep == last || user.less(UserKey(sep), UserKey(later)))
  }

  /** A separator of group `i`: at or after its last key and separating it from all later groups. */
  ghost predicate SeparatesAt(user: Comparator, groups: seq<seq<Pair>>, i: nat, sep: Bytes)
    ensures SeparatesAt(user, groups, i, sep) ==> i < |groups| && groups[i] != []
  {
    && i < |groups| && groups[i] != [] && |sep| >= 8 && !EncodedLess(user, sep, LastKey(groups[i]))
    && forall j, x: Pair | i < j < |groups| && x in groups[j] :: Separating(user, LastKey(groups[i]), sep, x.key)
  }

  ghost predicate LongKeys(es: seq<Pair>) {
    forall x | x in es :: |x.key| >= 8
  }

  ghost predicate Ascending(user: Comparator, es: seq<Pair>) {
    LongKeys(es) && SortedPairs(InternalComparator(user).less, es)
  }

  /** Keys ascend through the groups, and each separator lies between its group and all later ones. */
  ghost predicate Separated(user: Comparator, groups: seq<seq<Pair>>, seps: seq<Bytes>) {
    && |seps| <= |groups| && Ascending(user, Flat(groups))
    && forall i | 0 <= i < |seps| :: SeparatesAt(user, groups, i, seps[i])
  }

  function IndexEntries(seps: seq<Bytes>, handles: seq<BlockHandle>): (r: seq<Pair>)
    requires |seps| <= |handles|
    ensures |r| == |seps| && forall i | 0 <= i < |seps| :: r[i] == Pair(seps[i], EncodeHandle(handles[i]))
  {
    seq(|seps|, i requires 0 <= i < |seps| => Pair(seps[i], EncodeHandle(handles[i])))
  }

  /** The blocks that have gone into the file. */
  datatype Flushed = Flushed(blocks: seq<seq<Pair>>, contents: seq<Bytes>, handles: seq<BlockHandle>)

  ghost predicate InFile(crc: Bytes -> Word, file: Bytes, f: Flushed)
    ensures InFile(crc, file, f) ==> |f.blocks| == |f.contents| == |f.handles|
  {
    && |f.blocks| == |f.contents| == |f.handles|
    && forall i | 0 <= i < |f.blocks| :: f.blocks[i] != [] && Stored(crc, file, f.handles[i], f.contents[i]) && IsBlock(f.contents[i], f.blocks[i])
  }

  lemma InFileGrows(crc: Bytes -> Word, file: Bytes, f: Flushed, more: Bytes)
    requires InFile(crc, file, f)
    ensures InFile(crc, file + more, f)
  {
    hide IsBlock, Stored;
    forall i | 0 <= i < |f.blocks| ensures Stored(crc, file + more, f.handles[i], f.contents[i]) {
      StoredStays(crc, file, f.handles[i], f.contents[i], more);
    }
  }

  lemma InFileMore(crc: Bytes -> Word, file: Bytes, f: Flushed, block: seq<Pair>, contents: Bytes, handle: BlockHandle)
    requires InFile(crc, file, f) && block != [] && Stored(crc, file, handle, contents) && IsBlock(contents, block)
    ensures InFile(crc, file, Flushed(f.blocks + [block], f.contents + [contents], f.handles + [handle]))
  {
    hide IsBlock, Stored;
  }

  /** What holds between calls: some blocks are in the file, the index has entries for all of them but a
      pending last one, and `cur` is in the data block. */
  ghost predicate BuildState(
      user: Comparator, crc: Bytes -> Word, file: Bytes, f: Flushed, seps: seq<Bytes>, cur: seq<Pair>, index: seq<Pair>, lastKey: Bytes,
      pending: bool, pendingHandle: BlockHandle)
    ensures BuildState(user, crc, file, f, seps, cur, index, lastKey, pending, pendingHandle) ==>
      InFile(crc, file, f) && |seps| <= |f.handles| && index == IndexEntries(seps, f.handles)
  {
    && InFile(crc, file, f) && Separated(user, f.blocks + [cur], seps)
    && |seps| == |f.blocks| - (if pending then 1 else 0) && |seps| >= 0
    && index == IndexEntries(seps, f.handles)
    && (pending ==> cur == [] && pendingHandle == f.handles[|f.handles| - 1])
    && (!pending && f.blocks != [] ==> cur != [])
    && (cur != [] ==> lastKey == LastKey(cur))
    && (cur == [] && f.blocks != [] ==> lastKey == LastKey(f.blocks[|f.blocks| - 1]))
  }

  lemma FlatOne(groups: seq<seq<Pair>>, g: seq<Pair>)
    ensures Flat(groups + [g]) == Flat(groups) + g
  {
    assert (groups + [g])[..|groups|] == groups;
  }

  lemma BuildStart(user: Comparator, crc: Bytes -> Word)
    ensures BuildState(user, crc, [], Flushed([], [], []), [], [], [], [], false, BlockHandle(0, 0))
  {
    FlatOne([], []);
  }

  /** What separates from a key separates from those after it. */
  lemma SeparatingOn(user: Comparator, last: Bytes, sep: Bytes, later: Bytes, next: Bytes)
    requires TotalOrder(user.less) && Separating(user, last, sep, later) && |next| >= 8 && EncodedLess(user, later, next)
    ensures Separating(user, last, sep, next)
  {
    hide UserKey, Trailer, BytewiseLess;
  }

  /** The last key is the greatest so far. */
  lemma LastIsGreatest(user: Comparator, es: seq<Pair>, last: Bytes, key: Bytes)
    requires TotalOrder(user.less) && SortedPairs(InternalComparator(user).less, es) && es != [] && es[|es| - 1].key == last
    requires EncodedLess(user, last, key)
    ensures forall x: Pair | x in es :: EncodedLess(user, x.key, key)
  {
    hide EncodedLess;
    EncodedIsTotal(user);
    var less := InternalComparator(user).less;
    assert forall a: Bytes, b: Bytes :: less(a, b) == EncodedLess(user, a, b);
    forall x: Pair | x in es ensures less(x.key, key) {
      var i :| 0 <= i < |es| && es[i] == x;
      assert i < |es| - 1 ==> less(es[i].key, es[|es| - 1].key);
    }
  }

  lemma AscendingSnoc(user: Comparator, es: seq<Pair>, x: Pair)
    requires Ascending(user, es) && |x.key| >= 8 && forall y: Pair | y in es :: EncodedLess(user, y.key, x.key)
    ensures Ascending(user, es + [x])
  {
    hide EncodedLess;
    var less := InternalComparator(user).less;
    assert forall a: Bytes, b: Bytes :: less(a, b) == EncodedLess(user, a, b);
  }

  /** A key after all others goes into the last group. */
  lemma SeparatedAdd(user: Comparator, blocks: seq<seq<Pair>>, cur: seq<Pair>, seps: seq<Bytes>, x: Pair)
    requires Separated(user, blocks + [cur], seps) && |seps| <= |blocks| && |x.key| >= 8
    requires forall y: Pair | y in Flat(blocks + [cur]) :: EncodedLess(user, y.key, x.key)
    requires forall i | 0 <= i < |seps| :: blocks[i] != [] && Separating(user, LastKey(blocks[i]), seps[i], x.key)
    ensures Separated(user, blocks + [cur + [x]], seps)
    ensures Flat(blocks + [cur + [x]]) == Flat(blocks + [cur]) + [x]
  {
    hide EncodedLess, Separating, Flat, Ascending, LastKey, SeparatesAt;
    FlatOne(blocks, cur);
    FlatOne(blocks, cur + [x]);
    assert Flat(blocks) + (cur + [x]) == Flat(blocks) + cur + [x];
    AscendingSnoc(user, Flat(blocks + [cur]), x);
    forall i | 0 <= i < |seps| ensures SeparatesAt(user, blocks + [cur + [x]], i, seps[i]) {
      LaterAdd(user, blocks, cur, i, seps[i], x);
    }
  }

  lemma LaterAdd(user: Comparator, blocks: seq<seq<Pair>>, cur: seq<Pair>, i: nat, sep: Bytes, x: Pair)
    requires i < |blocks| && blocks[i] != []
    requires SeparatesAt(user, blocks + [cur], i, sep) && Separating(user, LastKey(blocks[i]), sep, x.key)
    ensures SeparatesAt(user, blocks + [cur + [x]], i, sep)
  {
    hide Separating, EncodedLess;
    var was, now := blocks + [cur], blocks + [cur + [x]];
    assert was[i] == now[i] == blocks[i];
    forall j, y: Pair | i < j < |now| && y in now[j] ensures Separating(user, LastKey(blocks[i]), sep, y.key) {
      if y in was[j] {
        assert Separating(user, LastKey(was[i]), sep, y.key);
      }
    }
  }

  /** A new separator for the last block, while nothing follows it. */
  lemma SeparatedIndex(user: Comparator, blocks: seq<seq<Pair>>, seps: seq<Bytes>, sep: Bytes)
    requires Separated(user, blocks + [[]], seps) && |seps| + 1 == |blocks| && blocks[|seps|] != []
    requires |sep| >= 8 && !EncodedLess(user, sep, LastKey(blocks[|seps|]))
    ensures Separated(user, blocks + [[]], seps + [sep])
  {
    hide EncodedLess, Separating, Ascending, Flat;
    var groups, more: seq<Bytes> := blocks + [[]], seps + [sep];
    forall i | 0 <= i < |more| ensures SeparatesAt(user, groups, i, more[i]) {
      if i < |seps| {
        assert more[i] == seps[i] && SeparatesAt(user, groups, i, seps[i]);
      } else {
        assert groups[i] == blocks[i];
      }
    }
  }

  lemma SeparatedFlush(user: Comparator, groups: seq<seq<Pair>>, seps: seq<Bytes>)
    requires Separated(user, groups, seps)
    ensures Separated(user, groups + [[]], seps) && Flat(groups + [[]]) == Flat(groups)
  {
    hide EncodedLess, Separating, Ascending, Flat;
    FlatOne(groups, []);
    assert Flat(groups) + [] == Flat(groups);
    var more: seq<seq<Pair>> := groups + [[]];
    forall i | 0 <= i < |seps| ensures SeparatesAt(user, more, i, seps[i]) {
      assert SeparatesAt(user, groups, i, seps[i]) && more[i] == groups[i];
    }
  }

  /** The last key added is the last of all. */
  lemma LastOfAll(blocks: seq<seq<Pair>>, cur: seq<Pair>)
    requires cur != [] || (blocks != [] && blocks[|blocks| - 1] != [])
    ensures var es := Flat(blocks + [cur]);
      es != [] && es[|es| - 1].key == LastKey(if cur != [] then cur else blocks[|blocks| - 1])
  {
    FlatOne(blocks, cur);
    if cur == [] {
      FlatOne(blocks[..|blocks| - 1], blocks[|blocks| - 1]);
      assert blocks == blocks[..|blocks| - 1] + [blocks[|blocks| - 1]];
    }
  }

  /** Earlier separators also separate from a key after the last one. */
  lemma OldSeparators(user: Comparator, groups: seq<seq<Pair>>, i: nat, j: nat, sep: Bytes, key: Bytes)
    requires TotalOrder(user.less) && SeparatesAt(user, groups, i, sep) && i < j < |groups| && groups[j] != []
    requires |key| >= 8 && EncodedLess(user, LastKey(groups[j]), key)
    ensures Separating(user, LastKey(groups[i]), sep, key)
  {
    hide EncodedLess, Separating;
    var x := groups[j][|groups[j]| - 1];
    assert x in groups[j];
    SeparatingOn(user, LastKey(groups[i]), sep, x.key, key);
  }

  ghost predicate GoodComparator(user: Comparator) {
    TotalOrder(user.less) && Separates(user)
  }

  lemma NewSeparator(user: Comparator, last: Bytes, key: Bytes)
    requires GoodComparator(user) && |last| >= 8 && |key| >= 8 && EncodedLess(user, last, key)
    ensures var sep := EncodedSeparator(user, last, key);
      |sep| >= 8 && !EncodedLess(user, sep, last) && Separating(user, last, sep, key)
  {
    hide UserKey, Trailer, BytewiseLess, EncodedSeparator;
    EncodedSeparatorMeans(user, last, key);
    EncodedIrreflexive(user, last, key);
  }

  lemma EncodedIrreflexive(user: Comparator, last: Bytes, key: Bytes)
    requires TotalOrder(user.less) && |last| >= 8
    ensures !EncodedLess(user, last, last)
  {
    hide UserKey, Trailer, BytewiseLess;
  }

  /** What a key after all others makes of the groups and separators. */
  lemma GroupsAdd(user: Comparator, f: Flushed, seps: seq<Bytes>, cur: seq<Pair>, lastKey: Bytes, pending: bool, x: Pair)
    requires GoodComparator(user) && Separated(user, f.blocks + [cur], seps) && |x.key| >= 8
    requires (forall i | 0 <= i < |f.blocks| :: f.blocks[i] != []) && |seps| == |f.blocks| - (if pending then 1 else 0)
    requires (pending ==> cur == []) && (!pending && f.blocks != [] ==> cur != [])
    requires cur != [] ==> lastKey == LastKey(cur)
    requires cur == [] && f.blocks != [] ==> lastKey == LastKey(f.blocks[|f.blocks| - 1])
    requires cur != [] || f.blocks != [] ==> EncodedLess(user, lastKey, x.key)
    ensures Separated(user, f.blocks + [cur + [x]], if pending then seps + [EncodedSeparator(user, lastKey, x.key)] else seps)
    ensures Flat(f.blocks + [cur + [x]]) == Flat(f.blocks + [cur]) + [x]
  {
    hide EncodedLess, Separating, Flat, SeparatesAt, LastKey, GoodComparator, EncodedSeparator;
    var groups := f.blocks + [cur];
    var es := Flat(groups);
    if cur == [] && f.blocks == [] {
      FlatOne([], []);
      assert groups == [] + [[]];
      assert es == [] by { FlatNone(); }
      SeparatedAdd(user, f.blocks, cur, seps, x);
    } else {
      LastOfAll(f.blocks, cur);
      assert lastKey == es[|es| - 1].key;
      assert |lastKey| >= 8 by { LongLast(es, user); }
      OrderOf(user);
      LastIsGreatest(user, es, lastKey, x.key);
      var j := if cur != [] then |f.blocks| else |f.blocks| - 1;
      forall i | 0 <= i < |seps| ensures Separating(user, LastKey(f.blocks[i]), seps[i], x.key) {
        assert SeparatesAt(user, groups, i, seps[i]) && groups[i] == f.blocks[i];
        OldSeparators(user, groups, i, j, seps[i], x.key);
      }
      if pending {
        var sep := EncodedSeparator(user, lastKey, x.key);
        NewSeparator(user, lastKey, x.key);
        SeparatedIndex(user, f.blocks, seps, sep);
        SeparatedAdd(user, f.blocks, cur, seps + [sep], x);
      } else {
        SeparatedAdd(user, f.blocks, cur, seps, x);
      }
    }
  }

  lemma FlatNone()
    ensures Flat([]) == []
  {
  }

  lemma OrderOf(user: Comparator)
    requires GoodComparator(user)
    ensures TotalOrder(user.less)
  {
  }

  lemma LongLast(es: seq<Pair>, user: Comparator)
    requires Ascending(user, es) && es != []
    ensures |es[|es| - 1].key| >= 8
  {
    assert es[|es| - 1] in es;
  }

  function Pushed(index: seq<Pair>, pending: bool, sep: Bytes, handle: BlockHandle): seq<Pair> {
    if pending then index + [Pair(sep, EncodeHandle(handle))] else index
  }

  lemma BlocksNonempty(crc: Bytes -> Word, file: Bytes, f: Flushed)
    requires InFile(crc, file, f)
    ensures forall i | 0 <= i < |f.blocks| :: f.blocks[i] != []
  {
  }

  lemma IndexMore(seps: seq<Bytes>, handles: seq<BlockHandle>, sep: Bytes)
    requires |seps| < |handles|
    ensures IndexEntries(seps + [sep], handles) == IndexEntries(seps, handles) + [Pair(sep, EncodeHandle(handles[|seps|]))]
  {
    hide EncodeHandle;
  }

  lemma IndexSame(seps: seq<Bytes>, handles: seq<BlockHandle>, handle: BlockHandle)
    requires |seps| <= |handles|
    ensures IndexEntries(seps, handles + [handle]) == IndexEntries(seps, handles)
  {
    hide EncodeHandle;
  }

  lemma StateAdd(
      user: Comparator, crc: Bytes -> Word, file: Bytes, f: Flushed, seps: seq<Bytes>, cur: seq<Pair>, index: seq<Pair>, lastKey: Bytes,
      pending: bool, pendingHandle: BlockHandle, x: Pair)
    requires GoodComparator(user) && BuildState(user, crc, file, f, seps, cur, index, lastKey, pending, pendingHandle) && |x.key| >= 8
    requires Flat(f.blocks + [cur]) != [] ==> EncodedLess(user, lastKey, x.key)
    ensures var sep := EncodedSeparator(user, lastKey, x.key);
      BuildState(user, crc, file, f, if pending then seps + [sep] else seps, cur + [x], Pushed(index, pending, sep, pendingHandle), x.key, false,
        pendingHandle)
    ensures Flat(f.blocks + [cur + [x]]) == Flat(f.blocks + [cur]) + [x]
  {
    hide EncodedLess, EncodedSeparator, GoodComparator, Separated, Flat, InFile, IndexEntries, EncodeHandle;
    BlocksNonempty(crc, file, f);
    if pending {
      IndexMore(seps, f.handles, EncodedSeparator(user, lastKey, x.key));
    }
    if cur != [] || f.blocks != [] {
      LastOfAll(f.blocks, cur);
    }
    GroupsAdd(user, f, seps, cur, lastKey, pending, x);
  }

  lemma StateFlush(
      user: Comparator, crc: Bytes -> Word, file: Bytes, f: Flushed, seps: seq<Bytes>, cur: seq<Pair>, index: seq<Pair>, lastKey: Bytes,
      pendingHandle: BlockHandle, contents: Bytes, handle: BlockHandle)
    requires BuildState(user, crc, file, f, seps, cur, index, lastKey, false, pendingHandle) && cur != [] && IsBlock(contents, cur)
    requires |file| < TWO_64 && |contents| < TWO_64 && handle == BlockHandle(|file|, |contents|)
    ensures BuildState(user, crc, file + RawBlock(crc, contents), Flushed(f.blocks + [cur], f.contents + [contents], f.handles + [handle]),
      seps, [], index, lastKey, true, handle)
    ensures Flat((f.blocks + [cur]) + [[]]) == Flat(f.blocks + [cur])
  {
    hide Separated, IsBlock, Stored, RawBlock, Flat;
    InFileGrows(crc, file, f, RawBlock(crc, contents));
    StoredNow(crc, file, contents);
    InFileMore(crc, file + RawBlock(crc, contents), f, cur, contents, handle);
    IndexSame(seps, f.handles, handle);
    SeparatedFlush(user, f.blocks + [cur], seps);
  }

  /** A finished table: its blocks, the index of separators and handles, and the footer that finds it. */
  datatype Layouts = Layouts(f: Flushed, seps: seq<Bytes>, indexContents: Bytes, indexHandle: BlockHandle, metaindexHandle: BlockHandle)

  ghost predicate IsTable(user: Comparator, crc: Bytes -> Word, file: Bytes, t: Layouts)
    ensures IsTable(user, crc, file, t) ==> |t.f.blocks| == |t.f.contents| == |t.f.handles| == |t.seps|
  {
    && InFile(crc, file, t.f) && |t.seps| == |t.f.blocks| && Separated(user, t.f.blocks + [[]], t.seps)
    && Stored(crc, file, t.indexHandle, t.indexContents) && IsBlock(t.indexContents, IndexEntries(t.seps, t.f.handles))
    && |file| >= FOOTER_SIZE && Encodable(t.metaindexHandle)
    && file[|file| - FOOTER_SIZE..] == EncodeFooter(t.metaindexHandle, t.indexHandle)
  }

  /** One more block has been written, at `offset`. */
  ghost predicate Follows(f: Flushed, block: seq<Pair>, offset: nat, next: Flushed) {
    && next.blocks == f.blocks + [block] && |f.handles| == |f.blocks|
    && |next.handles| == |f.handles| + 1 && next.handles[..|f.handles|] == f.handles && next.handles[|f.handles|].offset == offset
  }

  class TableBuilder {
    const user: Comparator
    const crc: Bytes -> Word
    const blockSize: nat
    const interval: nat
    const dataBlock: BlockBuilder
    const indexBlock: BlockBuilder
    var file: Bytes
    var lastKey: Bytes
    var numEntries: nat
    var closed: bool
    var pendingIndexEntry: bool
    var pendingHandle: BlockHandle
    ghost var f: Flushed
    ghost var seps: seq<Bytes>

    constructor (user: Comparator, crc: Bytes -> Word, blockSize: nat, interval: nat)
      requires GoodComparator(user) && interval >= 1
      ensures Valid() && !closed && Entries() == [] && this.user == user && this.crc == crc
      ensures f == Flushed([], [], []) && dataBlock.layout.entries == [] && file == []
      ensures fresh(dataBlock) && fresh(indexBlock)
    {
      this.user, this.crc, this.blockSize, this.interval := user, crc, blockSize, interval;
      dataBlock := new BlockBuilder(interval);
      indexBlock := new BlockBuilder(1);
      file, lastKey, numEntries, closed, pendingIndexEntry, pendingHandle := [], [], 0, false, false, BlockHandle(0, 0);
      f, seps := Flushed([], [], []), [];
      BuildStart(user, crc);
      FlatNone();
      FlatOne([], []);
    }

    ghost predicate Valid()
      reads this, dataBlock, indexBlock
    {
      && GoodComparator(user) && dataBlock != indexBlock && interval >= 1 && dataBlock.interval == interval
      && dataBlock.Valid() && indexBlock.Valid()
      && !dataBlock.finished && !indexBlock.finished
      && BuildState(user, crc, file, f, seps, dataBlock.layout.entries, indexBlock.layout.entries, lastKey, pendingIndexEntry, pendingHandle)
    }

    /** All entries added. */
    ghost function Entries(): seq<Pair>
      reads this, dataBlock
    {
      Flat(f.blocks + [dataBlock.layout.entries])
    }

    /** The blocks stay below 2^32 bytes, and the file below 2^64, when some more bytes go in. */
    ghost predicate Room(n: nat)
      reads this, dataBlock, indexBlock
    {
      && dataBlock.CurrentSizeEstimate() + n < TWO_32 && indexBlock.CurrentSizeEstimate() + n < TWO_32
      && |file| + dataBlock.CurrentSizeEstimate() + n < TWO_64
    }

    /** Writes a finished block and starts it anew. */
    method WriteBlock(block: BlockBuilder) returns (handle: BlockHandle, ghost contents: Bytes)
      requires block.Valid() && !block.finished && block.CurrentSizeEstimate() < TWO_32
      modifies this`file, block
      ensures block.Valid() && !block.finished && block.layout.entries == [] && block.CurrentSizeEstimate() == 8
      ensures IsBlock(contents, old(block.layout.entries)) && |contents| == old(block.CurrentSizeEstimate())
      ensures handle == BlockHandle(|old(file)|, |contents|) && file == old(file) + RawBlock(crc, contents)
    {
      hide Laid, Building, RawBlock, BlockBytes;
      ghost var layout, buffer, size := block.layout, block.buffer, block.CurrentSizeEstimate();
      var raw := block.Finish();
      BuiltHolds(layout, buffer, raw);
      BlockSize(buffer, layout.RestartOffsets());
      contents := raw;
      handle := BlockHandle(|file|, |raw|);
      file := file + RawBlock(crc, raw);
      block.Reset();
    }

    /** Adds a key after all others. The data block is written out just if it has reached the block size. */
    method Add(key: Bytes, value: Bytes)
      requires Valid() && !closed && |key| >= 8 && Room(|key| + |value| + |lastKey| + 64)
      requires Entries() != [] ==> EncodedLess(user, lastKey, key)
      modifies this, dataBlock, indexBlock
      ensures Valid() && !closed && Entries() == old(Entries()) + [Pair(key, value)] && lastKey == key
      ensures |file| >= |old(file)| && if |file| == |old(file)|
        then f == old(f) && dataBlock.layout.entries == old(dataBlock.layout.entries) + [Pair(key, value)]
        else dataBlock.layout.entries == [] && Follows(old(f), old(dataBlock.layout.entries) + [Pair(key, value)], |old(file)|, f)
      ensures |file| > |old(file)| <==> Estimate(interval, old(dataBlock.layout.entries) + [Pair(key, value)]) >= blockSize
    {
      hide BlockBuilder.Valid, BuildState, EncodedLess, GoodComparator, EncodedSeparator, Flat, Estimate;
      ghost var cur, index, last, pending, handle := dataBlock.layout.entries, indexBlock.layout.entries, lastKey, pendingIndexEntry, pendingHandle;
      StateAdd(user, crc, file, f, seps, cur, index, last, pending, handle, Pair(key, value));
      if pendingIndexEntry {
        SeparatorShort(user, lastKey, key);
        PendingEncodable(user, crc, file, f, seps, cur, index, last, handle);
        HandleSize(pendingHandle);
        lastKey := EncodedSeparator(user, lastKey, key);
        indexBlock.Add(lastKey, EncodeHandle(pendingHandle));
        seps := seps + [lastKey];
        pendingIndexEntry := false;
      }
      lastKey := key;
      numEntries := numEntries + 1;
      dataBlock.Add(key, value);
      dataBlock.EstimateIs();
      if dataBlock.CurrentSizeEstimate() >= blockSize {
        Flush();
      }
    }

    /** Ends the data block and writes it out; its index entry waits for the next key. */
    method Flush()
      requires Valid() && !closed && Room(0)
      modifies this`file, this`pendingHandle, this`pendingIndexEntry, this`f, dataBlock
      ensures Valid() && !closed && Entries() == old(Entries())
      ensures dataBlock.layout.entries == [] && dataBlock.CurrentSizeEstimate() <= old(dataBlock.CurrentSizeEstimate())
      ensures |file| <= |old(file)| + old(dataBlock.CurrentSizeEstimate()) + TRAILER_SIZE
      ensures |file| >= |old(file)| && if old(dataBlock.layout.entries) == [] then |file| == |old(file)| && f == old(f)
        else |file| > |old(file)| && Follows(old(f), old(dataBlock.layout.entries), |old(file)|, f)
    {
      hide BlockBuilder.Valid, BuildState, GoodComparator, Flat, RawBlock;
      dataBlock.EmptyIs();
      if dataBlock.Empty() {
        return;
      }
      ghost var cur := dataBlock.layout.entries;
      NotPending(user, crc, file, f, seps, cur, indexBlock.layout.entries, lastKey, pendingIndexEntry, pendingHandle);
      ghost var was, contents := file, [];
      ghost var before := pendingHandle;
      pendingHandle, contents := WriteBlock(dataBlock);
      pendingIndexEntry := true;
      StateFlush(user, crc, was, f, seps, cur, indexBlock.layout.entries, lastKey, before, contents, pendingHandle);
      f := Flushed(f.blocks + [cur], f.contents + [contents], f.handles + [pendingHandle]);
    }

    /** Writes what is left, the metaindex, the index and the footer. */
    method Finish() returns (ghost t: Layouts)
      requires Valid() && !closed && Room(|lastKey| + 128)
      modifies this, dataBlock, indexBlock
      ensures closed && IsTable(user, crc, file, t) && Flat(t.f.blocks) == old(Entries())
      ensures if old(dataBlock.layout.entries) == [] then t.f == old(f) else Follows(old(f), old(dataBlock.layout.entries), |old(file)|, t.f)
    {
      hide BlockBuilder.Valid, BuildState, GoodComparator, Flat, RawBlock, IsTable, EncodeFooter, InFile, Separated, IndexEntries;
      Flush();
      closed := true;
      ghost var start := file;
      var metaindexBlock := new BlockBuilder(interval);
      var metaindexHandle, indexHandle;
      ghost var metaContents, indexContents;
      metaindexHandle, metaContents := WriteBlock(metaindexBlock);
      CompleteIndex(start);
      ghost var withMeta := file;
      indexHandle, indexContents := WriteBlock(indexBlock);
      file := file + EncodeFooter(metaindexHandle, indexHandle);
      t := Layouts(f, seps, indexContents, indexHandle, metaindexHandle);
      FinishedIsTable(user, crc, start, withMeta, t, RawBlock(crc, metaContents));
      FlatOne(f.blocks, []);
      assert Flat(f.blocks) + [] == Flat(f.blocks);
    }

    /** Adds the index entry of the last block. */
    method CompleteIndex(ghost start: Bytes)
      requires GoodComparator(user) && indexBlock.Valid() && !indexBlock.finished
      requires BuildState(user, crc, start, f, seps, [], indexBlock.layout.entries, lastKey, pendingIndexEntry, pendingHandle)
      requires indexBlock.CurrentSizeEstimate() + |lastKey| + 64 < TWO_32
      modifies this`lastKey, this`seps, this`pendingIndexEntry, indexBlock
      ensures indexBlock.Valid() && !indexBlock.finished && indexBlock.CurrentSizeEstimate() < TWO_32
      ensures InFile(crc, start, f) && |seps| == |f.blocks| && Separated(user, f.blocks + [[]], seps)
      ensures indexBlock.layout.entries == IndexEntries(seps, f.handles)
    {
      hide BlockBuilder.Valid, BuildState, GoodComparator, EncodedSuccessor, InFile, Separated, IndexEntries;
      StateFinish(user, crc, start, f, seps, indexBlock.layout.entries, lastKey, pendingIndexEntry, pendingHandle);
      if pendingIndexEntry {
        SuccessorShort(user, lastKey);
        PendingEncodable(user, crc, start, f, seps, [], indexBlock.layout.entries, lastKey, pendingHandle);
        HandleSize(pendingHandle);
        lastKey := EncodedSuccessor(user, lastKey);
        indexBlock.Add(lastKey, EncodeHandle(pendingHandle));
        seps := seps + [lastKey];
        pendingIndexEntry := false;
      }
    }
  }

  lemma SuccessorShort(user: Comparator, key: Bytes)
    ensures |EncodedSuccessor(user, key)| <= |key|
  {
    hide EncodeFixed64;
  }

  /** The last index entry completes the index. */
  lemma StateFinish(
      user: Comparator, crc: Bytes -> Word, file: Bytes, f: Flushed, seps: seq<Bytes>, index: seq<Pair>, lastKey: Bytes, pending: bool,
      pendingHandle: BlockHandle)
    requires GoodComparator(user) && BuildState(user, crc, file, f, seps, [], index, lastKey, pending, pendingHandle)
    ensures var all := if pending then seps + [EncodedSuccessor(user, lastKey)] else seps;
      InFile(crc, file, f) && |all| == |f.blocks| && Separated(user, f.blocks + [[]], all)
      && Pushed(index, pending, EncodedSuccessor(user, lastKey), pendingHandle) == IndexEntries(all, f.handles)
  {
    hide EncodedLess, EncodedSuccessor, GoodComparator, Separated, Flat, InFile, IndexEntries, EncodeHandle;
    if pending {
      var sep := EncodedSuccessor(user, lastKey);
      BlocksNonempty(crc, file, f);
      LastOfAll(f.blocks, []);
      LongAll(user, f.blocks + [[]], seps);
      NewSuccessor(user, lastKey);
      SeparatedIndex(user, f.blocks, seps, sep);
      IndexMore(seps, f.handles, sep);
    }
  }

  lemma LongAll(user: Comparator, groups: seq<seq<Pair>>, seps: seq<Bytes>)
    requires Separated(user, groups, seps) && Flat(groups) != []
    ensures var es := Flat(groups); |es[|es| - 1].key| >= 8
  {
    LongLast(Flat(groups), user);
  }

  lemma NewSuccessor(user: Comparator, key: Bytes)
    requires GoodComparator(user) && |key| >= 8
    ensures |EncodedSuccessor(user, key)| >= 8 && !EncodedLess(user, EncodedSuccessor(user, key), key)
  {
    EncodedSuccessorMeans(user, key);
  }

  lemma FinishedIsTable(user: Comparator, crc: Bytes -> Word, start: Bytes, withMeta: Bytes, t: Layouts, meta: Bytes)
    requires InFile(crc, start, t.f) && |t.seps| == |t.f.blocks| && Separated(user, t.f.blocks + [[]], t.seps)
    requires withMeta == start + meta && |withMeta| < TWO_64 && |t.indexContents| < TWO_64
    requires IsBlock(t.indexContents, IndexEntries(t.seps, t.f.handles))
    requires t.indexHandle == BlockHandle(|withMeta|, |t.indexContents|) && Encodable(t.metaindexHandle)
    ensures IsTable(user, crc, withMeta + RawBlock(crc, t.indexContents) + EncodeFooter(t.metaindexHandle, t.indexHandle), t)
  {
    hide Separated, IsBlock, RawBlock, EncodeFooter, InFile, Stored;
    var index, footer := RawBlock(crc, t.indexContents), EncodeFooter(t.metaindexHandle, t.indexHandle);
    var file := withMeta + index + footer;
    FooterRoundTrip(t.metaindexHandle, t.indexHandle);
    assert file == start + (meta + index + footer);
    InFileGrows(crc, start, t.f, meta + index + footer);
    StoredNow(crc, withMeta, t.indexContents);
    StoredStays(crc, withMeta + index, t.indexHandle, t.indexContents, footer);
    assert file[|file| - FOOTER_SIZE..] == footer;
  }

  lemma SeparatorShort(user: Comparator, last: Bytes, key: Bytes)
    ensures |EncodedSeparator(user, last, key)| <= |last|
  {
    hide EncodeFixed64;
  }

  lemma NotPending(
      user: Comparator, crc: Bytes -> Word, file: Bytes, f: Flushed, seps: seq<Bytes>, cur: seq<Pair>, index: seq<Pair>, lastKey: Bytes,
      pending: bool, pendingHandle: BlockHandle)
    requires BuildState(user, crc, file, f, seps, cur, index, lastKey, pending, pendingHandle)
    ensures cur != [] ==> !pending
  {
  }

  lemma PendingEncodable(
      user: Comparator, crc: Bytes -> Word, file: Bytes, f: Flushed, seps: seq<Bytes>, cur: seq<Pair>, index: seq<Pair>, lastKey: Bytes,
      pendingHandle: BlockHandle)
    requires BuildState(user, crc, file, f, seps, cur, index, lastKey, true, pendingHandle)
    ensures Encodable(pendingHandle)
  {
    hide Separated, IsBlock;
    assert Stored(crc, file, f.handles[|f.handles| - 1], f.contents[|f.handles| - 1]);
  }

  lemma BlockSize(buffer: Bytes, restarts: seq<nat>)
    ensures |BlockBytes(buffer, restarts)| == |buffer| + 4 * |restarts| + 4
  {
  }
}
