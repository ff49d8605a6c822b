/** A table with a filter (table/table_builder.cc, the calls on the filter block builder; table/table.cc, the
    filter in InternalGet; db/dbformat.cc, InternalFilterPolicy). */
module FilteredTables {
  import opened Keys
  import opened Coding
  import opened Comparators
  import opened Blocks
  import opened TableBuilders
  import opened FilterBlocks
  import TableReaders

  function ExtractUserKey(key: Bytes): Bytes {
    if |key| >= 8 then UserKey(key) else key
  }

  /** InternalFilterPolicy: filters are of user keys. */
  function InternalPolicy(policy: FilterPolicy): FilterPolicy {
    FilterPolicy(
      (keys: seq<Bytes>) => policy.createFilter(seq(|keys|, i requires 0 <= i < |keys| => ExtractUserKey(keys[i]))),
      (key: Bytes, filter: Bytes) => policy.keyMayMatch(ExtractUserKey(key), filter))
  }

  lemma InternalPolicyMatches(policy: FilterPolicy)
    requires FilterBlocks.NoFalseNegatives(policy)
    ensures FilterBlocks.NoFalseNegatives(InternalPolicy(policy))
  {
    var internal := InternalPolicy(policy);
    forall keys: seq<Bytes>, k: Bytes | k in keys ensures internal.keyMayMatch(k, internal.createFilter(keys)) {
      var users := seq(|keys|, i requires 0 <= i < |keys| => ExtractUserKey(keys[i]));
      var i :| 0 <= i < |keys| && keys[i] == k;
      assert users[i] == ExtractUserKey(k);
      assert internal.createFilter(keys) == policy.createFilter(users);
    }
  }

  /** Keys with one user key match alike. */
  lemma SameUserMatches(policy: FilterPolicy, data: Bytes, offset: nat, num: nat, baseLg: nat, blockOffset: nat, k: Bytes, x: Bytes)
    requires num > 0 ==> offset + 4 * num + 5 <= |data|
    requires |k| >= 8 && |x| >= 8 && UserKey(k) == UserKey(x)
    ensures MayMatch(InternalPolicy(policy), data, offset, num, baseLg, blockOffset, k)
      == MayMatch(InternalPolicy(policy), data, offset, num, baseLg, blockOffset, x)
  {
    hide DecodeFixed32, UserKey;
    assert ExtractUserKey(k) == ExtractUserKey(x);
    var internal := InternalPolicy(policy);
    assert forall filter :: internal.keyMayMatch(k, filter) == internal.keyMayMatch(x, filter);
  }

  /** Every key of the blocks written, and of the one begun at `offset`, has been added for its block. */
  ghost predicate Covered(f: Flushed, cur: seq<Pair>, offset: nat, history: seq<(nat, Bytes)>) {
    && |f.handles| == |f.blocks|
    && (forall i, x | 0 <= i < |f.blocks| && x in f.blocks[i] :: (f.handles[i].offset, x.key) in history)
    && (forall x | x in cur :: (offset, x.key) in history)
  }

  lemma NothingCovered(history: seq<(nat, Bytes)>)
    ensures Covered(Flushed([], [], []), [], 0, history)
  {
  }

  lemma CoveredAdd(f: Flushed, cur: seq<Pair>, offset: nat, history: seq<(nat, Bytes)>, e: Pair)
    requires Covered(f, cur, offset, history)
    ensures Covered(f, cur + [e], offset, history + [(offset, e.key)])
  {
  }

  lemma CoveredFlush(f: Flushed, cur: seq<Pair>, offset: nat, history: seq<(nat, Bytes)>, next: Flushed, after: nat)
    requires Covered(f, cur, offset, history) && Follows(f, cur, offset, next)
    ensures Covered(next, [], after, history)
  {
    forall i, x | 0 <= i < |next.blocks| && x in next.blocks[i] ensures (next.handles[i].offset, x.key) in history {
      assert i < |f.blocks| ==> next.handles[i] == next.handles[..|f.handles|][i] && next.blocks[i] == f.blocks[i];
    }
  }

  class FilteredTableBuilder {
    const table: TableBuilder
    const filter: FilterBlockBuilder

    constructor (table: TableBuilder, filter: FilterBlockBuilder)
      requires table.Valid() && filter.Valid() && filter.block == |table.file|
      requires Covered(table.f, table.dataBlock.layout.entries, |table.file|, filter.history)
      ensures Valid() && this.table == table && this.filter == filter
    {
      hide TableBuilder.Valid, FilterBlockBuilder.Valid, Covered;
      this.table, this.filter := table, filter;
    }

    /** The filter is where the table is: its block begins at the end of the file. */
    ghost predicate Valid()
      reads table, table.dataBlock, table.indexBlock, filter
    {
      && table.Valid() && filter.Valid() && filter.block == |table.file|
      && Covered(table.f, table.dataBlock.layout.entries, |table.file|, filter.history)
    }

    method Add(key: Bytes, value: Bytes)
      requires Valid() && !table.closed && |key| >= 8 && table.Room(|key| + |value| + |table.lastKey| + 64)
      requires table.Entries() != [] ==> EncodedLess(table.user, table.lastKey, key)
      modifies table, table.dataBlock, table.indexBlock, filter
      ensures Valid() && !table.closed && table.Entries() == old(table.Entries()) + [Pair(key, value)] && table.lastKey == key
    {
      hide TableBuilder.Valid, FilterBlockBuilder.Valid, Covered, EncodedLess, Follows;
      ghost var f, cur, offset, history := table.f, table.dataBlock.layout.entries, |table.file|, filter.history;
      CoveredAdd(f, cur, offset, history, Pair(key, value));
      filter.AddKey(key);
      var before := |table.file|;
      table.Add(key, value);
      if |table.file| > before {
        CoveredFlush(f, cur + [Pair(key, value)], offset, filter.history, table.f, |table.file|);
        filter.StartBlock(|table.file|);
      }
    }

    /** The table, and the filter block: it passes every key with a user key that is in the block asked for. */
    method Finish() returns (ghost t: Layouts, reader: FilterBlockReader)
      requires Valid() && !table.closed && FilterBlocks.NoFalseNegatives(filter.policy)
      requires table.Room(|table.lastKey| + 128) && |table.file| + 2 * table.dataBlock.CurrentSizeEstimate() + |table.lastKey| + 256 < TWO_64
      modifies table, table.dataBlock, table.indexBlock, filter
      ensures table.closed && IsTable(table.user, table.crc, table.file, t) && Flat(t.f.blocks) == old(table.Entries())
      ensures reader.Valid() && reader.policy == filter.policy
      ensures |filter.result| < TWO_32 ==>
        forall i, x | 0 <= i < |t.f.blocks| && x in t.f.blocks[i] ::
          MayMatch(filter.policy, reader.data, reader.offset, reader.num, reader.baseLg, t.f.handles[i].offset, x.key)
    {
      hide TableBuilder.Valid, FilterBlockBuilder.Valid, Covered, Follows, IsTable, Flat, MayMatch, FilterBlock;
      hide FilterBlocks.NoFalseNegatives, FilterBlocks.Laid;
      ghost var f, cur, offset := table.f, table.dataBlock.layout.entries, |table.file|;
      var before := |table.file|;
      table.Flush();
      if |table.file| > before {
        CoveredFlush(f, cur, offset, filter.history, table.f, |table.file|);
        filter.StartBlock(|table.file|);
      }
      var contents := filter.Finish();
      ghost var flushed := table.f;
      t := table.Finish();
      reader := new FilterBlockReader(filter.policy, contents);
      if |filter.result| < TWO_32 {
        forall i, x | 0 <= i < |t.f.blocks| && x in t.f.blocks[i]
          ensures MayMatch(filter.policy, reader.data, reader.offset, reader.num, reader.baseLg, t.f.handles[i].offset, x.key)
        {
          CoveredMeans(flushed, offset, filter.history, i, x);
          BlockEnds(filter.filterOffsets, filter.result);
          AddedKeyMatches(filter.policy, filter.filters, filter.filterOffsets, filter.result, t.f.handles[i].offset, x.key);
        }
      }
    }
  }

  /** A new table with a filter by the policy for user keys. */
  method NewBuilder(user: Comparator, crc: Bytes -> Word, blockSize: nat, interval: nat, policy: FilterPolicy) returns (b: FilteredTableBuilder)
    requires GoodComparator(user) && interval >= 1
    ensures b.Valid() && !b.table.closed && b.table.Entries() == [] && b.table.user == user && b.table.crc == crc
    ensures b.filter.policy == InternalPolicy(policy)
    ensures fresh(b.table) && fresh(b.table.dataBlock) && fresh(b.table.indexBlock) && fresh(b.filter)
  {
    hide TableBuilder.Valid, FilterBlockBuilder.Valid, Covered, GoodComparator;
    var filter := new FilterBlockBuilder(InternalPolicy(policy));
    filter.StartBlock(0);
    var table := new TableBuilder(user, crc, blockSize, interval);
    NothingCovered(filter.history);
    b := new FilteredTableBuilder(table, filter);
  }

  lemma CoveredMeans(f: Flushed, offset: nat, history: seq<(nat, Bytes)>, i: nat, x: Pair)
    requires Covered(f, [], offset, history) && i < |f.blocks| && x in f.blocks[i]
    ensures i < |f.handles| && (f.handles[i].offset, x.key) in history
  {
  }

  /** Point lookup in a finished table through its filter: as without it, the saver gets the first entry at or
      after the key if that has the key's user key, and otherwise at most that entry. */
  method InternalGetFiltered(
      user: Comparator, crc: Bytes -> Word, verifyChecksums: bool, file: Bytes, indexContents: Bytes, policy: FilterPolicy,
      reader: FilterBlockReader, k: Bytes, ghost t: Layouts)
      returns (saved: Option<Pair>)
    requires GoodComparator(user) && IsTable(user, crc, file, t) && indexContents == t.indexContents && |k| >= 8
    requires reader.Valid() && reader.policy == InternalPolicy(policy)
    requires forall i, x | 0 <= i < |t.f.blocks| && x in t.f.blocks[i] ::
      MayMatch(reader.policy, reader.data, reader.offset, reader.num, reader.baseLg, t.f.handles[i].offset, x.key)
    ensures saved.Some? ==> TableReaders.IsFirst(user, TableReaders.Entries(t), k, saved.value)
    ensures forall e: Pair | TableReaders.IsFirst(user, TableReaders.Entries(t), k, e) && |e.key| >= 8 && UserKey(e.key) == UserKey(k) ::
      saved == Some(e)
  {
    hide IsTable, GoodComparator, MayMatch, TableReaders.IsFirst;
    var p, data, at, num, lg := reader.policy, reader.data, reader.offset, reader.num, reader.baseLg;
    var filter := (blockOffset: nat, key: Bytes) =>
      if num > 0 && at + 4 * num + 5 > |data| then true else MayMatch(p, data, at, num, lg, blockOffset, key);
    forall i, x: Pair, key: Bytes | 0 <= i < |t.f.blocks| && x in t.f.blocks[i] && |x.key| >= 8 && |key| >= 8 && UserKey(key) == UserKey(x.key)
      ensures filter(t.f.handles[i].offset, key)
    {
      SameUserMatches(policy, data, at, num, lg, t.f.handles[i].offset, key, x.key);
    }
    saved := TableReaders.InternalGet(user, crc, verifyChecksums, file, indexContents, Some(filter), k, t);
  }
}
