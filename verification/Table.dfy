/** Point lookups in a table (table/table.cc). A filter, where there is one, is any that gives no false
    negatives for the user keys of its block. */
module TableReaders {
  import opened Keys
  import opened Coding
  import opened Comparators
  import opened Blocks
  import opened BlockIters
  import opened TableFormat
  import opened TableBuilders

  /** The first entry at or after the key. */
  ghost predicate IsFirst(user: Comparator, es: seq<Pair>, k: Bytes, e: Pair) {
    && e in es && !EncodedLess(user, e.key, k)
    && forall x: Pair | x in es :: EncodedLess(user, x.key, k) || !EncodedLess(user, x.key, e.key)
  }

  /** Where the keys of a list cease to be before `k`. */
  ghost predicate LowerBoundAt(user: Comparator, keys: seq<Bytes>, k: Bytes, i: nat) {
    && i <= |keys|
    && (forall j | 0 <= j < i :: EncodedLess(user, keys[j], k))
    && (forall j | i <= j < |keys| :: !EncodedLess(user, keys[j], k))
  }

  /** The filter passes every key whose user key is in the block at the offset. */
  ghost predicate NoFalseNegatives(filter: (nat, Bytes) -> bool, t: Layouts)
    requires |t.f.blocks| == |t.f.handles|
  {
    forall i, x: Pair, k: Bytes | 0 <= i < |t.f.blocks| && x in t.f.blocks[i] && |x.key| >= 8 && |k| >= 8 && UserKey(k) == UserKey(x.key) ::
      filter(t.f.handles[i].offset, k)
  }

  /** Order facts without the make-up of keys. */
  lemma OrderFacts(user: Comparator, a: Bytes, b: Bytes, c: Bytes)
    requires TotalOrder(user.less)
    ensures EncodedLess(user, a, b) && EncodedLess(user, b, c) ==> EncodedLess(user, a, c)
    ensures !EncodedLess(user, b, a) && EncodedLess(user, b, c) ==> EncodedLess(user, a, c)
    ensures EncodedLess(user, a, b) && !EncodedLess(user, c, b) ==> EncodedLess(user, a, c)
    ensures !EncodedLess(user, a, a)
  {
    hide EncodedLess;
    EncodedIsTotal(user);
    var less := InternalComparator(user).less;
    assert forall x: Bytes, y: Bytes :: less(x, y) == EncodedLess(user, x, y);
  }

  /** Keys with one user key and a separator between them that has another. */
  lemma UserBetween(user: Comparator, k: Bytes, sep: Bytes, e: Bytes)
    requires TotalOrder(user.less) && |k| >= 8 && |sep| >= 8 && |e| >= 8 && !EncodedLess(user, sep, k) && user.less(UserKey(sep), UserKey(e))
    ensures UserKey(k) != UserKey(e)
  {
    hide UserKey, Trailer;
  }

  lemma SortedConcat(less: (Bytes, Bytes) -> bool, a: seq<Pair>, b: seq<Pair>)
    requires SortedPairs(less, a + b)
    ensures SortedPairs(less, a) && SortedPairs(less, b)
  {
    var ab := a + b;
    forall i, j | 0 <= i < j < |a| ensures less(a[i].key, a[j].key) {
      assert a[i] == ab[i] && a[j] == ab[j];
    }
    forall i, j | 0 <= i < j < |b| ensures less(b[i].key, b[j].key) {
      var c, d := |a| + i, |a| + j;
      assert b[i] == ab[c] && b[j] == ab[d];
    }
  }

  lemma AscendingParts(user: Comparator, a: seq<Pair>, b: seq<Pair>)
    requires Ascending(user, a + b)
    ensures Ascending(user, a) && Ascending(user, b)
  {
    hide InternalComparator, SortedPairs;
    SortedConcat(InternalComparator(user).less, a, b);
    assert forall x | x in a || x in b :: x in a + b;
  }

  /** Keys ascend within each group. */
  lemma {:induction false} GroupAscends(user: Comparator, groups: seq<seq<Pair>>, i: nat)
    requires Ascending(user, Flat(groups)) && i < |groups|
    ensures Ascending(user, groups[i])
    decreases |groups|
  {
    hide Ascending;
    var init, g := groups[..|groups| - 1], groups[|groups| - 1];
    AscendingParts(user, Flat(init), g);
    if i < |groups| - 1 {
      GroupAscends(user, init, i);
    }
  }

  /** A group's keys are at most its last. */
  lemma UpToLast(user: Comparator, groups: seq<seq<Pair>>, i: nat, x: Pair)
    requires TotalOrder(user.less) && Ascending(user, Flat(groups)) && i < |groups| && x in groups[i]
    ensures |x.key| >= 8 && !EncodedLess(user, LastKey(groups[i]), x.key)
  {
    var g := groups[i];
    GroupAscends(user, groups, i);
    var p :| 0 <= p < |g| && g[p] == x;
    NotBefore(user, g, p, |g| - 1);
  }

  lemma NotBefore(user: Comparator, g: seq<Pair>, q: nat, p: nat)
    requires TotalOrder(user.less) && Ascending(user, g) && q <= p < |g|
    ensures !EncodedLess(user, g[p].key, g[q].key)
  {
    hide EncodedLess;
    var less := InternalComparator(user).less;
    assert forall a: Bytes, b: Bytes :: less(a, b) == EncodedLess(user, a, b);
    EncodedIsTotal(user);
    assert p > q ==> less(g[q].key, g[p].key);
  }

  /** The separators ascend. */
  lemma SeparatorsAscend(user: Comparator, groups: seq<seq<Pair>>, seps: seq<Bytes>, handles: seq<BlockHandle>)
    requires TotalOrder(user.less) && Separated(user, groups, seps) && |seps| <= |handles|
    ensures SortedPairs(InternalComparator(user).less, IndexEntries(seps, handles))
  {
    hide EncodedLess, Flat, Ascending, EncodeHandle;
    var less := InternalComparator(user).less;
    assert forall a: Bytes, b: Bytes :: less(a, b) == EncodedLess(user, a, b);
    forall i, j | 0 <= i < j < |seps| ensures EncodedLess(user, seps[i], seps[j]) {
      assert SeparatesAt(user, groups, i, seps[i]) && SeparatesAt(user, groups, j, seps[j]);
      var x := groups[j][|groups[j]| - 1];
      assert x in groups[j] && Separating(user, LastKey(groups[i]), seps[i], x.key);
      OrderFacts(user, seps[i], x.key, seps[j]);
    }
  }

  /** All keys of the blocks before the one found are before `k`. */
  lemma EarlierBefore(user: Comparator, groups: seq<seq<Pair>>, seps: seq<Bytes>, k: Bytes, i: nat, j: nat, x: Pair)
    requires TotalOrder(user.less) && Separated(user, groups, seps) && LowerBoundAt(user, seps, k, i) && j < i && x in groups[j]
    ensures EncodedLess(user, x.key, k)
  {
    hide EncodedLess, Flat, Ascending;
    assert SeparatesAt(user, groups, j, seps[j]);
    UpToLast(user, groups, j, x);
    OrderFacts(user, x.key, LastKey(groups[j]), seps[j]);
    OrderFacts(user, x.key, seps[j], k);
    OrderFacts(user, LastKey(groups[j]), seps[j], k);
    OrderFacts(user, x.key, LastKey(groups[j]), k);
  }

  /** If the first entry at or after `k` has its user key, it is in the one block that the index finds. */
  lemma FirstIsInBlock(user: Comparator, groups: seq<seq<Pair>>, seps: seq<Bytes>, k: Bytes, i: nat, e: Pair)
    requires TotalOrder(user.less) && Separated(user, groups, seps) && |groups| == |seps| + 1 && groups[|seps|] == [] && |k| >= 8
    requires LowerBoundAt(user, seps, k, i) && IsFirst(user, Flat(groups), k, e) && |e.key| >= 8 && UserKey(e.key) == UserKey(k)
    ensures i < |seps| && e in groups[i]
  {
    hide EncodedLess, Flat, Ascending, UserKey, Trailer;
    FlatHolds(groups, e);
    var j :| 0 <= j < |groups| && e in groups[j];
    if j < i {
      EarlierBefore(user, groups, seps, k, i, j, e);
    } else if j > i {
      assert SeparatesAt(user, groups, i, seps[i]);
      assert Separating(user, LastKey(groups[i]), seps[i], e.key);
      var last := groups[i][|groups[i]| - 1];
      assert last in groups[i];
      FlatHolds(groups, last);
      assert EncodedLess(user, last.key, k) || !EncodedLess(user, last.key, e.key);
      if seps[i] != last.key {
        UserBetween(user, k, seps[i], e.key);
      }
    }
  }

  /** What a seek in the found block stops at is the first entry at or after `k`. */
  lemma StoppedAtFirst(user: Comparator, groups: seq<seq<Pair>>, seps: seq<Bytes>, k: Bytes, i: nat, q: nat)
    requires TotalOrder(user.less) && Separated(user, groups, seps)
    requires LowerBoundAt(user, seps, k, i) && i < |seps| && q < |groups[i]|
    requires (forall p | 0 <= p < q :: EncodedLess(user, groups[i][p].key, k)) && !EncodedLess(user, groups[i][q].key, k)
    ensures IsFirst(user, Flat(groups), k, groups[i][q])
  {
    hide EncodedLess, Flat, Ascending;
    var e := groups[i][q];
    FlatHolds(groups, e);
    forall x: Pair | x in Flat(groups) ensures EncodedLess(user, x.key, k) || !EncodedLess(user, x.key, e.key) {
      FlatHolds(groups, x);
      var j :| 0 <= j < |groups| && x in groups[j];
      if j < i {
        EarlierBefore(user, groups, seps, k, i, j, x);
      } else if j == i {
        var p :| 0 <= p < |groups[i]| && groups[i][p] == x;
        GroupAscends(user, groups, i);
        if p >= q {
          NotBefore(user, groups[i], q, p);
        }
      } else {
        LaterAfter(user, groups, seps, i, j, e, x);
      }
    }
  }

  lemma LaterAfter(user: Comparator, groups: seq<seq<Pair>>, seps: seq<Bytes>, i: nat, j: nat, e: Pair, x: Pair)
    requires TotalOrder(user.less) && Separated(user, groups, seps) && i < |seps| && i < j < |groups| && e in groups[i] && x in groups[j]
    ensures !EncodedLess(user, x.key, e.key)
  {
    hide EncodedLess, Flat, Ascending;
    assert SeparatesAt(user, groups, i, seps[i]) && Separating(user, LastKey(groups[i]), seps[i], x.key);
    UpToLast(user, groups, i, e);
    OrderFacts(user, LastKey(groups[i]), seps[i], x.key);
    OrderFacts(user, e.key, LastKey(groups[i]), x.key);
    OrderFacts(user, e.key, x.key, e.key);
  }

  /** The entries of a table. */
  ghost function Entries(t: Layouts): seq<Pair> {
    Flat(t.f.blocks + [[]])
  }

  lemma TableParts(user: Comparator, crc: Bytes -> Word, file: Bytes, t: Layouts)
    requires IsTable(user, crc, file, t)
    ensures InFile(crc, file, t.f) && |t.seps| == |t.f.blocks| && Separated(user, t.f.blocks + [[]], t.seps)
    ensures |file| >= FOOTER_SIZE && DecodeFooter(file[|file| - FOOTER_SIZE..]) == Some((t.metaindexHandle, t.indexHandle))
    ensures Stored(crc, file, t.indexHandle, t.indexContents) && IsBlock(t.indexContents, IndexEntries(t.seps, t.f.handles))
  {
    hide InFile, Separated, IsBlock, EncodeFooter;
    assert Encodable(t.indexHandle);
    FooterRoundTrip(t.metaindexHandle, t.indexHandle);
  }

  /** A seek in a block that is read from the file: the first entry at or after `k`, if any. */
  method SeekBlock(user: Comparator, contents: Bytes, ghost es: seq<Pair>, k: Bytes) returns (found: Option<Pair>, ghost q: nat)
    requires TotalOrder(user.less) && IsBlock(contents, es) && SortedPairs(InternalComparator(user).less, es)
    ensures q <= |es| && found == if q < |es| then Some(es[q]) else None
    ensures LowerBoundAt(user, KeysIn(es), k, q)
  {
    hide Holds, EncodedLess, SortedPairs, TotalOrder, BlockIters.Iter.Inv;
    ghost var layout: Layout, limit: nat :| Holds(contents, limit, layout) && layout.entries == es;
    var less := InternalComparator(user).less;
    EncodedIsTotal(user);
    var iter := NewIterator(less, contents, limit, layout);
    iter.Seek(k);
    q := iter.pos;
    assert forall a: Bytes, b: Bytes :: less(a, b) == EncodedLess(user, a, b);
    BoundAt(user, es, k, q);
    iter.ValidMeans();
    found := None;
    if iter.Valid() {
      var key := iter.Key();
      var value := iter.Value();
      found := Some(Pair(key, value));
    }
  }

  ghost function KeysIn(es: seq<Pair>): (r: seq<Bytes>)
    ensures |r| == |es| && forall i | 0 <= i < |es| :: r[i] == es[i].key
  {
    seq(|es|, i requires 0 <= i < |es| => es[i].key)
  }

  lemma BoundAt(user: Comparator, es: seq<Pair>, k: Bytes, q: nat)
    requires q <= |es| && (forall j | 0 <= j < q :: EncodedLess(user, es[j].key, k))
    requires forall j | q <= j < |es| :: !EncodedLess(user, es[j].key, k)
    ensures LowerBoundAt(user, KeysIn(es), k, q)
  {
    hide EncodedLess;
  }

  /** Opening a table: the footer leads to the index block. */
  method Open(ghost user: Comparator, crc: Bytes -> Word, verifyChecksums: bool, file: Bytes, ghost t: Layouts) returns (indexContents: Bytes)
    requires IsTable(user, crc, file, t)
    ensures indexContents == t.indexContents
  {
    hide IsTable, Stored;
    TableParts(user, crc, file, t);
    var handles := DecodeFooter(file[|file| - FOOTER_SIZE..]);
    StoredReads(crc, verifyChecksums, file, t.indexHandle, t.indexContents);
    var contents := ReadBlock(crc, verifyChecksums, file, handles.value.1);
    indexContents := contents.value;
  }

  lemma IndexKeys(user: Comparator, seps: seq<Bytes>, handles: seq<BlockHandle>, k: Bytes, i: nat)
    requires |seps| <= |handles| && LowerBoundAt(user, KeysIn(IndexEntries(seps, handles)), k, i)
    ensures LowerBoundAt(user, seps, k, i)
  {
    assert KeysIn(IndexEntries(seps, handles)) == seps;
  }

  /** The first entry at or after `k`, and its user key is that of `k`. */
  ghost predicate Wanted(user: Comparator, groups: seq<seq<Pair>>, k: Bytes, e: Pair) {
    IsFirst(user, Flat(groups), k, e) && |e.key| >= 8 && |k| >= 8 && UserKey(e.key) == UserKey(k)
  }

  /** What the index finds for `k` holds the entry wanted. */
  ghost predicate Finds(user: Comparator, t: Layouts, k: Bytes, i: nat) {
    forall e: Pair | Wanted(user, t.f.blocks + [[]], k, e) :: i < |t.f.blocks| && e in t.f.blocks[i]
  }

  lemma IndexFinds(user: Comparator, t: Layouts, k: Bytes, i: nat)
    requires TotalOrder(user.less) && |t.seps| == |t.f.blocks| && Separated(user, t.f.blocks + [[]], t.seps) && |k| >= 8
    requires LowerBoundAt(user, t.seps, k, i)
    ensures Finds(user, t, k, i)
  {
    hide IsFirst, Flat, Separated, LowerBoundAt, UserKey, EncodedLess;
    var groups := t.f.blocks + [[]];
    forall e: Pair | Wanted(user, groups, k, e) ensures i < |t.f.blocks| && e in t.f.blocks[i] {
      FirstIsInBlock(user, groups, t.seps, k, i, e);
      assert groups[i] == t.f.blocks[i];
    }
  }

  lemma FoundHandle(crc: Bytes -> Word, file: Bytes, t: Layouts, i: nat)
    requires InFile(crc, file, t.f) && |t.seps| == |t.f.blocks| && i < |t.seps|
    ensures DecodeHandle(IndexEntries(t.seps, t.f.handles)[i].value) == Some(Parsed(t.f.handles[i], []))
    ensures Stored(crc, file, t.f.handles[i], t.f.contents[i]) && IsBlock(t.f.contents[i], t.f.blocks[i])
  {
    hide IsBlock, EncodeHandle, DecodeHandle;
    assert Stored(crc, file, t.f.handles[i], t.f.contents[i]);
    HandleRoundTrip(t.f.handles[i], []);
    assert EncodeHandle(t.f.handles[i]) + [] == EncodeHandle(t.f.handles[i]);
  }

  lemma FilterExcludes(user: Comparator, filter: (nat, Bytes) -> bool, t: Layouts, k: Bytes, i: nat)
    requires |t.f.blocks| == |t.f.handles| && NoFalseNegatives(filter, t) && i < |t.f.blocks| && !filter(t.f.handles[i].offset, k)
    requires Finds(user, t, k, i)
    ensures forall e: Pair :: !Wanted(user, t.f.blocks + [[]], k, e)
  {
    hide IsFirst, Flat, UserKey;
  }

  lemma BlockSorted(user: Comparator, t: Layouts, i: nat)
    requires Separated(user, t.f.blocks + [[]], t.seps) && i < |t.f.blocks|
    ensures SortedPairs(InternalComparator(user).less, t.f.blocks[i])
  {
    hide EncodedLess, Flat;
    GroupAscends(user, t.f.blocks + [[]], i);
    assert (t.f.blocks + [[]])[i] == t.f.blocks[i];
  }

  /** A seek in the block found decides. */
  lemma SeekDecides(user: Comparator, t: Layouts, k: Bytes, i: nat, q: nat)
    requires TotalOrder(user.less) && |t.seps| == |t.f.blocks| && Separated(user, t.f.blocks + [[]], t.seps) && i < |t.f.blocks|
    requires LowerBoundAt(user, t.seps, k, i) && Finds(user, t, k, i) && LowerBoundAt(user, KeysIn(t.f.blocks[i]), k, q)
    ensures q < |t.f.blocks[i]| ==> IsFirst(user, Entries(t), k, t.f.blocks[i][q])
    ensures forall e: Pair | Wanted(user, t.f.blocks + [[]], k, e) :: q < |t.f.blocks[i]| && e == t.f.blocks[i][q]
  {
    hide Flat, Ascending, SeparatesAt, UserKey, EncodedLess;
    var groups, b := t.f.blocks + [[]], t.f.blocks[i];
    assert groups[i] == b;
    var keys := KeysIn(b);
    assert forall p | 0 <= p < |b| :: keys[p] == b[p].key;
    if q < |b| {
      StoppedAtFirst(user, groups, t.seps, k, i, q);
    }
    forall e: Pair | Wanted(user, groups, k, e) ensures q < |b| && e == b[q] {
      var p :| 0 <= p < |b| && b[p] == e;
      assert !EncodedLess(user, keys[p], k);
      assert q <= p;
      SameFirst(user, groups, k, e, b[q]);
    }
  }

  lemma SameFirst(user: Comparator, groups: seq<seq<Pair>>, k: Bytes, e: Pair, d: Pair)
    requires TotalOrder(user.less) && Ascending(user, Flat(groups)) && IsFirst(user, Flat(groups), k, e) && IsFirst(user, Flat(groups), k, d)
    ensures e == d
  {
    hide EncodedLess, Flat;
    var es := Flat(groups);
    var less := InternalComparator(user).less;
    assert forall a: Bytes, b: Bytes :: less(a, b) == EncodedLess(user, a, b);
    var i :| 0 <= i < |es| && es[i] == e;
    var j :| 0 <= j < |es| && es[j] == d;
    assert i == j;
  }

  /** The probe hands the saver at most the first entry at or after the key, and does hand it that entry when
      it has the key's user key. */
  method InternalGet(
      user: Comparator, crc: Bytes -> Word, verifyChecksums: bool, file: Bytes, indexContents: Bytes, filter: Option<(nat, Bytes) -> bool>,
      k: Bytes, ghost t: Layouts)
      returns (saved: Option<Pair>)
    requires GoodComparator(user) && IsTable(user, crc, file, t) && indexContents == t.indexContents && |k| >= 8
    requires filter.Some? ==> NoFalseNegatives(filter.value, t)
    ensures saved.Some? ==> IsFirst(user, Entries(t), k, saved.value)
    ensures forall e: Pair | IsFirst(user, Entries(t), k, e) && |e.key| >= 8 && UserKey(e.key) == UserKey(k) :: saved == Some(e)
  {
    hide IsTable, InFile, Separated, IsBlock, IsFirst, EncodedLess, Flat, LowerBoundAt, NoFalseNegatives, EncodeHandle, DecodeHandle;
    hide SortedPairs, GoodComparator, UserKey, IndexEntries, Stored, TotalOrder, Ascending, Wanted, Finds;
    OrderOf(user);
    TableParts(user, crc, file, t);
    SeparatorsAscend(user, t.f.blocks + [[]], t.seps, t.f.handles);
    ghost var i, q;
    var entry;
    entry, i := SeekBlock(user, indexContents, IndexEntries(t.seps, t.f.handles), k);
    IndexKeys(user, t.seps, t.f.handles, k, i);
    IndexFinds(user, t, k, i);
    NoneWanted(user, t, k, i);
    IsWanted(user, t, k);
    saved := None;
    if entry.Some? {
      IndexCount(t.seps, t.f.handles);
      FoundHandle(crc, file, t, i);
      var handle := DecodeHandle(entry.value.value);
      if filter.Some? && handle.Some? && !filter.value(handle.value.value.offset, k) {
        FilterExcludes(user, filter.value, t, k, i);
      } else {
        StoredReads(crc, verifyChecksums, file, t.f.handles[i], t.f.contents[i]);
        var contents := ReadBlock(crc, verifyChecksums, file, handle.value.value);
        BlockSorted(user, t, i);
        saved, q := SeekBlock(user, contents.value, t.f.blocks[i], k);
        SeekDecides(user, t, k, i, q);
      }
    }
  }

  lemma NoneWanted(user: Comparator, t: Layouts, k: Bytes, i: nat)
    requires Finds(user, t, k, i)
    ensures i >= |t.f.blocks| ==> forall e: Pair :: !Wanted(user, t.f.blocks + [[]], k, e)
  {
    hide Wanted;
  }

  lemma IsWanted(user: Comparator, t: Layouts, k: Bytes)
    requires |k| >= 8
    ensures forall e: Pair | IsFirst(user, Entries(t), k, e) && |e.key| >= 8 && UserKey(e.key) == UserKey(k) :: Wanted(user, t.f.blocks + [[]], k, e)
  {
    hide IsFirst;
  }

  lemma IndexCount(seps: seq<Bytes>, handles: seq<BlockHandle>)
    requires |seps| <= |handles|
    ensures |IndexEntries(seps, handles)| == |seps|
  {
  }
}
