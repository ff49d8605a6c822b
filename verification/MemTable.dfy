/** The memtable (db/memtable.cc): a skip list of encoded entries, each with its key and value prefixed by
    their lengths, and the lookup key that finds them (db/dbformat.cc). */
module MemTables {
  import opened Keys
  import opened Coding
  import opened Comparators
  import opened Cursors
  import opened SkipLists
  import opened SkipListRuns
  import opened VersionGet

  /** What the memtable may be given: a value or a deletion whose key and value have 32-bit lengths. */
  predicate Storable(e: Entry<Bytes, Bytes>) {
    && e.key.typ <= TYPE_VALUE && e.key.seqno <= MAX_SEQUENCE && |e.key.user| + 8 < TWO_32 && |e.value| < TWO_32
  }

  function EntryBytes(e: Entry<Bytes, Bytes>): Bytes {
    LengthPrefixed(Encoded(e.key)) + LengthPrefixed(e.value)
  }

  /** The internal key in an entry or a lookup key. */
  function MemKey(buf: Bytes): Bytes {
    match GetLengthPrefixedSlice(buf)
    case None => []
    case Some(p) => p.value
  }

  /** KeyComparator. */
  function MemLess(user: Comparator): (Bytes, Bytes) -> bool {
    (a: Bytes, b: Bytes) => EncodedLess(user, MemKey(a), MemKey(b))
  }

  /** An order by keys that are in a total order. */
  lemma OrderByKey(less: (Bytes, Bytes) -> bool, lt: (Bytes, Bytes) -> bool)
    requires TotalOrder(less) && forall a, b :: lt(a, b) == less(MemKey(a), MemKey(b))
    ensures WeakOrder(lt)
  {
    hide MemKey;
    forall a, b, c: Bytes | lt(a, c) ensures lt(a, b) || lt(b, c) {
      var x, y, z := MemKey(a), MemKey(b), MemKey(c);
      assert less(x, y) || less(y, x) || x == y;
    }
  }

  lemma MemLessIsWeak(user: Comparator)
    requires TotalOrder(user.less)
    ensures WeakOrder(MemLess(user))
  {
    hide EncodedLess, MemKey;
    EncodedIsTotal(user);
    OrderByKey(InternalComparator(user).less, MemLess(user));
  }

  lemma TagFits(key: InternalKey<Bytes>)
    requires key.seqno <= MAX_SEQUENCE
    ensures key.Tag() < TWO_64 && key.Tag() % 256 == key.typ
  {
  }

  /** An entry is read back: its key, and behind it its value. */
  lemma EntryReads(e: Entry<Bytes, Bytes>)
    requires Storable(e)
    ensures var buf, key := EntryBytes(e), Encoded(e.key);
      && GetVarint32(buf) == Some(Parsed(|key|, key + LengthPrefixed(e.value)))
      && MemKey(buf) == key && |key| == |e.key.user| + 8
      && GetLengthPrefixedSlice(LengthPrefixed(e.value)) == Some(Parsed(e.value, []))
  {
    hide Varint, EncodeFixed64, GetVarint32;
    var key := Encoded(e.key);
    LengthPrefixedRoundTrip(key, LengthPrefixed(e.value));
    assert EntryBytes(e) == Varint(|key|) + (key + LengthPrefixed(e.value));
    Varint32RoundTrip(|key|, key + LengthPrefixed(e.value));
    assert LengthPrefixed(e.value) + [] == LengthPrefixed(e.value);
    LengthPrefixedRoundTrip(e.value, []);
  }

  /** The comparator orders entries by their internal keys. */
  lemma EntryOrder(user: Comparator, a: Entry<Bytes, Bytes>, b: Entry<Bytes, Bytes>)
    requires Storable(a) && Storable(b)
    ensures MemLess(user)(EntryBytes(a), EntryBytes(b)) <==> InternalLess(user.less, a.key, b.key)
  {
    hide EncodedLess, EntryBytes, MemKey, InternalLess;
    EntryReads(a);
    EntryReads(b);
    TagFits(a.key);
    TagFits(b.key);
    EncodedOrder(user, a.key, b.key);
  }

  lemma TargetReads(key: InternalKey<Bytes>)
    requires |key.user| + 8 < TWO_32
    ensures MemKey(LengthPrefixed(Encoded(key))) == Encoded(key)
  {
    assert LengthPrefixed(Encoded(key)) + [] == LengthPrefixed(Encoded(key));
    LengthPrefixedRoundTrip(Encoded(key), []);
  }

  /** Against a lookup key. */
  lemma TargetOrder(user: Comparator, a: Entry<Bytes, Bytes>, key: InternalKey<Bytes>)
    requires Storable(a) && key.seqno <= MAX_SEQUENCE && |key.user| + 8 < TWO_32
    ensures MemLess(user)(EntryBytes(a), LengthPrefixed(Encoded(key))) <==> InternalLess(user.less, a.key, key)
  {
    hide EncodedLess, EntryBytes, InternalLess, MemKey, LengthPrefixed, Encoded;
    EntryReads(a);
    TagFits(a.key);
    TagFits(key);
    EncodedOrder(user, a.key, key);
    TargetReads(key);
  }

  /** The keys of the table are the entries, encoded. */
  ghost predicate Holds(keys: seq<Bytes>, entries: seq<Entry<Bytes, Bytes>>)
    ensures Holds(keys, entries) ==> |keys| == |entries|
  {
    |keys| == |entries| && forall i | 0 <= i < |entries| :: Storable(entries[i]) && keys[i] == EntryBytes(entries[i])
  }

  lemma HoldsAt(keys: seq<Bytes>, entries: seq<Entry<Bytes, Bytes>>, i: nat)
    requires Holds(keys, entries) && i < |entries|
    ensures Storable(entries[i]) && keys[i] == EntryBytes(entries[i])
  {
  }

  lemma HoldsMore(keys: seq<Bytes>, entries: seq<Entry<Bytes, Bytes>>, p: nat, e: Entry<Bytes, Bytes>)
    requires Holds(keys, entries) && Storable(e) && p <= |keys|
    ensures Holds(keys[..p] + [EntryBytes(e)] + keys[p..], entries[..p] + [e] + entries[p..])
  {
    hide EntryBytes;
  }

  /** The bytes that are written for an entry. */
  lemma EntryWritten(e: Entry<Bytes, Bytes>)
    requires Storable(e)
    ensures EntryBytes(e) == Varint(|e.key.user| + 8) + (e.key.user + EncodeFixed64(e.key.seqno * 256 + e.key.typ)) + (Varint(|e.value|) + e.value)
  {
    hide Varint, EncodeFixed64;
  }

  /** A key unlike those of all entries is unlike them for the table. */
  lemma NewKey(user: Comparator, keys: seq<Bytes>, entries: seq<Entry<Bytes, Bytes>>, e: Entry<Bytes, Bytes>)
    requires TotalOrder(user.less) && Holds(keys, entries) && Storable(e) && forall f | f in entries :: f.key != e.key
    ensures forall k | k in keys :: !Same(MemLess(user), k, EntryBytes(e))
  {
    hide EntryBytes, MemLess, Holds, TotalOrder;
    forall k | k in keys ensures !Same(MemLess(user), k, EntryBytes(e)) {
      var i :| 0 <= i < |entries| && keys[i] == k;
      HoldsAt(keys, entries, i);
      EntryOrder(user, entries[i], e);
      EntryOrder(user, e, entries[i]);
      Comparable(user.less, entries[i].key, e.key);
    }
  }

  lemma Comparable(less: (Bytes, Bytes) -> bool, a: InternalKey<Bytes>, b: InternalKey<Bytes>)
    requires TotalOrder(less) && a != b
    ensures InternalLess(less, a, b) || InternalLess(less, b, a)
  {
  }

  /** The order of the table's keys is that of the entries. */
  lemma EntriesAscend(user: Comparator, keys: seq<Bytes>, entries: seq<Entry<Bytes, Bytes>>)
    requires Holds(keys, entries) && forall i, j | 0 <= i < j < |keys| :: MemLess(user)(keys[i], keys[j])
    ensures Sorted(user.less, entries)
  {
    hide EntryBytes, InternalLess, MemLess, Holds;
    forall i, j | 0 <= i < j < |entries| ensures InternalLess(user.less, entries[i].key, entries[j].key) {
      HoldsAt(keys, entries, i);
      HoldsAt(keys, entries, j);
      assert MemLess(user)(keys[i], keys[j]);
      EntryOrder(user, entries[i], entries[j]);
    }
  }

  /** Where a search for a lookup key ends. */
  lemma SeekBound(user: Comparator, keys: seq<Bytes>, entries: seq<Entry<Bytes, Bytes>>, key: InternalKey<Bytes>, pos: nat)
    requires Holds(keys, entries) && key.seqno <= MAX_SEQUENCE && |key.user| + 8 < TWO_32 && pos <= |entries|
    requires forall i | 0 <= i < pos :: MemLess(user)(keys[i], LengthPrefixed(Encoded(key)))
    requires forall i | pos <= i < |entries| :: !MemLess(user)(keys[i], LengthPrefixed(Encoded(key)))
    ensures LowerBound(user.less, entries, key, pos)
  {
    hide EntryBytes, LengthPrefixed, InternalLess, MemLess, Holds, Encoded;
    forall i | 0 <= i < |entries| ensures InternalLess(user.less, entries[i].key, key) <==> i < pos {
      HoldsAt(keys, entries, i);
      assert MemLess(user)(keys[i], LengthPrefixed(Encoded(key))) <==> i < pos;
      TargetOrder(user, entries[i], key);
    }
  }

  /** The entry where a search ends answers the read, if it has the user key. */
  lemma SearchAnswers(user: Comparator, keys: seq<Bytes>, entries: seq<Entry<Bytes, Bytes>>, userKey: Bytes, snapshot: nat, pos: nat)
    requires Holds(keys, entries) && snapshot <= MAX_SEQUENCE && |userKey| + 8 < TWO_32 && pos <= |entries|
    requires TotalOrder(user.less) && Sorted(user.less, entries)
    requires forall i | 0 <= i < pos :: MemLess(user)(keys[i], LengthPrefixed(Encoded(InternalKey(userKey, snapshot, TYPE_VALUE))))
    requires forall i | pos <= i < |entries| :: !MemLess(user)(keys[i], LengthPrefixed(Encoded(InternalKey(userKey, snapshot, TYPE_VALUE))))
    ensures Answer(Elements(entries), userKey, snapshot, if pos < |entries| && entries[pos].key.user == userKey then Some(entries[pos]) else None)
  {
    hide TotalOrder, Sorted, Answer, LowerBound, MemLess, LengthPrefixed, Encoded, EntryBytes, Holds;
    SeekBound(user, keys, entries, InternalKey(userKey, snapshot, TYPE_VALUE), pos);
    forall j: nat | j < |entries| ensures entries[j].key.typ <= TYPE_VALUE {
      HoldsAt(keys, entries, j);
    }
    FirstIsAnswer(user.less, entries, userKey, snapshot, pos);
  }

  /** LookupKey: the least key of the user key that a read at `snapshot` may use. */
  method LookupKey(userKey: Bytes, snapshot: nat) returns (memtableKey: Bytes)
    requires |userKey| + 8 < TWO_32
    ensures memtableKey == LengthPrefixed(Encoded(InternalKey(userKey, snapshot, TYPE_VALUE)))
  {
    var size := EncodeVarint32(|userKey| + 8);
    memtableKey := size + (userKey + EncodeFixed64(snapshot * 256 + TYPE_VALUE));
  }

  class MemTable {
    const user: Comparator
    const table: SkipList<Bytes>
    // The entries in key order.
    ghost var entries: seq<Entry<Bytes, Bytes>>

    constructor (user: Comparator)
      requires TotalOrder(user.less)
      ensures Valid() && fresh(table) && this.user == user && entries == []
    {
      MemLessIsWeak(user);
      this.user, entries := user, [];
      table := new SkipList(MemLess(user), []);
    }

    ghost predicate Valid()
      reads this, table
      ensures Valid() ==> table.Valid() && TotalOrder(user.less) && table.lt == MemLess(user) && Holds(table.Keys(), entries)
    {
      TotalOrder(user.less) && table.Valid() && table.lt == MemLess(user) && Holds(table.Keys(), entries)
    }

    lemma EntriesAreSorted()
      requires Valid()
      ensures Sorted(user.less, entries)
    {
      hide MemLess, Holds, TotalOrder, Sorted;
      table.KeysAscend();
      EntriesAscend(user, table.Keys(), entries);
    }

    /** Adds an entry whose internal key is new; `height` is what the skip list draws for it. */
    method Add(s: nat, typ: Byte, key: Bytes, value: Bytes, height: nat)
      requires Valid() && Storable(Entry(InternalKey(key, s, typ), value)) && 0 < height <= MAX_HEIGHT
      requires forall e | e in entries :: e.key != InternalKey(key, s, typ)
      modifies this, table
      ensures Valid()
      ensures var e := Entry(InternalKey(key, s, typ), value);
        (exists p | 0 <= p <= |old(entries)| :: entries == old(entries)[..p] + [e] + old(entries)[p..])
        && Elements(entries) == old(Elements(entries)) + {e}
    {
      hide EntryBytes, TotalOrder, Holds, MemLess, Varint, EncodeFixed64, Same, SkipList.Valid, SkipList.Keys;
      var keySize, valueSize := |key|, |value|;
      var internalKeySize := keySize + 8;
      var length := VarintLength(internalKeySize);
      var valueLength := VarintLength(valueSize);
      var encodedLen := length + internalKeySize + valueLength + valueSize;
      var buf := EncodeVarint32(internalKeySize);
      buf := buf + (key + EncodeFixed64(s * 256 + typ));
      var size := EncodeVarint32(valueSize);
      buf := buf + (size + value);
      ghost var e := Entry(InternalKey(key, s, typ), value);
      EntryWritten(e);
      assert |buf| == encodedLen;
      ghost var keys := table.Keys();
      NewKey(user, keys, entries, e);
      table.Insert(buf, height);
      ghost var p :| 0 <= p <= |keys| && table.Keys() == keys[..p] + [buf] + keys[p..];
      HoldsMore(keys, entries, p, e);
      OneMore(entries, p, e);
      entries := entries[..p] + [e] + entries[p..];
    }

    /** Adds entries one after another. */
    method AddAll(adds: seq<Entry<Bytes, Bytes>>, heights: nat -> nat)
      requires Valid() && (forall i :: 0 < heights(i) <= MAX_HEIGHT) && forall e | e in adds :: Storable(e)
      requires forall i, j | 0 <= i < j < |adds| :: adds[i].key != adds[j].key
      requires forall e, d | e in Elements(entries) && d in adds :: e.key != d.key
      modifies this, table
      ensures Valid() && Elements(entries) == old(Elements(entries)) + Elements(adds)
    {
      hide Storable, Valid;
      ghost var before := Elements(entries);
      assert before + Elements(adds[..0]) == before;
      for i := 0 to |adds|
        invariant Valid() && Elements(entries) == before + Elements(adds[..i])
      {
        var e := adds[i];
        KeyIsNew(before, adds, i, entries);
        Add(e.key.seqno, e.key.typ, e.key.user, e.value, heights(i));
        FirstOnes(adds, i);
      }
      assert adds[..|adds|] == adds;
    }

    /** The newest entry that the read may use answers it. */
    method Get(userKey: Bytes, snapshot: nat) returns (state: SaverState<Bytes>, ghost r: Option<Entry<Bytes, Bytes>>)
      requires Valid() && |userKey| + 8 < TWO_32 && snapshot <= MAX_SEQUENCE
      ensures Answer(Elements(entries), userKey, snapshot, r) && States(state, r)
    {
      hide EntryBytes, Encoded, TotalOrder, Sorted, Answer, LowerBound, MemLess, LengthPrefixed, Holds;
      var memkey := LookupKey(userKey, snapshot);
      var iter := new Iterator(table);
      iter.Seek(memkey);
      EntriesAreSorted();
      SearchAnswers(user, table.Keys(), entries, userKey, snapshot, iter.pos);
      state, r := NotFound, None;
      if iter.Valid() {
        var entry := iter.Key();
        HoldsAt(table.Keys(), entries, iter.pos);
        state := ReadEntry(entry, userKey, entries[iter.pos]);
        r := if entries[iter.pos].key.user == userKey then Some(entries[iter.pos]) else None;
      }
    }

    /** The part of Get that takes apart the entry found. */
    static method ReadEntry(entry: Bytes, userKey: Bytes, ghost e: Entry<Bytes, Bytes>) returns (state: SaverState<Bytes>)
      requires Storable(e) && entry == EntryBytes(e)
      ensures States(state, if e.key.user == userKey then Some(e) else None)
    {
      hide EntryBytes, Encoded, GetVarint32, GetLengthPrefixedSlice, LengthPrefixed;
      state := NotFound;
      EntryReads(e);
      TagFits(e.key);
      EncodedParts(e.key);
      var length := GetVarintPtr(entry, 5, TWO_32);
      if length == None {
        // Entries hold their lengths.
        assert false;
      }
      var key, rest := length.value.rest[..length.value.value], length.value.rest[length.value.value..];
      assert key == Encoded(e.key) && rest == LengthPrefixed(e.value);
      if UserKey(key) == userKey {
        var tag := Trailer(key);
        if tag % 256 == TYPE_VALUE {
          var value := GetLengthPrefixedSlice(rest);
          state := SaverState.Found(value.value.value);
        } else if tag % 256 == TYPE_DELETION {
          state := Deleted;
        }
      }
    }
  }

  lemma KeyIsNew(before: set<Entry<Bytes, Bytes>>, adds: seq<Entry<Bytes, Bytes>>, i: nat, entries: seq<Entry<Bytes, Bytes>>)
    requires i < |adds| && Elements(entries) == before + Elements(adds[..i])
    requires forall i, j | 0 <= i < j < |adds| :: adds[i].key != adds[j].key
    requires forall e, d | e in before && d in adds :: e.key != d.key
    ensures forall d | d in entries :: d.key != adds[i].key
    ensures adds[i] in adds && Entry(InternalKey(adds[i].key.user, adds[i].key.seqno, adds[i].key.typ), adds[i].value) == adds[i]
  {
    forall d | d in entries ensures d.key != adds[i].key {
      assert d in Elements(entries);
    }
  }

  lemma FirstOnes<T(!new)>(s: seq<T>, i: nat)
    requires i < |s|
    ensures Elements(s[..i + 1]) == Elements(s[..i]) + {s[i]}
  {
    assert s[..i + 1] == s[..i] + [s[i]];
  }

  lemma OneMore<T(!new)>(s: seq<T>, p: nat, x: T)
    requires p <= |s|
    ensures Elements(s[..p] + [x] + s[p..]) == Elements(s) + {x}
  {
    assert s == s[..p] + s[p..];
  }

  /** The iterator of the memtable moves over its entries. */
  class MemTableIterator {
    const mem: MemTable
    const iter: Iterator<Bytes>

    constructor (mem: MemTable)
      requires mem.Valid()
      ensures Inv() && fresh(iter) && this.mem == mem && iter.pos == |mem.entries|
    {
      this.mem := mem;
      iter := new Iterator(mem.table);
    }

    ghost predicate Inv()
      reads this, mem, mem.table, iter
    {
      mem.Valid() && iter.list == mem.table && iter.Inv()
    }

    predicate Valid()
      reads iter
    {
      iter.Valid()
    }

    method Seek(key: InternalKey<Bytes>)
      requires Inv() && key.seqno <= MAX_SEQUENCE && |key.user| + 8 < TWO_32
      modifies iter
      ensures Inv() && LowerBound(mem.user.less, mem.entries, key, iter.pos)
    {
      hide LowerBound, TotalOrder, EntryBytes, MemLess, Holds;
      var size := EncodeVarint32(|Encoded(key)|);
      iter.Seek(size + Encoded(key));
      SeekBound(mem.user, mem.table.Keys(), mem.entries, key, iter.pos);
    }

    method SeekToFirst()
      requires Inv()
      modifies iter
      ensures Inv() && iter.pos == 0
    {
      iter.SeekToFirst();
    }

    method SeekToLast()
      requires Inv()
      modifies iter
      ensures Inv() && iter.pos == if |mem.entries| == 0 then 0 else |mem.entries| - 1
    {
      iter.SeekToLast();
    }

    method Next()
      requires Inv() && Valid()
      modifies iter
      ensures Inv() && iter.pos == old(iter.pos) + 1
    {
      iter.Next();
    }

    method Prev()
      requires Inv() && Valid()
      modifies iter
      ensures Inv() && iter.pos == if old(iter.pos) == 0 then |mem.entries| else old(iter.pos) - 1
    {
      iter.Prev();
    }

    method Key() returns (key: Bytes)
      requires Inv() && Valid()
      ensures iter.pos < |mem.entries| && key == Encoded(mem.entries[iter.pos].key)
    {
      hide EntryBytes, Encoded;
      var entry := iter.Key();
      HoldsAt(mem.table.Keys(), mem.entries, iter.pos);
      EntryReads(mem.entries[iter.pos]);
      key := MemKey(entry);
    }

    method Value() returns (value: Bytes)
      requires Inv() && Valid()
      ensures iter.pos < |mem.entries| && value == mem.entries[iter.pos].value
    {
      hide EntryBytes, Encoded, GetVarint32;
      var entry := iter.Key();
      HoldsAt(mem.table.Keys(), mem.entries, iter.pos);
      EntryReads(mem.entries[iter.pos]);
      var p := GetLengthPrefixedSlice(entry);
      var q := GetLengthPrefixedSlice(p.value.rest);
      value := q.value.value;
    }
  }
}
