/** Compaction (db/db_impl.cc, DoCompactionWork; db/version_set.cc, IsBaseLevelForKey and ShouldStopBefore). */
module Compactions {
  import opened Keys
  import opened Tables
  import opened OutputCuts
  import opened Merger

  /** The user key lies within the file's bounds. */
  predicate Covers<K, V>(lt: (K, K) -> bool, f: File<K, V>, user: K)
  {
    !lt(user, f.smallest.user) && !lt(f.largest.user, user)
  }

  /** No file two or more levels below `level` covers the user key. */
  ghost predicate BaseLevel<K(!new), V(!new)>(lt: (K, K) -> bool, v: Version<K, V>, level: nat, user: K)
    requires |v.levels| == NUM_LEVELS
  {
    forall l, f | level + 2 <= l < NUM_LEVELS && f in v.levels[l] :: !Covers(lt, f, user)
  }

  class Compaction<K(==, !new), V(!new)> {
    const lt: (K, K) -> bool
    const level: nat
    const version: Version<K, V>
    const grandparents: seq<File<K, V>>
    const maxGrandParentOverlapBytes: nat
    var levelPtrs: seq<nat>
    var grandparentIndex: nat
    var seenKey: bool
    var overlappedBytes: nat
    // The last user key that IsBaseLevelForKey was asked about, and all keys that ShouldStopBefore was.
    ghost var asked: Option<K>
    ghost var keys: seq<InternalKey<K>>

    constructor (lt: (K, K) -> bool, version: Version<K, V>, level: nat, grandparents: seq<File<K, V>>, maxGrandParentOverlapBytes: nat)
      requires TotalOrder(lt) && ValidVersion(lt, version) && level + 1 < NUM_LEVELS
      ensures Inv() && asked == None && keys == [] && this.lt == lt && this.version == version && this.level == level
      ensures this.grandparents == grandparents && this.maxGrandParentOverlapBytes == maxGrandParentOverlapBytes
    {
      this.lt, this.version, this.level := lt, version, level;
      this.grandparents, this.maxGrandParentOverlapBytes := grandparents, maxGrandParentOverlapBytes;
      levelPtrs := seq(NUM_LEVELS, l => 0);
      grandparentIndex, seenKey, overlappedBytes := 0, false, 0;
      asked, keys := None, [];
    }

    ghost predicate Inv()
      reads this
      ensures Inv() ==> TotalOrder(lt) && ValidVersion(lt, version)
    {
      && TotalOrder(lt) && ValidVersion(lt, version) && |levelPtrs| == NUM_LEVELS && level + 1 < NUM_LEVELS
      && (forall l | 0 <= l < NUM_LEVELS :: levelPtrs[l] <= |version.levels[l]|)
      && (asked == None ==> forall l | level + 2 <= l < NUM_LEVELS :: levelPtrs[l] == 0)
      && (asked.Some? ==> forall l | level + 2 <= l < NUM_LEVELS :: Passed(version.levels[l], levelPtrs[l], asked.value))
      && Swept(lt, grandparents, maxGrandParentOverlapBytes, keys, grandparentIndex, seenKey, overlappedBytes)
    }

    /** The first `n` files end before the user key. */
    ghost predicate Passed(files: seq<File<K, V>>, n: nat, user: K) {
      n <= |files| && forall i | 0 <= i < n :: lt(files[i].largest.user, user)
    }

    lemma PassedStill(files: seq<File<K, V>>, n: nat, user: K, next: K)
      requires TotalOrder(lt) && Passed(files, n, user) && !lt(next, user)
      ensures Passed(files, n, next)
    {
    }

    /** The sweep answers as a search of all deeper files would, as long as keys ascend. */
    method IsBaseLevelForKey(userKey: K) returns (base: bool)
      requires Inv() && (asked.Some? ==> !lt(userKey, asked.value))
      modifies this`levelPtrs, this`asked
      ensures Inv() && asked == Some(userKey)
      ensures base <==> BaseLevel(lt, version, level, userKey)
    {
      hide ValidVersion, TotalOrder, Swept;
      if asked.Some? {
        forall l | level + 2 <= l < NUM_LEVELS ensures Passed(version.levels[l], levelPtrs[l], userKey) {
          PassedStill(version.levels[l], levelPtrs[l], asked.value, userKey);
        }
      }
      asked := Some(userKey);
      for l := level + 2 to NUM_LEVELS
        invariant Inv() && asked == Some(userKey)
        invariant forall m, f | level + 2 <= m < l && f in version.levels[m] :: !Covers(lt, f, userKey)
      {
        var files := version.levels[l];
        while levelPtrs[l] < |files|
          invariant Inv() && asked == Some(userKey)
          decreases |files| - levelPtrs[l]
        {
          var f := files[levelPtrs[l]];
          assert f in files;
          if !lt(f.largest.user, userKey) {
            if !lt(userKey, f.smallest.user) {
              assert Covers(lt, f, userKey);
              return false;
            }
            break;
          }
          assert Passed(files, levelPtrs[l] + 1, userKey);
          levelPtrs := levelPtrs[l := levelPtrs[l] + 1];
        }
        LevelIsValid(lt, version, l);
        NoneCovers(lt, files, levelPtrs[l], userKey);
      }
      return true;
    }

    /** Passes the grandparents that end before the key, and says whether to stop before it. */
    method ShouldStopBefore(internalKey: InternalKey<K>) returns (stop: bool)
      requires Inv()
      modifies this`grandparentIndex, this`seenKey, this`overlappedBytes, this`keys
      ensures Inv() && keys == old(keys) + [internalKey]
      ensures stop == Stops(lt, grandparents, maxGrandParentOverlapBytes, keys)
    {
      hide ValidVersion, TotalOrder, Passed, Swept, Stops, Advance, TotalFileSize, GrandParentIndex, OverlappedBytes, InternalLess;
      ghost var before, start := overlappedBytes, grandparentIndex;
      SweptMeans(lt, grandparents, maxGrandParentOverlapBytes, keys, grandparentIndex, seenKey, overlappedBytes);
      NoBytes<K, V>();
      assert grandparents[start..start] == [];
      while grandparentIndex < |grandparents| && InternalLess(lt, grandparents[grandparentIndex].largest, internalKey)
        invariant start <= grandparentIndex <= |grandparents| && seenKey == old(seenKey) && keys == old(keys)
        invariant Advance(lt, grandparents, grandparentIndex, internalKey) == Advance(lt, grandparents, start, internalKey)
        invariant overlappedBytes == before + if seenKey then TotalFileSize(grandparents[start..grandparentIndex]) else 0
        decreases |grandparents| - grandparentIndex
      {
        OnePassed(lt, grandparents, start, grandparentIndex, internalKey);
        if seenKey {
          overlappedBytes := overlappedBytes + grandparents[grandparentIndex].size;
        }
        grandparentIndex := grandparentIndex + 1;
      }
      OnePassed(lt, grandparents, start, grandparentIndex, internalKey);
      SweptStep(lt, grandparents, maxGrandParentOverlapBytes, keys, start, seenKey, before, internalKey, grandparentIndex, overlappedBytes);
      seenKey := true;
      keys := keys + [internalKey];
      if overlappedBytes > maxGrandParentOverlapBytes {
        overlappedBytes := 0;
        return true;
      } else {
        return false;
      }
    }
  }

  /** In a sorted level, a key between two neighbouring files is covered by none. */
  lemma NoneCovers<K(!new), V(!new)>(lt: (K, K) -> bool, files: seq<File<K, V>>, p: nat, user: K)
    requires TotalOrder(lt) && (forall f | f in files :: WellFormed(lt, f)) && SortedDisjoint(lt, files) && p <= |files|
    requires forall i | 0 <= i < p :: lt(files[i].largest.user, user)
    requires p < |files| ==> lt(user, files[p].smallest.user)
    ensures forall f | f in files :: !Covers(lt, f, user)
  {
    forall f | f in files ensures !Covers(lt, f, user) {
      var j :| 0 <= j < |files| && files[j] == f;
      if j > p {
        WithinBounds(lt, files[p], files[p].entries[0]);
        assert InternalLess(lt, files[p].largest, f.smallest);
      }
    }
  }

  /** What the compaction loop leaves out: an entry whose predecessor has the same user key and is itself at
      or below the smallest snapshot, and a deletion at or below it when nothing deeper holds the key. */
  ghost predicate Dropped<K(!new), V(!new)>(
      lt: (K, K) -> bool, v: Version<K, V>, level: nat, es: seq<Entry<K, V>>, smallestSnapshot: nat, i: nat)
    requires |v.levels| == NUM_LEVELS && i < |es|
  {
    var key := es[i].key;
    && key.typ <= TYPE_VALUE
    && (|| (0 < i && es[i - 1].key.typ <= TYPE_VALUE && es[i - 1].key.user == key.user && es[i - 1].key.seqno <= smallestSnapshot)
        || (key.typ == TYPE_DELETION && key.seqno <= smallestSnapshot && BaseLevel(lt, v, level, key.user)))
  }

  /** The entries kept of the first `n`. */
  ghost function Kept<K(!new), V(!new)>(
      lt: (K, K) -> bool, v: Version<K, V>, level: nat, es: seq<Entry<K, V>>, smallestSnapshot: nat, n: nat): seq<Entry<K, V>>
    requires |v.levels| == NUM_LEVELS && n <= |es|
  {
    if n == 0 then []
    else Kept(lt, v, level, es, smallestSnapshot, n - 1)
         + if Dropped(lt, v, level, es, smallestSnapshot, n - 1) then [] else [es[n - 1]]
  }

  /** The finished files and the one being built hold exactly `kept`. */
  ghost predicate Written<K(!new), V(!new)>(files: seq<File<K, V>>, first: nat, builder: Option<seq<Entry<K, V>>>, kept: seq<Entry<K, V>>)
    ensures Written(files, first, builder, kept) ==> builder.Some? ==> builder.value != []
    ensures Written(files, first, builder, kept) && builder == None ==> Built(files, first) && Flatten(files) == kept
  {
    && Built(files, first) && (builder.Some? ==> builder.value != [])
    && kept == if builder.Some? then Flatten(files) + builder.value else Flatten(files)
  }

  lemma WrittenAppend<K(!new), V(!new)>(
      files: seq<File<K, V>>, first: nat, builder: Option<seq<Entry<K, V>>>, kept: seq<Entry<K, V>>, e: Entry<K, V>)
    requires Written(files, first, builder, kept)
    ensures Written(files, first, Some(Grown(builder, e)), kept + [e])
  {
  }

  method FinishOutput<K(!new), V(!new)>(outputs: seq<File<K, V>>, first: nat, size: nat, entries: seq<Entry<K, V>>, ghost kept: seq<Entry<K, V>>)
      returns (r: seq<File<K, V>>)
    requires Written(outputs, first, Some(entries), kept)
    ensures Written(r, first, None, kept) && r == outputs + [BuildTable(first + |outputs|, size, entries)]
  {
    r := outputs + [BuildTable(first + |outputs|, size, entries)];
    assert r[..|r| - 1] == outputs;
  }

  /** A kept entry goes into the output, which is finished if it is big enough. */
  method AddEntry<K(!new), V(!new)>(
      ghost lt: (K, K) -> bool, ghost es: seq<Entry<K, V>>, ghost stops: seq<bool>, ghost n: nat, outputs: seq<File<K, V>>, first: nat,
      builder: Option<seq<Entry<K, V>>>, e: Entry<K, V>, fileSize: seq<Entry<K, V>> -> nat, maxOutputFileSize: nat, ghost kept: seq<Entry<K, V>>)
      returns (outputs': seq<File<K, V>>, builder': Option<seq<Entry<K, V>>>)
    requires TotalOrder(lt) && Sorted(lt, es) && |stops| == |es| && n < |es| && e == es[n]
    requires Written(outputs, first, builder, kept) && Cutting(lt, es, stops, fileSize, maxOutputFileSize, n, n + 1, outputs, builder)
    ensures Written(outputs', first, builder', kept + [e])
    ensures Cutting(lt, es, stops, fileSize, maxOutputFileSize, n + 1, n + 1, outputs', builder')
  {
    hide Written, Cutting, TotalOrder, Sorted;
    EntryKept(lt, es, stops, fileSize, maxOutputFileSize, n, outputs, builder, first + |outputs|);
    WrittenAppend(outputs, first, builder, kept, e);
    outputs', builder' := outputs, Some(Grown(builder, e));
    if fileSize(builder'.value) >= maxOutputFileSize {
      outputs' := FinishOutput(outputs, first, fileSize(builder'.value), builder'.value, kept + [e]);
      builder' := None;
    }
  }

  /** The loop's variables after `n` entries: the user key of the last one and its sequence number, or no
      key when that one did not parse. */
  ghost predicate Tracks<K(!new), V(!new)>(es: seq<Entry<K, V>>, n: nat, current: Option<K>, last: nat)
    requires n <= |es|
  {
    if n == 0 || es[n - 1].key.typ > TYPE_VALUE then current == None
    else current == Some(es[n - 1].key.user) && last == es[n - 1].key.seqno
  }

  /** The loop's test decides Dropped. */
  lemma DropDecision<K(!new), V(!new)>(
      lt: (K, K) -> bool, v: Version<K, V>, level: nat, es: seq<Entry<K, V>>, smallestSnapshot: nat, n: nat, current: Option<K>, last: nat)
    requires ValidVersion(lt, v) && n < |es| && Tracks(es, n, current, last) && smallestSnapshot < MAX_SEQUENCE
    ensures Tracks(es, n + 1, if es[n].key.typ > TYPE_VALUE then None else Some(es[n].key.user),
      if es[n].key.typ > TYPE_VALUE then MAX_SEQUENCE else es[n].key.seqno)
    ensures var key := es[n].key;
      var last' := if current != Some(key.user) then MAX_SEQUENCE else last;
      Dropped(lt, v, level, es, smallestSnapshot, n) <==>
        key.typ <= TYPE_VALUE &&
        (last' <= smallestSnapshot ||
         (key.typ == TYPE_DELETION && key.seqno <= smallestSnapshot && BaseLevel(lt, v, level, key.user)))
  {
  }

  /** Every entry passed is at or after the last key asked about. */
  ghost predicate AskedBefore<K(!new), V(!new)>(lt: (K, K) -> bool, es: seq<Entry<K, V>>, n: nat, asked: Option<K>) {
    asked.Some? ==> forall i | n <= i < |es| :: !lt(es[i].key.user, asked.value)
  }

  lemma AskedAtEntry<K(!new), V(!new)>(lt: (K, K) -> bool, es: seq<Entry<K, V>>, n: nat, asked: Option<K>)
    requires TotalOrder(lt) && Sorted(lt, es) && n < |es| && AskedBefore(lt, es, n, asked)
    ensures AskedBefore(lt, es, n + 1, asked) && AskedBefore(lt, es, n + 1, Some(es[n].key.user))
    ensures asked.Some? ==> !lt(es[n].key.user, asked.value)
  {
    assert forall i | n < i < |es| :: InternalLess(lt, es[n].key, es[i].key);
  }

  /** The loop's test of one entry, which updates the user key and sequence number it remembers. */
  method TestEntry<K(==, !new), V(!new)>(
      c: Compaction<K, V>, ghost es: seq<Entry<K, V>>, ghost n: nat, key: InternalKey<K>, smallestSnapshot: nat, current: Option<K>, last: nat)
      returns (drop: bool, currentUserKey: Option<K>, lastSequenceForKey: nat)
    requires c.Inv() && Sorted(c.lt, es) && n < |es| && key == es[n].key && smallestSnapshot < MAX_SEQUENCE
    requires Tracks(es, n, current, last) && AskedBefore(c.lt, es, n, c.asked)
    modifies c
    ensures c.keys == old(c.keys)
    ensures c.Inv() && Tracks(es, n + 1, currentUserKey, lastSequenceForKey) && AskedBefore(c.lt, es, n + 1, c.asked)
    ensures drop <==> Dropped(c.lt, c.version, c.level, es, smallestSnapshot, n)
  {
    hide Compaction.Inv, ValidVersion, Dropped, Tracks, AskedBefore, BaseLevel, TotalOrder, Sorted;
    DropDecision(c.lt, c.version, c.level, es, smallestSnapshot, n, current, last);
    AskedAtEntry(c.lt, es, n, c.asked);
    drop, currentUserKey, lastSequenceForKey := false, current, last;
    if key.typ > TYPE_VALUE {
      currentUserKey := None;
      lastSequenceForKey := MAX_SEQUENCE;
    } else {
      if currentUserKey != Some(key.user) {
        currentUserKey := Some(key.user);
        lastSequenceForKey := MAX_SEQUENCE;
      }
      if lastSequenceForKey <= smallestSnapshot {
        drop := true;
      } else if key.typ == TYPE_DELETION && key.seqno <= smallestSnapshot {
        drop := c.IsBaseLevelForKey(key.user);
      }
      lastSequenceForKey := key.seqno;
    }
  }

  /** The compaction loop. It writes the kept entries, cut where an output is full or overlaps too much. */
  method DoCompactionWork<K(==, !new), V(!new)>(
      c: Compaction<K, V>, input: MergingIterator<K, V>, smallestSnapshot: nat, nextFileNumber: nat, fileSize: seq<Entry<K, V>> -> nat,
      maxOutputFileSize: nat) returns (outputs: seq<File<K, V>>)
    requires c.Inv() && c.asked == None && c.keys == [] && input.Inv() && input.Ordered() && input.lt == c.lt
    requires smallestSnapshot < MAX_SEQUENCE
    modifies c, input, input.children
    ensures Built(outputs, nextFileNumber)
    ensures Flatten(outputs) == Kept(c.lt, c.version, c.level, input.entries, smallestSnapshot, |input.entries|)
    ensures CutWhereDue(
      c.lt, input.entries, StopsOf(c.lt, c.grandparents, c.maxGrandParentOverlapBytes, input.entries), fileSize, maxOutputFileSize, outputs)
  {
    hide MergingIterator.Inv, MergingIterator.Ordered, MergingIterator.Key, MergingIterator.Value, MergingIterator.Valid, CutWhereDue, Cutting, Stops, StopsOf, KeysOf;
    hide Compaction.Inv, ValidVersion, Kept, Dropped, Written, Tracks, AskedBefore, BaseLevel, TotalOrder, Sorted, Flatten;
    outputs := [];
    var builder: Option<seq<Entry<K, V>>> := None;
    input.SeekToFirst();
    var currentUserKey: Option<K> := None;
    var lastSequenceForKey: nat := MAX_SEQUENCE;
    ghost var kept: seq<Entry<K, V>> := [];
    ghost var es, stops := input.entries, StopsOf(c.lt, c.grandparents, c.maxGrandParentOverlapBytes, input.entries);
    LoopStart(c.lt, c.version, c.level, es, smallestSnapshot, nextFileNumber);
    CuttingStart(c.lt, es, stops, fileSize, maxOutputFileSize);
    while input.Valid()
      invariant c.Inv() && input.Inv() && c.keys == KeysOf(es)[..input.pos]
      invariant kept == Kept(c.lt, c.version, c.level, es, smallestSnapshot, input.pos)
      invariant Written(outputs, nextFileNumber, builder, kept)
      invariant Cutting(c.lt, es, stops, fileSize, maxOutputFileSize, input.pos, input.pos, outputs, builder)
      invariant Tracks(es, input.pos, currentUserKey, lastSequenceForKey)
      invariant AskedBefore(c.lt, es, input.pos, c.asked)
      decreases |es| - input.pos
    {
      ghost var n := input.pos;
      NextKey(c.lt, c.grandparents, c.maxGrandParentOverlapBytes, es, n);
      var key := input.Key();
      var stop := c.ShouldStopBefore(key);
      if stop && builder.Some? {
        AskedToStop(c.lt, es, stops, fileSize, maxOutputFileSize, n, outputs, builder.value, nextFileNumber + |outputs|);
        outputs := FinishOutput(outputs, nextFileNumber, fileSize(builder.value), builder.value, kept);
        builder := None;
      } else {
        Asked(c.lt, es, stops, fileSize, maxOutputFileSize, n, outputs, builder);
      }
      KeptStep(c.lt, c.version, c.level, es, smallestSnapshot, n);
      var drop;
      drop, currentUserKey, lastSequenceForKey := TestEntry(c, es, n, key, smallestSnapshot, currentUserKey, lastSequenceForKey);
      if !drop {
        outputs, builder := AddEntry(
          c.lt, es, stops, n, outputs, nextFileNumber, builder, Entry(key, input.Value()), fileSize, maxOutputFileSize, kept);
        kept := kept + [es[n]];
      } else {
        EntryDropped(c.lt, es, stops, fileSize, maxOutputFileSize, n, outputs, builder);
      }
      input.Next();
    }
    if builder.Some? {
      LastFinished(c.lt, es, stops, fileSize, maxOutputFileSize, outputs, builder.value, nextFileNumber + |outputs|);
      outputs := FinishOutput(outputs, nextFileNumber, fileSize(builder.value), builder.value, kept);
    } else {
      CutIsDue(c.lt, es, stops, fileSize, maxOutputFileSize, outputs);
    }
  }

  lemma KeptStep<K(!new), V(!new)>(
      lt: (K, K) -> bool, v: Version<K, V>, level: nat, es: seq<Entry<K, V>>, smallestSnapshot: nat, n: nat)
    requires ValidVersion(lt, v) && n < |es|
    ensures Dropped(lt, v, level, es, smallestSnapshot, n) ==>
      Kept(lt, v, level, es, smallestSnapshot, n + 1) == Kept(lt, v, level, es, smallestSnapshot, n)
    ensures !Dropped(lt, v, level, es, smallestSnapshot, n) ==>
      Kept(lt, v, level, es, smallestSnapshot, n + 1) == Kept(lt, v, level, es, smallestSnapshot, n) + [es[n]]
  {
  }

  lemma LoopStart<K(!new), V(!new)>(
      lt: (K, K) -> bool, v: Version<K, V>, level: nat, es: seq<Entry<K, V>>, smallestSnapshot: nat, first: nat)
    requires ValidVersion(lt, v)
    ensures Kept(lt, v, level, es, smallestSnapshot, 0) == [] && Written<K, V>([], first, None, [])
    ensures AskedBefore(lt, es, 0, None) && Tracks(es, 0, None, MAX_SEQUENCE)
  {
  }

  lemma {:induction false} KeptHolds<K(!new), V(!new)>(
      lt: (K, K) -> bool, v: Version<K, V>, level: nat, es: seq<Entry<K, V>>, smallestSnapshot: nat, n: nat, e: Entry<K, V>)
    requires ValidVersion(lt, v) && n <= |es|
    ensures e in Kept(lt, v, level, es, smallestSnapshot, n) <==>
      exists i :: 0 <= i < n && es[i] == e && !Dropped(lt, v, level, es, smallestSnapshot, i)
  {
    if n > 0 {
      KeptHolds(lt, v, level, es, smallestSnapshot, n - 1, e);
    }
  }

  /** With keys that parse an entry is left out just if a newer one of its user key is also at or below the
      smallest snapshot, or if it is a deletion there and nothing deeper holds the key. */
  lemma {:induction false} DroppedMeans<K(!new), V(!new)>(
      lt: (K, K) -> bool, v: Version<K, V>, level: nat, es: seq<Entry<K, V>>, smallestSnapshot: nat, i: nat)
    requires TotalOrder(lt) && |v.levels| == NUM_LEVELS && Sorted(lt, es) && i < |es|
    requires forall j | 0 <= j < |es| :: es[j].key.typ <= TYPE_VALUE
    ensures Dropped(lt, v, level, es, smallestSnapshot, i) <==>
      || (exists e :: e in Elements(es) && e.key.user == es[i].key.user && e.key.Tag() > es[i].key.Tag() && e.key.seqno <= smallestSnapshot)
      || (es[i].key.typ == TYPE_DELETION && es[i].key.seqno <= smallestSnapshot && BaseLevel(lt, v, level, es[i].key.user))
  {
    hide BaseLevel;
    if i > 0 {
      assert InternalLess(lt, es[i - 1].key, es[i].key) && es[i - 1] in Elements(es);
    }
    if e :| e in Elements(es) && e.key.user == es[i].key.user && e.key.Tag() > es[i].key.Tag() && e.key.seqno <= smallestSnapshot {
      var j :| 0 <= j < |es| && es[j] == e;
      NewerComesFirst(lt, es, j, i);
    }
  }

  lemma NewerComesFirst<K(!new), V(!new)>(lt: (K, K) -> bool, es: seq<Entry<K, V>>, j: nat, i: nat)
    requires TotalOrder(lt) && Sorted(lt, es) && i < |es| && j < |es| && es[j].key.typ <= TYPE_VALUE && es[i].key.typ <= TYPE_VALUE
    requires es[j].key.user == es[i].key.user && es[j].key.Tag() > es[i].key.Tag() && forall k | 0 <= k < |es| :: es[k].key.typ <= TYPE_VALUE
    ensures 0 < i && es[i - 1].key.user == es[i].key.user && es[i - 1].key.seqno <= es[j].key.seqno
  {
    if i < j {
      TagsFall(lt, es, i, j);
    } else if j < i {
      assert InternalLess(lt, es[i - 1].key, es[i].key);
      assert j < i - 1 ==> InternalLess(lt, es[j].key, es[i - 1].key);
    }
  }

  lemma TagsFall<K(!new), V(!new)>(lt: (K, K) -> bool, es: seq<Entry<K, V>>, i: nat, j: nat)
    requires TotalOrder(lt) && Sorted(lt, es) && i < j < |es| && es[i].key.user == es[j].key.user
    ensures es[i].key.Tag() > es[j].key.Tag()
  {
    assert InternalLess(lt, es[i].key, es[j].key);
  }

  /** Below a dropped deletion of a key without deeper files, the compaction keeps exactly the values that
      follow an entry it cannot parse. */
  lemma KeptBelowDeletion<K(!new), V(!new)>(
      lt: (K, K) -> bool, v: Version<K, V>, level: nat, es: seq<Entry<K, V>>, smallestSnapshot: nat, i: nat, j: nat)
    requires TotalOrder(lt) && |v.levels| == NUM_LEVELS && Sorted(lt, es) && i < j < |es|
    requires es[i].key.typ <= TYPE_VALUE && es[j].key.typ <= TYPE_VALUE && es[i].key.seqno <= smallestSnapshot
    requires es[i].key.user == es[j].key.user && BaseLevel(lt, v, level, es[j].key.user)
    ensures es[j].key.seqno <= es[i].key.seqno
    ensures Dropped(lt, v, level, es, smallestSnapshot, j) <==> !(es[j].key.typ == TYPE_VALUE && es[j - 1].key.typ > TYPE_VALUE)
  {
    hide BaseLevel;
    assert InternalLess(lt, es[i].key, es[j].key) && InternalLess(lt, es[j - 1].key, es[j].key);
    assert i < j - 1 ==> InternalLess(lt, es[i].key, es[j - 1].key);
  }

  /** A value that a read may use once the deletion at `i` is gone: one left elsewhere, or one below that
      deletion which an entry that does not parse stands right above, for that resets the loop. */
  ghost predicate LeftBehind<K(!new), V(!new)>(
      es: seq<Entry<K, V>>, rest: set<Entry<K, V>>, user: K, snapshot: nat, i: nat, x: Entry<K, V>) {
    && x.key.user == user && Readable(x, snapshot) && x.key.typ == TYPE_VALUE
    && (x in rest || exists k :: i < k < |es| && es[k] == x && es[k - 1].key.typ > TYPE_VALUE)
  }

  /** Among all entries the newest for a read is the deletion at `i`, which is not left elsewhere, and with it
      gone the value `x` is not hidden by another deletion. */
  ghost predicate RevivedAt<K(!new), V(!new)>(
      es: seq<Entry<K, V>>, smallestSnapshot: nat, rest: set<Entry<K, V>>, user: K, snapshot: nat, i: nat, x: Entry<K, V>) {
    && i < |es| && es[i] !in rest && Newest(rest + Elements(es), user, snapshot, es[i])
    && es[i].key.typ == TYPE_DELETION && es[i].key.seqno <= smallestSnapshot
    && LeftBehind(es, rest, user, snapshot, i, x)
    && forall d | d in rest && d.key.user == user && Readable(d, snapshot) && d.key.typ == TYPE_DELETION :: d.key.Tag() < x.key.Tag()
  }

  /** A read that compaction changes: the deletion it meets goes away, but not a value below it. */
  ghost predicate Revives<K(!new), V(!new)>(
      lt: (K, K) -> bool, v: Version<K, V>, level: nat, es: seq<Entry<K, V>>, smallestSnapshot: nat, rest: set<Entry<K, V>>, user: K, snapshot: nat)
    requires |v.levels| == NUM_LEVELS
  {
    BaseLevel(lt, v, level, user) && exists i: nat, x :: RevivedAt(es, smallestSnapshot, rest, user, snapshot, i, x)
  }

  /** Replacing merged entries by the kept ones changes no read at or after the smallest snapshot but those of
      which it revives a value, whatever else there is. */
  lemma ReadsKeptExactly<K(!new), V(!new)>(
      lt: (K, K) -> bool, v: Version<K, V>, level: nat, es: seq<Entry<K, V>>, smallestSnapshot: nat, rest: set<Entry<K, V>>, user: K, snapshot: nat)
    requires TotalOrder(lt) && ValidVersion(lt, v) && Sorted(lt, es) && smallestSnapshot <= snapshot
    requires Distinct(rest + Elements(es))
    ensures Lookup(rest + Elements(Kept(lt, v, level, es, smallestSnapshot, |es|)), user, snapshot)
        == Lookup(rest + Elements(es), user, snapshot)
      <==> !Revives(lt, v, level, es, smallestSnapshot, rest, user, snapshot)
  {
    hide TotalOrder, ValidVersion, BaseLevel, Dropped, Lookup, Revives;
    var kept := Kept(lt, v, level, es, smallestSnapshot, |es|);
    var before, after := rest + Elements(es), rest + Elements(kept);
    forall e | e in after ensures e in before {
      KeptHolds(lt, v, level, es, smallestSnapshot, |es|, e);
    }
    if some :| some in before && some.key.user == user && Readable(some, snapshot) {
      var e := NewestExists(before, user, snapshot, some);
      LookupNewest(before, user, snapshot, e);
      if e in after {
        LookupNewest(after, user, snapshot, e);
        RevivedIsDropped(lt, v, level, es, smallestSnapshot, rest, user, snapshot, e);
      } else {
        DroppedNewest(lt, v, level, es, smallestSnapshot, rest, user, snapshot, e);
      }
    } else {
      LookupMissing(before, user, snapshot);
      LookupMissing(after, user, snapshot);
      NoneRevives(lt, v, level, es, smallestSnapshot, rest, user, snapshot);
    }
  }

  lemma NoneRevives<K(!new), V(!new)>(
      lt: (K, K) -> bool, v: Version<K, V>, level: nat, es: seq<Entry<K, V>>, smallestSnapshot: nat, rest: set<Entry<K, V>>, user: K, snapshot: nat)
    requires |v.levels| == NUM_LEVELS && forall e | e in rest + Elements(es) && e.key.user == user :: !Readable(e, snapshot)
    ensures !Revives(lt, v, level, es, smallestSnapshot, rest, user, snapshot)
  {
    hide BaseLevel, LeftBehind;
  }

  /** If a read is changed its newest entry is gone. */
  lemma RevivedIsDropped<K(!new), V(!new)>(
      lt: (K, K) -> bool, v: Version<K, V>, level: nat, es: seq<Entry<K, V>>, smallestSnapshot: nat, rest: set<Entry<K, V>>, user: K, snapshot: nat,
      e: Entry<K, V>)
    requires TotalOrder(lt) && ValidVersion(lt, v) && Sorted(lt, es)
    requires Distinct(rest + Elements(es)) && Newest(rest + Elements(es), user, snapshot, e)
    ensures Revives(lt, v, level, es, smallestSnapshot, rest, user, snapshot) ==>
      e !in rest && e !in Kept(lt, v, level, es, smallestSnapshot, |es|)
  {
    hide TotalOrder, ValidVersion, BaseLevel, LeftBehind, Dropped;
    if Revives(lt, v, level, es, smallestSnapshot, rest, user, snapshot) {
      var i: nat, x :| RevivedAt(es, smallestSnapshot, rest, user, snapshot, i, x);
      assert es[i].key.Tag() == e.key.Tag();
      DroppedAt(lt, v, level, es, smallestSnapshot, user, i);
    }
  }

  lemma DroppedAt<K(!new), V(!new)>(
      lt: (K, K) -> bool, v: Version<K, V>, level: nat, es: seq<Entry<K, V>>, smallestSnapshot: nat, user: K, i: nat)
    requires TotalOrder(lt) && ValidVersion(lt, v) && Sorted(lt, es) && i < |es| && es[i].key.user == user
    requires es[i].key.typ == TYPE_DELETION && es[i].key.seqno <= smallestSnapshot && BaseLevel(lt, v, level, user)
    ensures es[i] !in Kept(lt, v, level, es, smallestSnapshot, |es|)
  {
    hide TotalOrder, ValidVersion, BaseLevel;
    KeptHolds(lt, v, level, es, smallestSnapshot, |es|, es[i]);
    forall j: nat | j < |es| && es[j] == es[i] ensures j == i {
      SamePlace(lt, es, i, j);
    }
  }

  lemma SamePlace<K(!new), V(!new)>(lt: (K, K) -> bool, es: seq<Entry<K, V>>, i: nat, j: nat)
    requires TotalOrder(lt) && Sorted(lt, es) && i < |es| && j < |es| && es[i] == es[j]
    ensures i == j
  {
  }

  /** If the newest readable entry was dropped it was a deletion, and only a revived value takes its place. */
  lemma DroppedNewest<K(!new), V(!new)>(
      lt: (K, K) -> bool, v: Version<K, V>, level: nat, es: seq<Entry<K, V>>, smallestSnapshot: nat, rest: set<Entry<K, V>>, user: K, snapshot: nat,
      e: Entry<K, V>)
    requires TotalOrder(lt) && ValidVersion(lt, v) && Sorted(lt, es) && smallestSnapshot <= snapshot
    requires Distinct(rest + Elements(es)) && Newest(rest + Elements(es), user, snapshot, e)
    requires e !in rest && e !in Kept(lt, v, level, es, smallestSnapshot, |es|)
    ensures e.key.typ == TYPE_DELETION
    ensures Lookup(rest + Elements(Kept(lt, v, level, es, smallestSnapshot, |es|)), user, snapshot) == None
      <==> !Revives(lt, v, level, es, smallestSnapshot, rest, user, snapshot)
  {
    hide TotalOrder, ValidVersion, Dropped, BaseLevel, Lookup, Revives;
    var after := rest + Elements(Kept(lt, v, level, es, smallestSnapshot, |es|));
    KeptHolds(lt, v, level, es, smallestSnapshot, |es|, e);
    var i :| 0 <= i < |es| && es[i] == e;
    NewestDropped(lt, v, level, es, smallestSnapshot, rest, user, snapshot, i);
    RevivedIsLeft(lt, v, level, es, smallestSnapshot, rest, user, snapshot);
    if f :| f in after && f.key.user == user && Readable(f, snapshot) {
      var g := NewestExists(after, user, snapshot, f);
      forall d | d in after ensures d in rest + Elements(es) {
        KeptHolds(lt, v, level, es, smallestSnapshot, |es|, d);
      }
      LookupNewest(after, user, snapshot, g);
      NextNewest(lt, v, level, es, smallestSnapshot, rest, user, snapshot, i, g);
    } else {
      LookupMissing(after, user, snapshot);
    }
  }

  /** A value that is revived is there afterwards, and no deletion left elsewhere hides it. */
  lemma RevivedIsLeft<K(!new), V(!new)>(
      lt: (K, K) -> bool, v: Version<K, V>, level: nat, es: seq<Entry<K, V>>, smallestSnapshot: nat, rest: set<Entry<K, V>>, user: K, snapshot: nat)
    requires TotalOrder(lt) && ValidVersion(lt, v) && Sorted(lt, es)
    ensures Revives(lt, v, level, es, smallestSnapshot, rest, user, snapshot) ==>
      exists x :: x in rest + Elements(Kept(lt, v, level, es, smallestSnapshot, |es|)) && x.key.user == user && Readable(x, snapshot)
        && forall d | d in rest && d.key.user == user && Readable(d, snapshot) && d.key.typ == TYPE_DELETION :: d.key.Tag() < x.key.Tag()
  {
    hide TotalOrder, ValidVersion, BaseLevel, Dropped, Newest, Kept;
    if Revives(lt, v, level, es, smallestSnapshot, rest, user, snapshot) {
      var i: nat, x :| RevivedAt(es, smallestSnapshot, rest, user, snapshot, i, x);
      LeftIsKept(lt, v, level, es, smallestSnapshot, rest, user, snapshot, i, x);
    }
  }

  lemma LeftIsKept<K(!new), V(!new)>(
      lt: (K, K) -> bool, v: Version<K, V>, level: nat, es: seq<Entry<K, V>>, smallestSnapshot: nat, rest: set<Entry<K, V>>, user: K, snapshot: nat,
      i: nat, x: Entry<K, V>)
    requires TotalOrder(lt) && ValidVersion(lt, v) && Sorted(lt, es) && BaseLevel(lt, v, level, user)
    requires RevivedAt(es, smallestSnapshot, rest, user, snapshot, i, x)
    ensures x in rest + Elements(Kept(lt, v, level, es, smallestSnapshot, |es|))
  {
    hide TotalOrder, ValidVersion, BaseLevel, Dropped;
    if x !in rest {
      var k :| i < k < |es| && es[k] == x && es[k - 1].key.typ > TYPE_VALUE;
      KeptBelowDeletion(lt, v, level, es, smallestSnapshot, i, k);
      KeptHolds(lt, v, level, es, smallestSnapshot, |es|, x);
    }
  }

  /** The newest of what is left after the deletion at `i` went away is a value if and only if one is revived. */
  lemma NextNewest<K(!new), V(!new)>(
      lt: (K, K) -> bool, v: Version<K, V>, level: nat, es: seq<Entry<K, V>>, smallestSnapshot: nat, rest: set<Entry<K, V>>, user: K, snapshot: nat,
      i: nat, g: Entry<K, V>)
    requires TotalOrder(lt) && ValidVersion(lt, v) && Sorted(lt, es) && i < |es| && BaseLevel(lt, v, level, user)
    requires es[i] !in rest && Newest(rest + Elements(es), user, snapshot, es[i])
    requires es[i].key.typ == TYPE_DELETION && es[i].key.seqno <= smallestSnapshot
    requires es[i] !in Kept(lt, v, level, es, smallestSnapshot, |es|)
    requires Newest(rest + Elements(Kept(lt, v, level, es, smallestSnapshot, |es|)), user, snapshot, g)
    ensures g.key.typ == TYPE_VALUE <==> Revives(lt, v, level, es, smallestSnapshot, rest, user, snapshot)
  {
    hide TotalOrder, ValidVersion, Dropped, BaseLevel;
    if g !in rest {
      LeftOfMerged(lt, v, level, es, smallestSnapshot, user, snapshot, i, g, rest);
    }
    if g.key.typ == TYPE_VALUE {
      forall d | d in rest && d.key.user == user && Readable(d, snapshot) && d.key.typ == TYPE_DELETION ensures d.key.Tag() < g.key.Tag() {
        assert d.key.Tag() <= g.key.Tag();
      }
      assert RevivedAt(es, smallestSnapshot, rest, user, snapshot, i, g);
    } else {
      RevivedIsLeft(lt, v, level, es, smallestSnapshot, rest, user, snapshot);
    }
  }

  /** What is left of the merged entries below the deletion is a value that an unparsable entry protects. */
  lemma LeftOfMerged<K(!new), V(!new)>(
      lt: (K, K) -> bool, v: Version<K, V>, level: nat, es: seq<Entry<K, V>>, smallestSnapshot: nat, user: K, snapshot: nat, i: nat, g: Entry<K, V>,
      rest: set<Entry<K, V>>)
    requires TotalOrder(lt) && ValidVersion(lt, v) && Sorted(lt, es) && i < |es| && BaseLevel(lt, v, level, user)
    requires Newest(rest + Elements(es), user, snapshot, es[i])
    requires es[i].key.typ == TYPE_DELETION && es[i].key.seqno <= smallestSnapshot
    requires es[i] !in Kept(lt, v, level, es, smallestSnapshot, |es|)
    requires g in Kept(lt, v, level, es, smallestSnapshot, |es|) && g.key.user == user && Readable(g, snapshot)
    ensures g.key.typ == TYPE_VALUE && LeftBehind(es, rest, user, snapshot, i, g)
  {
    hide TotalOrder, ValidVersion, Dropped, BaseLevel;
    KeptHolds(lt, v, level, es, smallestSnapshot, |es|, g);
    var j :| 0 <= j < |es| && es[j] == g && !Dropped(lt, v, level, es, smallestSnapshot, j);
    assert g in rest + Elements(es);
    OlderIsLater(lt, es, i, j);
    KeptBelowDeletion(lt, v, level, es, smallestSnapshot, i, j);
  }

  /** Entries that all parse can be compacted without changing a read. */
  lemma KeepsReads<K(!new), V(!new)>(
      lt: (K, K) -> bool, v: Version<K, V>, level: nat, es: seq<Entry<K, V>>, smallestSnapshot: nat, rest: set<Entry<K, V>>, user: K, snapshot: nat)
    requires TotalOrder(lt) && ValidVersion(lt, v) && Sorted(lt, es) && smallestSnapshot <= snapshot
    requires forall i | 0 <= i < |es| :: es[i].key.typ <= TYPE_VALUE
    requires Distinct(rest + Elements(es))
    requires BaseLevel(lt, v, level, user) ==>
      forall d, e | d in rest && e in es && d.key.user == user == e.key.user :: d.key.Tag() > e.key.Tag()
    ensures Lookup(rest + Elements(Kept(lt, v, level, es, smallestSnapshot, |es|)), user, snapshot)
      == Lookup(rest + Elements(es), user, snapshot)
  {
    ReadsKeptExactly(lt, v, level, es, smallestSnapshot, rest, user, snapshot);
  }

  /** A key that cannot be parsed can bring a deleted value back. */
  lemma CorruptKeyRevives(lt: (int, int) -> bool, v: Version<int, int>, deletion: Entry<int, int>, corrupt: Entry<int, int>, value: Entry<int, int>)
    requires TotalOrder(lt) && v == Version([[], [], [], [], [], [], []])
    requires deletion == Entry(InternalKey(1, 5, TYPE_DELETION), 0)
    requires corrupt == Entry(InternalKey(1, 4, 7), 0) && value == Entry(InternalKey(1, 3, TYPE_VALUE), 9)
    ensures ValidVersion(lt, v) && Sorted(lt, [deletion, corrupt, value])
    ensures Kept(lt, v, 0, [deletion, corrupt, value], 5, 3) == [corrupt, value]
    ensures Lookup(Elements([deletion, corrupt, value]), 1, 5) == None && Lookup(Elements([corrupt, value]), 1, 5) == Some(9)
  {
    hide TotalOrder, ValidVersion, Lookup;
    NoFiles(lt, v);
    KeptOfCorrupt(lt, v, deletion, corrupt, value);
    SortedIsDistinct(lt, [deletion, corrupt, value]);
    LookupNewest(Elements([deletion, corrupt, value]), 1, 5, deletion);
    SortedIsDistinct(lt, [corrupt, value]);
    LookupNewest(Elements([corrupt, value]), 1, 5, value);
  }

  lemma NoFiles<K(!new), V(!new)>(lt: (K, K) -> bool, v: Version<K, V>)
    requires v == Version([[], [], [], [], [], [], []])
    ensures ValidVersion(lt, v) && forall user :: BaseLevel(lt, v, 0, user)
  {
  }

  lemma KeptOfCorrupt(lt: (int, int) -> bool, v: Version<int, int>, deletion: Entry<int, int>, corrupt: Entry<int, int>, value: Entry<int, int>)
    requires TotalOrder(lt) && |v.levels| == NUM_LEVELS && BaseLevel(lt, v, 0, 1)
    requires deletion == Entry(InternalKey(1, 5, TYPE_DELETION), 0)
    requires corrupt == Entry(InternalKey(1, 4, 7), 0) && value == Entry(InternalKey(1, 3, TYPE_VALUE), 9)
    ensures Kept(lt, v, 0, [deletion, corrupt, value], 5, 3) == [corrupt, value]
  {
    hide TotalOrder, BaseLevel;
    var es := [deletion, corrupt, value];
    assert Dropped(lt, v, 0, es, 5, 0) && !Dropped(lt, v, 0, es, 5, 1) && !Dropped(lt, v, 0, es, 5, 2);
    assert Kept(lt, v, 0, es, 5, 1) == [];
    assert Kept(lt, v, 0, es, 5, 2) == [corrupt];
  }

  lemma OlderIsLater<K(!new), V(!new)>(lt: (K, K) -> bool, es: seq<Entry<K, V>>, i: nat, j: nat)
    requires Sorted(lt, es) && i < |es| && j < |es|
    requires es[i].key.user == es[j].key.user && es[j].key.Tag() <= es[i].key.Tag()
    requires TotalOrder(lt)
    ensures i <= j
  {
  }

  lemma NewestDropped<K(!new), V(!new)>(
      lt: (K, K) -> bool, v: Version<K, V>, level: nat, es: seq<Entry<K, V>>, smallestSnapshot: nat, rest: set<Entry<K, V>>, user: K, snapshot: nat,
      i: nat)
    requires TotalOrder(lt) && ValidVersion(lt, v) && Sorted(lt, es) && smallestSnapshot <= snapshot && i < |es|
    requires Newest(rest + Elements(es), user, snapshot, es[i]) && Dropped(lt, v, level, es, smallestSnapshot, i)
    ensures es[i].key.typ == TYPE_DELETION && es[i].key.seqno <= smallestSnapshot && BaseLevel(lt, v, level, user)
  {
    assert 0 < i ==> InternalLess(lt, es[i - 1].key, es[i].key) && es[i - 1] in rest + Elements(es);
  }

  lemma LookupMissing<K(!new), V(!new)>(es: set<Entry<K, V>>, k: K, snapshot: nat)
    requires forall e | e in es && e.key.user == k :: !Readable(e, snapshot)
    ensures Lookup(es, k, snapshot) == None
  {
  }
}
