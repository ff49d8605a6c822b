/** A run in which a compaction cuts its outputs between two entries of one user key, and what moving the newer
    of the two files then does (db/db_impl.cc:998-1004; db/version_set.cc:557-569). */
module SplitKeys {
  import opened Keys
  import opened Tables
  import opened VersionOps
  import opened VersionBuilder
  import opened Compactions
  import opened VersionRuns
  import opened VersionHistory
  import opened Background
  import VersionGet

  /** A version with files in levels 1 to 3 only. */
  function Middle<K, V>(one: seq<File<K, V>>, two: seq<File<K, V>>, three: seq<File<K, V>>): Version<K, V> {
    Version([[], one, two, three, [], [], []])
  }

  lemma MiddleLevels<K, V>(one: seq<File<K, V>>, two: seq<File<K, V>>, three: seq<File<K, V>>)
    ensures var v := Middle(one, two, three);
      |v.levels| == NUM_LEVELS && v.levels[0] == [] && v.levels[1] == one && v.levels[2] == two && v.levels[3] == three
      && forall l | 4 <= l < NUM_LEVELS :: v.levels[l] == []
  {
  }

  lemma EditedIf<K(!new), V(!new)>(
      lt: (K, K) -> bool, before: Version<K, V>, after: Version<K, V>, deletions: set<(nat, nat)>, newFiles: seq<(nat, File<K, V>)>)
    requires |before.levels| == |after.levels| == NUM_LEVELS
    requires forall l | 0 <= l < NUM_LEVELS :: StrictlySorted(BySmallestKey(lt), after.levels[l])
    requires forall l: nat, f: File<K, V> | l < NUM_LEVELS ::
      f in after.levels[l] <==> (f in before.levels[l] || (l, f) in newFiles) && (l, f.number) !in deletions
    ensures Edited(lt, before, after, deletions, newFiles)
  {
    hide StrictlySorted;
    var edits := [FileEdit(deletions, newFiles)];
    forall l: nat, f: File<K, V> | l < NUM_LEVELS
      ensures AddedBy(edits, l, f) <==> (l, f) in newFiles
      ensures DeletedBy(edits, l, f.number) <==> (l, f.number) in deletions
    {
      assert edits[0].newFiles == newFiles && edits[0].deletions == deletions;
    }
  }

  lemma NoneOrOneSorted<F(!new)>(less: (F, F) -> bool, f: F)
    ensures StrictlySorted(less, []) && StrictlySorted(less, [f])
  {
  }

  /** A value of key 1 is flushed and then, by a later memtable, its deletion; a compaction writes both anew. */
  datatype Split = Split(
    value: Entry<int, int>, deletion: Entry<int, int>, flushed: File<int, int>, later: File<int, int>, newer: File<int, int>, older: File<int, int>)

  /** The output with the deletion has reached the size at which outputs are cut. */
  ghost predicate IsSplit(x: Split, maxOutputFileSize: nat) {
    && x.value == Entry(InternalKey(1, 3, TYPE_VALUE), 9) && x.deletion == Entry(InternalKey(1, 5, TYPE_DELETION), 0)
    && x.flushed == BuildTable(2, x.flushed.size, [x.value]) && x.later == BuildTable(3, x.later.size, [x.deletion])
    && x.newer == BuildTable(4, x.newer.size, [x.deletion]) && x.older == BuildTable(5, x.older.size, [x.value])
    && x.newer.size >= maxOutputFileSize
  }

  ghost function New(): State<int, int> {
    State(Version(seq(NUM_LEVELS, l => [])), 2, {}, 0, 0)
  }

  ghost function ValueFlushed(x: Split): State<int, int> {
    State(Middle([], [x.flushed], []), 3, {x.value}, 3, 0)
  }

  ghost function DeletionFlushed(x: Split): State<int, int> {
    State(Middle([x.later], [x.flushed], []), 4, {x.value, x.deletion}, 5, 0)
  }

  ghost function Cut(x: Split): State<int, int> {
    State(Middle([], [x.newer, x.older], []), 6, {x.value, x.deletion}, 5, 3)
  }

  ghost function Moved(x: Split): State<int, int> {
    State(Middle([], [x.older], [x.newer]), 6, {x.value, x.deletion}, 5, 3)
  }

  lemma ValueGoesDown(lt: (int, int) -> bool, x: Split, limit: nat)
    requires TotalOrder(lt) && IsSplit(x, limit)
    ensures FlushStep(lt, New(), ValueFlushed(x), x.flushed.size, 2, [x.value])
  {
    hide StrictlySorted, Edited;
    var before, after := New().version, ValueFlushed(x).version;
    MiddleLevels([], [x.flushed], []);
    NoneOrOneSorted(BySmallestKey<int, int>(lt), x.flushed);
    forall l: nat, f: File<int, int> | l < NUM_LEVELS
      ensures f in after.levels[l] <==> (f in before.levels[l] || (l, f) in [(2, x.flushed)]) && (l, f.number) !in {}
    {
    }
    EditedIf(lt, before, after, {}, [(2, x.flushed)]);
    assert Elements([x.value]) == {x.value};
  }

  lemma DeletionStaysAbove(lt: (int, int) -> bool, x: Split, limit: nat)
    requires TotalOrder(lt) && IsSplit(x, limit)
    ensures FlushStep(lt, ValueFlushed(x), DeletionFlushed(x), x.later.size, 1, [x.deletion])
  {
    hide StrictlySorted, Edited;
    var before, after := ValueFlushed(x).version, DeletionFlushed(x).version;
    MiddleLevels([], [x.flushed], []);
    MiddleLevels([x.later], [x.flushed], []);
    NoneOrOneSorted(BySmallestKey<int, int>(lt), x.flushed);
    NoneOrOneSorted(BySmallestKey<int, int>(lt), x.later);
    forall l: nat, f: File<int, int> | l < NUM_LEVELS
      ensures f in after.levels[l] <==> (f in before.levels[l] || (l, f) in [(1, x.later)]) && (l, f.number) !in {}
    {
    }
    EditedIf(lt, before, after, {}, [(1, x.later)]);
    assert {x.value} + Elements([x.deletion]) == {x.value, x.deletion};
  }

  /** These are the levels that the method picks, as long as the flushed value is not too many bytes two levels
      below level 0. */
  method PickedLevels(lt: (int, int) -> bool, ghost x: Split, v: Version<int, int>, w: Version<int, int>, ghost limit: nat,
      maxGrandParentOverlapBytes: nat) returns (forValue: nat, forDeletion: nat)
    requires TotalOrder(lt) && IsSplit(x, limit) && x.flushed.size <= maxGrandParentOverlapBytes
    requires v == New().version && w == ValueFlushed(x).version
    ensures forValue == 2 && forDeletion == 1
  {
    hide TotalOrder, IsSplit, ValidVersion, VersionOps.InRange, OverlapInLevel, Overlapping, TotalFileSize;
    BothValid(lt, x, limit);
    NothingOverlaps(lt, v);
    OnlyValueOverlaps(lt, x, limit, w);
    forValue := PickLevelForMemTableOutput(lt, v, 1, 1, maxGrandParentOverlapBytes);
    forDeletion := PickLevelForMemTableOutput(lt, w, 1, 1, maxGrandParentOverlapBytes);
    assert OverlapInLevel(lt, w, 2, 1, 1) && !OverlapInLevel(lt, w, 0, 1, 1) && !OverlapInLevel(lt, w, 1, 1, 1);
  }

  lemma BothValid(lt: (int, int) -> bool, x: Split, limit: nat)
    requires TotalOrder(lt) && IsSplit(x, limit)
    ensures ValidVersion(lt, New().version) && VersionOps.InRange(New().version)
    ensures ValidVersion(lt, ValueFlushed(x).version) && VersionOps.InRange(ValueFlushed(x).version)
  {
    hide TotalOrder, IsSplit, FlushStep, ValidState, ValidVersion, VersionOps.InRange;
    InitIsValid(lt, New());
    ValueGoesDown(lt, x, limit);
    FlushKeeps(lt, New(), ValueFlushed(x), x.flushed.size, 2, [x.value]);
    StateIsValid(lt, New());
    StateIsValid(lt, ValueFlushed(x));
    SequencesInRange(lt, New());
    SequencesInRange(lt, ValueFlushed(x));
  }

  lemma NothingOverlaps(lt: (int, int) -> bool, v: Version<int, int>)
    requires v == New().version
    ensures forall l: nat | l < NUM_LEVELS ::
      !OverlapInLevel(lt, v, l, 1, 1) && TotalFileSize(Overlapping(lt, v.levels[l], Some(1), Some(1))) == 0
  {
    hide Overlaps;
  }

  lemma OnlyValueOverlaps(lt: (int, int) -> bool, x: Split, limit: nat, v: Version<int, int>)
    requires TotalOrder(lt) && IsSplit(x, limit) && v == ValueFlushed(x).version
    ensures forall l: nat | l < NUM_LEVELS :: OverlapInLevel(lt, v, l, 1, 1) <==> l == 2
    ensures TotalFileSize(Overlapping(lt, v.levels[2], Some(1), Some(1))) == x.flushed.size
    ensures TotalFileSize(Overlapping(lt, v.levels[3], Some(1), Some(1))) == 0
  {
    MiddleLevels([], [x.flushed], []);
    assert x.flushed in v.levels[2] && Overlaps(lt, x.flushed, Some(1), Some(1));
    assert [x.flushed][..0] == [] && [] + [x.flushed] == [x.flushed];
    assert Overlapping(lt, [x.flushed], Some(1), Some(1)) == [x.flushed];
    assert TotalFileSize([x.flushed]) == TotalFileSize<int, int>([]) + x.flushed.size;
  }

  /** With a snapshot at 3 the value is kept beside its deletion, and the outputs are cut between the two. The
      files overlap, so that this is no move. */
  lemma CutHappens(lt: (int, int) -> bool, x: Split, limit: nat, maxGrandParentOverlapBytes: nat)
    requires TotalOrder(lt) && IsSplit(x, limit)
    ensures CompactStep(lt, DeletionFlushed(x), Cut(x), 1, [x.later], x.later.smallest, x.later.largest, 3, [x.deletion, x.value], [x.newer, x.older])
    ensures Overlapping(lt, DeletionFlushed(x).version.levels[2], Some(1), Some(1)) == [x.flushed]
    ensures !IsTrivial(lt, DeletionFlushed(x).version, 1, [x.later], [x.flushed], maxGrandParentOverlapBytes)
  {
    hide StrictlySorted, Edited, Inputs, Kept, LevelEntries, Built, Flatten, Deletions, Additions;
    MiddleLevels([x.later], [x.flushed], []);
    InputsAre(lt, x, limit);
    BothKept(lt, x, limit);
    CutEdited(lt, x, limit);
    BothMerged(lt, x, limit);
  }

  lemma InputsAre(lt: (int, int) -> bool, x: Split, limit: nat)
    requires TotalOrder(lt) && IsSplit(x, limit)
    ensures Overlapping(lt, DeletionFlushed(x).version.levels[2], Some(1), Some(1)) == [x.flushed]
    ensures Inputs(lt, DeletionFlushed(x).version, 1, [x.later], [x.flushed], x.later.smallest, x.later.largest)
  {
    MiddleLevels([x.later], [x.flushed], []);
    assert [x.flushed][..0] == [] && [] + [x.flushed] == [x.flushed];
    assert x.later in [x.later];
  }

  lemma BothMerged(lt: (int, int) -> bool, x: Split, limit: nat)
    requires IsSplit(x, limit)
    ensures IsMerge(lt, [x.later] + [x.flushed], [x.deletion, x.value])
  {
    var files := [x.later] + [x.flushed];
    assert files[0] == x.later && files[1] == x.flushed;
    assert x.deletion in x.later.entries && x.value in x.flushed.entries;
  }

  lemma BothKept(lt: (int, int) -> bool, x: Split, limit: nat)
    requires TotalOrder(lt) && IsSplit(x, limit)
    ensures Kept(lt, DeletionFlushed(x).version, 1, [x.deletion, x.value], 3, 2) == [x.deletion, x.value]
  {
    hide BaseLevel;
    var v, es := DeletionFlushed(x).version, [x.deletion, x.value];
    assert !Dropped(lt, v, 1, es, 3, 0) && !Dropped(lt, v, 1, es, 3, 1);
    assert Kept(lt, v, 1, es, 3, 0) == [] && Kept(lt, v, 1, es, 3, 1) == [] + [x.deletion];
  }

  lemma CutEdited(lt: (int, int) -> bool, x: Split, limit: nat)
    requires TotalOrder(lt) && IsSplit(x, limit)
    ensures Edited(
      lt, DeletionFlushed(x).version, Cut(x).version, Deletions(1, [x.later]) + Deletions(2, [x.flushed]), Additions(2, [x.newer, x.older]))
    ensures Built([x.newer, x.older], 4) && Flatten([x.newer, x.older]) == [x.deletion, x.value]
  {
    hide StrictlySorted, Edited;
    var before, after := DeletionFlushed(x).version, Cut(x).version;
    MiddleLevels([x.later], [x.flushed], []);
    MiddleLevels([], [x.newer, x.older], []);
    NoneOrOneSorted(BySmallestKey<int, int>(lt), x.newer);
    TwoSorted(lt, x, limit);
    var deletions, newFiles := Deletions(1, [x.later]) + Deletions(2, [x.flushed]), Additions(2, [x.newer, x.older]);
    assert x.later in [x.later] && x.flushed in [x.flushed];
    assert deletions == {(1, 3), (2, 2)};
    assert newFiles == [(2, x.newer), (2, x.older)];
    forall l: nat, f: File<int, int> | l < NUM_LEVELS
      ensures f in after.levels[l] <==> (f in before.levels[l] || (l, f) in newFiles) && (l, f.number) !in deletions
    {
    }
    EditedIf(lt, before, after, deletions, newFiles);
    assert [x.newer, x.older][..1] == [x.newer] && [x.newer][..0] == [];
    assert Flatten([x.newer]) == [] + [x.deletion];
  }

  lemma TwoSorted(lt: (int, int) -> bool, x: Split, limit: nat)
    requires TotalOrder(lt) && IsSplit(x, limit)
    ensures StrictlySorted(BySmallestKey(lt), [x.newer, x.older])
  {
  }

  /** Nothing overlaps the newer file further down, so that it is moved; the older one stays above it. */
  lemma NewerMoves(lt: (int, int) -> bool, x: Split, limit: nat, maxGrandParentOverlapBytes: nat)
    requires TotalOrder(lt) && IsSplit(x, limit)
    ensures SetUp(lt, Cut(x).version, 2, [x.newer], [], x.newer.smallest, x.newer.largest)
    ensures IsTrivial(lt, Cut(x).version, 2, [x.newer], [], maxGrandParentOverlapBytes)
    ensures MoveEdit(lt, Cut(x), Moved(x), 2, x.newer)
  {
    hide StrictlySorted, Edited;
    var before, after := Cut(x).version, Moved(x).version;
    MiddleLevels([], [x.newer, x.older], []);
    MiddleLevels([], [x.older], [x.newer]);
    NoneOrOneSorted(BySmallestKey<int, int>(lt), x.newer);
    NoneOrOneSorted(BySmallestKey<int, int>(lt), x.older);
    assert x.newer in [x.newer];
    forall l: nat, f: File<int, int> | l < NUM_LEVELS
      ensures f in after.levels[l] <==> (f in before.levels[l] || (l, f) in [(3, x.newer)]) && (l, f.number) !in {(2, 4)}
    {
    }
    EditedIf(lt, before, after, {(2, 4)}, [(3, x.newer)]);
  }

  lemma FilesHold(x: Split, limit: nat)
    requires IsSplit(x, limit)
    ensures LevelEntries([x.newer]) == {x.deletion} && LevelEntries([x.older]) == {x.value} && LevelEntries<int, int>([]) == {}
  {
    assert x.newer in [x.newer] && x.older in [x.older];
    assert x.deletion in x.newer.entries && x.value in x.older.entries;
  }

  /** The version that the move makes is not valid, though each of its levels may be searched. */
  lemma OlderStaysAbove(lt: (int, int) -> bool, x: Split, limit: nat)
    requires IsSplit(x, limit)
    ensures !ValidVersion(lt, Moved(x).version) && VersionGet.Searchable(lt, Moved(x).version)
  {
    hide LevelEntries;
    MiddleLevels([], [x.older], [x.newer]);
    FilesHold(x, limit);
    var v := Moved(x).version;
    assert x.value in LevelEntries(v.levels[2]) && x.deletion in LevelEntries(v.levels[3]);
    assert !NewerThan(LevelEntries(v.levels[2]), LevelEntries(v.levels[3]));
  }

  lemma ValueStops(x: Split, limit: nat)
    requires IsSplit(x, limit)
    ensures VersionGet.StopsAt(Moved(x).version, 1, 5, Some(x.value), 2) && Lookup(Moved(x).flushed, 1, 5) == None
  {
    hide Lookup;
    MiddleLevels([], [x.older], [x.newer]);
    FilesHold(x, limit);
    LookupNewest({x.value, x.deletion}, 1, 5, x.deletion);
  }

  /** A run that the picked levels, the sizes and a snapshot at 3 lead to reaches a level that splits a user key.
      The next move leaves a version where the deleted value is in front of its deletion. */
  lemma SplitKeyRevives(lt: (int, int) -> bool, x: Split, maxOutputFileSize: nat, maxGrandParentOverlapBytes: nat)
    requires TotalOrder(lt) && IsSplit(x, maxOutputFileSize)
    ensures IsRun(lt, [New(), ValueFlushed(x), DeletionFlushed(x), Cut(x)], [
      Flush(x.flushed.size, 2, [x.value]), Flush(x.later.size, 1, [x.deletion]),
      Compact(1, [x.later], x.later.smallest, x.later.largest, 3, [x.deletion, x.value], [x.newer, x.older])])
    ensures !IsTrivial(lt, DeletionFlushed(x).version, 1, [x.later], [x.flushed], maxGrandParentOverlapBytes)
    ensures SetUp(lt, Cut(x).version, 2, [x.newer], [], x.newer.smallest, x.newer.largest) && MoveEdit(lt, Cut(x), Moved(x), 2, x.newer)
    ensures IsTrivial(lt, Cut(x).version, 2, [x.newer], [], maxGrandParentOverlapBytes)
    ensures !LeavesNoOlder(Cut(x).version.levels[2], [x.newer]) && !ValidVersion(lt, Moved(x).version)
    ensures Lookup(Moved(x).flushed, 1, 5) == None && VersionGet.StopsAt(Moved(x).version, 1, 5, Some(x.value), 2)
  {
    hide TotalOrder, IsSplit, FlushStep, CompactStep, SetUp, IsTrivial, MoveEdit, Lookup, VersionGet.StopsAt, ValidVersion, ValidState, LeavesNoOlder;
    ValueGoesDown(lt, x, maxOutputFileSize);
    DeletionStaysAbove(lt, x, maxOutputFileSize);
    CutHappens(lt, x, maxOutputFileSize, maxGrandParentOverlapBytes);
    NewerMoves(lt, x, maxOutputFileSize, maxGrandParentOverlapBytes);
    OlderStaysAbove(lt, x, maxOutputFileSize);
    ValueStops(x, maxOutputFileSize);
    NewerLeavesOlder(x, maxOutputFileSize);
  }

  lemma NewerLeavesOlder(x: Split, limit: nat)
    requires IsSplit(x, limit)
    ensures !LeavesNoOlder(Cut(x).version.levels[2], [x.newer])
  {
    MiddleLevels([], [x.newer, x.older], []);
    assert x.newer in [x.newer] && x.older in Cut(x).version.levels[2] && x.older !in [x.newer];
    assert x.deletion in x.newer.entries && x.value in x.older.entries;
  }

  /** The search of the levels then returns the deleted value. */
  method ReadAfterMove(lt: (int, int) -> bool, ghost x: Split, v: Version<int, int>, ghost limit: nat) returns (result: Option<int>)
    requires TotalOrder(lt) && IsSplit(x, limit) && v == Moved(x).version
    ensures result == Some(9)
  {
    hide TotalOrder, VersionGet.Searchable, ValidVersion;
    OlderStaysAbove(lt, x, limit);
    ghost var r, n;
    result, r, n := VersionGet.SearchLevels(lt, v, 1, 5);
    OneAnswer(x, limit, r, n);
  }

  lemma OneAnswer(x: Split, limit: nat, r: Option<Entry<int, int>>, n: nat)
    requires IsSplit(x, limit) && VersionGet.StopsAt(Moved(x).version, 1, 5, r, n)
    ensures r == Some(x.value)
  {
    MiddleLevels([], [x.older], [x.newer]);
    FilesHold(x, limit);
    var v := Moved(x).version;
    assert x.value in LevelEntries(v.levels[2]) && Readable(x.value, 5);
    assert n <= 2;
  }
}
