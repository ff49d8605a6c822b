/** Background work (db/db_impl.cc, CompactMemTable and BackgroundCompaction; db/version_set.cc,
    MakeInputIterator and LogAndApply): each flush, move and compaction is a step of a run of versions. */
module Background {
  import opened Keys
  import opened Tables
  import opened Cursors
  import opened Merger
  import opened VersionOps
  import opened VersionBuilder
  import opened OutputCuts
  import opened Compactions
  import opened VersionRuns
  import opened VersionHistory
  import VersionGet

  ghost predicate NoRepeats<T(!new)>(files: seq<T>) {
    forall i, j | 0 <= i < j < |files| :: files[i] != files[j]
  }

  /** Picking the overlapping files keeps their order. */
  lemma {:induction false} OverlappingInOrder<K(!new), V(!new)>(lt: (K, K) -> bool, files: seq<File<K, V>>, begin: Option<K>, end: Option<K>)
    ensures NoRepeats(files) ==> NoRepeats(Overlapping(lt, files, begin, end))
    ensures SortedDisjoint(lt, files) ==> SortedDisjoint(lt, Overlapping(lt, files, begin, end))
  {
    if files != [] {
      var init, last := files[..|files| - 1], files[|files| - 1];
      OverlappingInOrder(lt, init, begin, end);
      var before := Overlapping(lt, init, begin, end);
      forall i: nat | i < |before|
        ensures (NoRepeats(files) ==> before[i] != last) && (SortedDisjoint(lt, files) ==> InternalLess(lt, before[i].largest, last.smallest))
      {
        assert before[i] in init;
        var j :| 0 <= j < |init| && init[j] == before[i];
        assert files[j] == before[i];
      }
    }
  }

  lemma InputsInOrder<K(!new), V(!new)>(lt: (K, K) -> bool, files: seq<File<K, V>>, picked: File<K, V>, inputs: seq<File<K, V>>)
    requires inputs == [picked] || InLevelOrder(lt, files, inputs)
    ensures NoRepeats(files) ==> NoRepeats(inputs)
    ensures SortedDisjoint(lt, files) ==> SortedDisjoint(lt, inputs)
  {
    if InLevelOrder(lt, files, inputs) {
      var begin: Option<K>, end: Option<K> :| inputs == Overlapping(lt, files, begin, end);
      OverlappingInOrder(lt, files, begin, end);
    }
  }

  /** The runs that a compaction merges: level-0 files one by one, the files of a deeper level end to end. */
  function InputRuns<K, V>(level: nat, inputs0: seq<File<K, V>>, inputs1: seq<File<K, V>>): seq<seq<Entry<K, V>>> {
    (if level == 0 then seq(|inputs0|, i requires 0 <= i < |inputs0| => inputs0[i].entries) else [Flatten(inputs0)])
    + if inputs1 == [] then [] else [Flatten(inputs1)]
  }

  /** The inputs of the two levels, in their order. */
  ghost predicate GoodInputs<K(!new), V(!new)>(lt: (K, K) -> bool, v: Version<K, V>, level: nat, inputs0: seq<File<K, V>>, inputs1: seq<File<K, V>>)
    ensures GoodInputs(lt, v, level, inputs0, inputs1) ==> |v.levels| == NUM_LEVELS && level + 1 < NUM_LEVELS
  {
    && |v.levels| == NUM_LEVELS && level + 1 < NUM_LEVELS
    && (forall f | f in inputs0 :: f in v.levels[level]) && (forall f | f in inputs1 :: f in v.levels[level + 1])
    && NoRepeats(inputs0) && (level > 0 ==> SortedDisjoint(lt, inputs0)) && SortedDisjoint(lt, inputs1)
  }

  /** Files in key order hold their entries in key order. */
  lemma {:induction false} FlattenSorted<K(!new), V(!new)>(lt: (K, K) -> bool, files: seq<File<K, V>>)
    requires TotalOrder(lt) && AllWellFormed(lt, files) && SortedDisjoint(lt, files)
    ensures Sorted(lt, Flatten(files))
  {
    if files != [] {
      var init, last := files[..|files| - 1], files[|files| - 1];
      FlattenSorted(lt, init);
      FlattenHolds(init);
      forall i: nat, j: nat | i < |Flatten(init)| && j < |last.entries|
        ensures InternalLess(lt, Flatten(init)[i].key, last.entries[j].key)
      {
        var e := Flatten(init)[i];
        assert e in LevelEntries(init);
        var f :| f in init && e in f.entries;
        var k :| 0 <= k < |init| && init[k] == f;
        assert InternalLess(lt, files[k].largest, last.smallest);
        WithinBounds(lt, f, e);
        WithinBounds(lt, last, last.entries[j]);
        Between(lt, e.key, f.largest, last.smallest, last.entries[j].key);
      }
      assert last in files;
      SortedJoin(lt, Flatten(init), last.entries);
    }
  }

  lemma SortedJoin<K(!new), V(!new)>(lt: (K, K) -> bool, a: seq<Entry<K, V>>, b: seq<Entry<K, V>>)
    requires Sorted(lt, a) && Sorted(lt, b) && forall i: nat, j: nat | i < |a| && j < |b| :: InternalLess(lt, a[i].key, b[j].key)
    ensures Sorted(lt, a + b)
  {
  }

  lemma Between<K(!new)>(lt: (K, K) -> bool, a: InternalKey<K>, b: InternalKey<K>, c: InternalKey<K>, d: InternalKey<K>)
    requires TotalOrder(lt) && !InternalLess(lt, b, a) && InternalLess(lt, b, c) && !InternalLess(lt, d, c)
    ensures InternalLess(lt, a, d)
  {
  }

  /** Different files of level 0 share no key, and neither do two levels. */
  lemma FilesShareNoKey<K(!new), V(!new)>(lt: (K, K) -> bool, v: Version<K, V>, f: File<K, V>, g: File<K, V>, e: Entry<K, V>, d: Entry<K, V>)
    requires ValidVersion(lt, v) && f in v.levels[0] && g in v.levels[0] && f != g && e in f.entries && d in g.entries
    ensures e.key != d.key
  {
    assert e in Elements(f.entries) && d in Elements(g.entries);
    if f.number > g.number {
      assert NewerThan(Elements(f.entries), Elements(g.entries));
    } else {
      assert NewerThan(Elements(g.entries), Elements(f.entries));
    }
  }

  lemma LevelsShareNoKey<K(!new), V(!new)>(lt: (K, K) -> bool, v: Version<K, V>, level: nat, e: Entry<K, V>, d: Entry<K, V>)
    requires ValidVersion(lt, v) && level + 1 < NUM_LEVELS && e in LevelEntries(v.levels[level]) && d in LevelEntries(v.levels[level + 1])
    ensures e.key != d.key
  {
    assert NewerThan(LevelEntries(v.levels[level]), LevelEntries(v.levels[level + 1]));
  }

  /** An entry of an upper run is in an input, and one of the lower run, if there is one, in one of the others. */
  lemma RunHolds<K(!new), V(!new)>(level: nat, inputs0: seq<File<K, V>>, inputs1: seq<File<K, V>>, i: nat, e: Entry<K, V>)
    requires i < |InputRuns(level, inputs0, inputs1)| && e in InputRuns(level, inputs0, inputs1)[i]
    ensures var upper := if level == 0 then |inputs0| else 1;
      if i < upper then e in LevelEntries(inputs0) && (level == 0 ==> e in inputs0[i].entries) else i == upper && e in LevelEntries(inputs1)
  {
    FlattenHolds(inputs0);
    FlattenHolds(inputs1);
    if level == 0 && i < |inputs0| {
      assert inputs0[i] in inputs0;
    } else {
      assert e in Elements(InputRuns(level, inputs0, inputs1)[i]);
    }
  }

  /** Together the runs hold the entries of the inputs. */
  lemma RunsHold<K(!new), V(!new)>(level: nat, inputs0: seq<File<K, V>>, inputs1: seq<File<K, V>>, e: Entry<K, V>)
    ensures e in LevelEntries(inputs0 + inputs1) <==>
      exists i :: 0 <= i < |InputRuns(level, inputs0, inputs1)| && e in InputRuns(level, inputs0, inputs1)[i]
  {
    var runs := InputRuns(level, inputs0, inputs1);
    var upper := if level == 0 then |inputs0| else 1;
    FlattenHolds(inputs0);
    FlattenHolds(inputs1);
    if e in LevelEntries(inputs0 + inputs1) {
      var f :| f in inputs0 + inputs1 && e in f.entries;
      if f in inputs0 {
        var i :| 0 <= i < |inputs0| && inputs0[i] == f;
        assert e in Elements(Flatten(inputs0));
        assert e in runs[if level == 0 then i else 0];
      } else {
        assert e in Elements(Flatten(inputs1));
        assert e in runs[upper];
      }
    }
    if i :| 0 <= i < |runs| && e in runs[i] {
      RunHolds(level, inputs0, inputs1, i, e);
      if i < upper {
        var f :| f in inputs0 && e in f.entries;
        assert f in inputs0 + inputs1;
      } else {
        var f :| f in inputs1 && e in f.entries;
        assert f in inputs0 + inputs1;
      }
    }
  }

  lemma RunsSorted<K(!new), V(!new)>(
      lt: (K, K) -> bool, v: Version<K, V>, level: nat, inputs0: seq<File<K, V>>, inputs1: seq<File<K, V>>, i: nat)
    requires TotalOrder(lt) && ValidVersion(lt, v) && GoodInputs(lt, v, level, inputs0, inputs1)
    requires i < |InputRuns(level, inputs0, inputs1)|
    ensures Sorted(lt, InputRuns(level, inputs0, inputs1)[i])
  {
    hide ValidVersion, TotalOrder, SortedDisjoint, NoRepeats;
    LevelIsValid(lt, v, level);
    LevelIsValid(lt, v, level + 1);
    FlattenSorted(lt, inputs1);
    if level > 0 {
      FlattenSorted(lt, inputs0);
    } else if i < |inputs0| {
      assert inputs0[i] in inputs0;
    }
  }

  lemma RunsShareNoKey<K(!new), V(!new)>(
      lt: (K, K) -> bool, v: Version<K, V>, level: nat, inputs0: seq<File<K, V>>, inputs1: seq<File<K, V>>, i: nat, k: nat, e: Entry<K, V>, d: Entry<K, V>)
    requires ValidVersion(lt, v) && GoodInputs(lt, v, level, inputs0, inputs1)
    requires i < k < |InputRuns(level, inputs0, inputs1)|
    requires e in InputRuns(level, inputs0, inputs1)[i] && d in InputRuns(level, inputs0, inputs1)[k]
    ensures e.key != d.key
  {
    hide ValidVersion, SortedDisjoint, InputRuns;
    var upper := if level == 0 then |inputs0| else 1;
    RunHolds(level, inputs0, inputs1, i, e);
    RunHolds(level, inputs0, inputs1, k, d);
    if k < upper {
      FilesShareNoKey(lt, v, inputs0[i], inputs0[k], e, d);
    } else {
      LevelsShareNoKey(lt, v, level, e, d);
    }
  }

  /** What interleaves the runs merges the inputs. */
  lemma RunsMerge<K(!new), V(!new)>(
      lt: (K, K) -> bool, level: nat, inputs0: seq<File<K, V>>, inputs1: seq<File<K, V>>, merged: seq<Entry<K, V>>, place: seq<seq<nat>>,
      owner: seq<(nat, nat)>)
    requires Interleaves(lt, InputRuns(level, inputs0, inputs1), merged, place, owner)
    ensures IsMerge(lt, inputs0 + inputs1, merged)
  {
    hide InputRuns, Sorted, LevelEntries;
    var runs := InputRuns(level, inputs0, inputs1);
    forall e ensures e in Elements(merged) <==> e in LevelEntries(inputs0 + inputs1) {
      RunsHold(level, inputs0, inputs1, e);
      if e in merged {
        var m :| 0 <= m < |merged| && merged[m] == e;
        var (i, j) := owner[m];
        assert merged[place[i][j]] == runs[i][j];
      }
      if i :| 0 <= i < |runs| && e in runs[i] {
        var j :| 0 <= j < |runs[i]| && runs[i][j] == e;
        assert merged[place[i][j]] == e;
      }
    }
  }

  /** The iterator over the entries of all inputs. */
  method MakeInputIterator<K(==, !new), V(!new)>(
      lt: (K, K) -> bool, ghost v: Version<K, V>, level: nat, inputs0: seq<File<K, V>>, inputs1: seq<File<K, V>>)
      returns (input: MergingIterator<K, V>)
    requires TotalOrder(lt) && ValidVersion(lt, v) && GoodInputs(lt, v, level, inputs0, inputs1)
    ensures fresh(input) && (forall k | 0 <= k < |input.children| :: fresh(input.children[k]))
    ensures input.Inv() && input.Ordered() && input.lt == lt && IsMerge(lt, inputs0 + inputs1, input.entries)
  {
    hide ValidVersion, GoodInputs, InputRuns, TotalOrder, Sorted, Interleaves;
    var runs := InputRuns(level, inputs0, inputs1);
    forall i: nat | i < |runs| ensures Sorted(lt, runs[i]) {
      RunsSorted(lt, v, level, inputs0, inputs1, i);
    }
    forall i, k, j, l | 0 <= i < k < |runs| && 0 <= j < |runs[i]| && 0 <= l < |runs[k]| ensures runs[i][j].key != runs[k][l].key {
      RunsShareNoKey(lt, v, level, inputs0, inputs1, i, k, runs[i][j], runs[k][l]);
    }
    ghost var merged, place, owner := InterleavingExists(lt, runs);
    RunsMerge(lt, level, inputs0, inputs1, merged, place, owner);
    var list: seq<Cursor<K, V>> := [];
    for i := 0 to |runs|
      invariant |list| == i && forall k, l | 0 <= k < l < i :: list[k] != list[l]
      invariant forall k | 0 <= k < i :: fresh(list[k]) && list[k].Inv() && list[k].lt == lt && list[k].entries == runs[k]
    {
      var c := new Cursor(lt, runs[i]);
      list := list + [c];
    }
    assert MergingIterator.RunsOf(list) == runs;
    input := new MergingIterator(lt, list, merged, place, owner);
  }

  /** The new files of an edit are new to their levels, are not deleted by it, and share no number with
      another file. */
  ghost predicate CleanEdit<K(!new), V(!new)>(v: Version<K, V>, deletions: set<(nat, nat)>, newFiles: seq<(nat, File<K, V>)>)
    requires |v.levels| == NUM_LEVELS
  {
    && (forall d | d in deletions :: d.0 < NUM_LEVELS)
    && (forall i | 0 <= i < |newFiles| :: newFiles[i].0 < NUM_LEVELS && (newFiles[i].0, newFiles[i].1.number) !in deletions)
    && (forall i, g | 0 <= i < |newFiles| && g in v.levels[newFiles[i].0] :: g.number != newFiles[i].1.number)
    && (forall i, m, g | 0 <= i < |newFiles| && 0 <= m < NUM_LEVELS && g in v.levels[m] && g.number == newFiles[i].1.number :: g == newFiles[i].1)
    && (forall i, j | 0 <= i < j < |newFiles| :: newFiles[i].1.number != newFiles[j].1.number)
  }

  ghost predicate IsKnown<K(!new), V(!new)>(v: Version<K, V>, newFiles: seq<(nat, File<K, V>)>, f: File<K, V>) {
    (exists l :: 0 <= l < |v.levels| && f in v.levels[l]) || exists i :: 0 <= i < |newFiles| && newFiles[i].1 == f
  }

  /** Known files with one number are one file. */
  lemma OneFileANumber<K(!new), V(!new)>(
      lt: (K, K) -> bool, v: Version<K, V>, nextFile: nat, deletions: set<(nat, nat)>, newFiles: seq<(nat, File<K, V>)>, f: File<K, V>, g: File<K, V>)
    requires |v.levels| == NUM_LEVELS && Numbered(lt, v, nextFile) && CleanEdit(v, deletions, newFiles)
    requires IsKnown(v, newFiles, f) && IsKnown(v, newFiles, g) && f.number == g.number
    ensures f == g
  {
    hide StrictlySorted;
  }

  lemma KnownInOrder<K(!new), V(!new)>(
      lt: (K, K) -> bool, v: Version<K, V>, nextFile: nat, deletions: set<(nat, nat)>, newFiles: seq<(nat, File<K, V>)>, known: iset<File<K, V>>)
    requires TotalOrder(lt) && |v.levels| == NUM_LEVELS && Numbered(lt, v, nextFile) && CleanEdit(v, deletions, newFiles)
    requires forall f :: f in known <==> IsKnown(v, newFiles, f)
    ensures OrderOn(BySmallestKey(lt), known)
  {
    hide Numbered, CleanEdit, IsKnown;
    forall f, g | f in known && g in known ensures FileLess(lt, f, g) || FileLess(lt, g, f) || f == g {
      if f.number == g.number {
        OneFileANumber(lt, v, nextFile, deletions, newFiles, f, g);
      }
      KeysCompare(lt, f.smallest, g.smallest);
    }
    forall f: File<K, V>, g: File<K, V>, h: File<K, V> | FileLess(lt, f, g) && FileLess(lt, g, h) ensures FileLess(lt, f, h) {
    }
  }

  lemma KeysCompare<K(!new)>(lt: (K, K) -> bool, a: InternalKey<K>, b: InternalKey<K>)
    requires TotalOrder(lt)
    ensures InternalLess(lt, a, b) || InternalLess(lt, b, a) || a == b
  {
  }

  lemma CleanIsHistory<K(!new), V(!new)>(
      lt: (K, K) -> bool, v: Version<K, V>, deletions: set<(nat, nat)>, newFiles: seq<(nat, File<K, V>)>, known: iset<File<K, V>>)
    requires |v.levels| == NUM_LEVELS && CleanEdit(v, deletions, newFiles) && forall f :: f in known <==> IsKnown(v, newFiles, f)
    ensures CleanHistory(known, Number<K, V>(), v.levels, [FileEdit(deletions, newFiles)])
    ensures forall l | 0 <= l < NUM_LEVELS :: AllKnown(known, v.levels[l])
  {
    hide CleanHistory;
    var number := Number<K, V>();
    OneEdit(known, number, v.levels, FileEdit(deletions, newFiles));
  }

  /** A history of one edit. */
  lemma OneEdit<F(!new)>(known: iset<F>, number: F -> nat, base: seq<seq<F>>, edit: FileEdit<F>)
    requires VersionBuilder.InRange(known, |base|, edit)
    requires forall i | 0 <= i < |edit.newFiles| :: (edit.newFiles[i].0, number(edit.newFiles[i].1)) !in edit.deletions
    requires forall i, g | 0 <= i < |edit.newFiles| && g in base[edit.newFiles[i].0] :: number(g) != number(edit.newFiles[i].1)
    requires forall i, j | 0 <= i < j < |edit.newFiles| :: number(edit.newFiles[i].1) != number(edit.newFiles[j].1)
    ensures CleanHistory(known, number, base, [edit])
  {
    var edits := [edit];
    forall i, j, l, f, g | 0 <= i <= j < |edits| && (l, f) in edits[i].newFiles && (l, g) in edits[j].newFiles && number(f) == number(g)
      ensures i == j && f == g
    {
      var a :| 0 <= a < |edit.newFiles| && edit.newFiles[a] == (l, f);
      var b :| 0 <= b < |edit.newFiles| && edit.newFiles[b] == (l, g);
    }
    forall i, l, f | 0 <= i < |edits| && (l, f) in edits[i].newFiles
      ensures (forall g | g in base[l] :: number(g) != number(f)) && (forall j | 0 <= j <= i :: (l, number(f)) !in edits[j].deletions)
    {
      var a :| 0 <= a < |edit.newFiles| && edit.newFiles[a] == (l, f);
    }
  }

  /** LogAndApply, as far as it makes the next version. */
  method LogAndApply<K(==, !new), V(==, !new)>(
      lt: (K, K) -> bool, v: Version<K, V>, ghost nextFile: nat, deletions: set<(nat, nat)>, newFiles: seq<(nat, File<K, V>)>)
      returns (after: Version<K, V>)
    requires TotalOrder(lt) && |v.levels| == NUM_LEVELS && Numbered(lt, v, nextFile) && CleanEdit(v, deletions, newFiles)
    ensures Edited(lt, v, after, deletions, newFiles)
  {
    hide CleanEdit, TotalOrder, CleanHistory, OrderOn, IsResult, StrictlySorted, AllKnown, IsKnown;
    ghost var known := iset f | IsKnown(v, newFiles, f);
    KnownInOrder(lt, v, nextFile, deletions, newFiles, known);
    CleanIsHistory(lt, v, deletions, newFiles, known);
    LevelsInOrder(lt, v, nextFile);
    var levels := ApplyOneByOne(BySmallestKey(lt), Number<K, V>(), v.levels, [FileEdit(deletions, newFiles)], known);
    after := Version(levels);
  }

  lemma LevelsInOrder<K(!new), V(!new)>(lt: (K, K) -> bool, v: Version<K, V>, nextFile: nat)
    requires |v.levels| == NUM_LEVELS && Numbered(lt, v, nextFile)
    ensures forall l | 0 <= l < NUM_LEVELS :: StrictlySorted(BySmallestKey(lt), v.levels[l])
  {
  }

  /** New files with numbers of their own make a clean edit. */
  lemma FreshIsClean<K(!new), V(!new)>(
      lt: (K, K) -> bool, v: Version<K, V>, nextFile: nat, deletions: set<(nat, nat)>, level: nat, files: seq<File<K, V>>)
    requires |v.levels| == NUM_LEVELS && Numbered(lt, v, nextFile) && Built(files, nextFile) && level < NUM_LEVELS
    requires (forall d | d in deletions :: d.0 < NUM_LEVELS) && forall f | f in files :: (level, f.number) !in deletions
    ensures CleanEdit(v, deletions, Additions(level, files))
  {
    hide StrictlySorted;
  }

  lemma MoveIsClean<K(!new), V(!new)>(lt: (K, K) -> bool, v: Version<K, V>, nextFile: nat, level: nat, f: File<K, V>)
    requires |v.levels| == NUM_LEVELS && Numbered(lt, v, nextFile) && level + 1 < NUM_LEVELS && f in v.levels[level]
    ensures CleanEdit(v, {(level, f.number)}, [(level + 1, f)])
  {
    hide StrictlySorted;
  }

  lemma OneFile<K(!new), V(!new)>(lt: (K, K) -> bool, number: nat, size: nat, entries: seq<Entry<K, V>>, level: nat)
    requires entries != []
    ensures var f := BuildTable(number, size, entries); Built([f], number) && Additions(level, [f]) == [(level, f)]
  {
  }

  lemma SequencesInRange<K(!new), V(!new)>(lt: (K, K) -> bool, s: State<K, V>)
    requires ValidState(lt, s)
    ensures VersionOps.InRange(s.version)
  {
    hide ValidVersion, ReadsAgree, Distinct;
    forall l: nat, f, i: nat | l < |s.version.levels| && f in s.version.levels[l] && i < |f.entries|
      ensures f.entries[i].key.seqno <= MAX_SEQUENCE
    {
      var e := f.entries[i];
      assert f in s.version.levels[l] && e in f.entries;
      assert e in LevelEntries(s.version.levels[l]);
      LevelEntriesInVersion(s.version, l);
    }
  }

  lemma SortedRepeatsNone<K(!new), V(!new)>(lt: (K, K) -> bool, files: seq<File<K, V>>)
    requires TotalOrder(lt) && StrictlySorted(BySmallestKey(lt), files)
    ensures NoRepeats(files)
  {
    var less := BySmallestKey<K, V>(lt);
    forall i, j | 0 <= i < j < |files| ensures files[i] != files[j] {
      assert less(files[i], files[j]);
      assert !FileLess(lt, files[i], files[i]);
    }
  }

  /** A level lists no file twice. */
  lemma LevelRepeatsNone<K(!new), V(!new)>(lt: (K, K) -> bool, v: Version<K, V>, nextFile: nat, l: nat)
    requires TotalOrder(lt) && |v.levels| == NUM_LEVELS && Numbered(lt, v, nextFile) && l < NUM_LEVELS
    ensures NoRepeats(v.levels[l])
  {
    LevelsInOrder(lt, v, nextFile);
    SortedRepeatsNone(lt, v.levels[l]);
  }

  /** AddInputDeletions. */
  method AddInputDeletions<K(!new), V(!new)>(level: nat, inputs0: seq<File<K, V>>, inputs1: seq<File<K, V>>) returns (deletions: set<(nat, nat)>)
    ensures deletions == Deletions(level, inputs0) + Deletions(level + 1, inputs1)
  {
    deletions := {};
    for i := 0 to |inputs0|
      invariant deletions == Deletions(level, inputs0[..i])
    {
      assert inputs0[..i + 1] == inputs0[..i] + [inputs0[i]];
      deletions := deletions + {(level, inputs0[i].number)};
    }
    assert inputs0[..|inputs0|] == inputs0;
    for i := 0 to |inputs1|
      invariant deletions == Deletions(level, inputs0) + Deletions(level + 1, inputs1[..i])
    {
      assert inputs1[..i + 1] == inputs1[..i] + [inputs1[i]];
      deletions := deletions + {(level + 1, inputs1[i].number)};
    }
    assert inputs1[..|inputs1|] == inputs1;
  }

  /** A lone input with nothing to merge it with and little that overlaps it two levels down. */
  ghost predicate IsTrivial<K(!new), V(!new)>(
      lt: (K, K) -> bool, v: Version<K, V>, level: nat, inputs0: seq<File<K, V>>, inputs1: seq<File<K, V>>, maxGrandParentOverlapBytes: nat)
    requires |v.levels| == NUM_LEVELS
  {
    && |inputs0| == 1 && inputs1 == []
    && (level + 2 < NUM_LEVELS ==>
          var f := inputs0[0];
          TotalFileSize(Overlapping(lt, v.levels[level + 2], Some(f.smallest.user), Some(f.largest.user))) <= maxGrandParentOverlapBytes)
  }

  lemma LoneRange<K(!new), V(!new)>(lt: (K, K) -> bool, f: File<K, V>, inputs: seq<File<K, V>>)
    requires TotalOrder(lt) && inputs == [f]
    ensures IsRange(lt, inputs, f.smallest, f.largest)
  {
    assert f in inputs;
  }

  /** The files two levels down that overlap the range of all inputs. */
  ghost predicate Grandparents<K(!new), V(!new)>(
      lt: (K, K) -> bool, v: Version<K, V>, level: nat, inputs: seq<File<K, V>>, grandparents: seq<File<K, V>>)
    requires |v.levels| == NUM_LEVELS
  {
    if level + 2 < NUM_LEVELS then LowerAre(lt, v.levels[level + 2], inputs, grandparents) else grandparents == []
  }

  lemma GrandparentsAre<K(!new), V(!new)>(
      lt: (K, K) -> bool, v: Version<K, V>, level: nat, inputs: seq<File<K, V>>, grandparents: seq<File<K, V>>)
    requires |v.levels| == NUM_LEVELS
    requires if level + 2 < NUM_LEVELS then LowerAre(lt, v.levels[level + 2], inputs, grandparents) else grandparents == []
    ensures Grandparents(lt, v, level, inputs, grandparents)
  {
  }

  lemma PickedFits<K(!new), V(!new)>(lt: (K, K) -> bool, v: Version<K, V>, smallest: K, largest: K, maxGrandParentOverlapBytes: nat, level: nat)
    requires |v.levels| == NUM_LEVELS && LevelForMemTable(lt, v, smallest, largest, maxGrandParentOverlapBytes, level)
    ensures level <= MAX_MEM_COMPACT_LEVEL && (level > 0 ==> forall l | 0 <= l <= level :: !OverlapInLevel(lt, v, l, smallest, largest))
  {
  }

  /** The current version and what it is made of. */
  class VersionSet<K(==, !new), V(==, !new)> {
    const lt: (K, K) -> bool
    var current: Version<K, V>
    var nextFile: nat
    // Everything flushed so far, the last of its sequence numbers, and the highest snapshot that a compaction
    // has taken for the smallest.
    ghost var flushed: set<Entry<K, V>>
    ghost var lastSequence: nat
    ghost var horizon: nat

    constructor (lt: (K, K) -> bool)
      requires TotalOrder(lt)
      ensures Valid() && this.lt == lt && flushed == {} && horizon == 0
    {
      this.lt, current, nextFile := lt, Version(seq(NUM_LEVELS, i => [])), 2;
      flushed, lastSequence, horizon := {}, 0, 0;
      new;
      InitIsValid(lt, State());
    }

    ghost function State(): State<K, V>
      reads this
    {
      VersionRuns.State(current, nextFile, flushed, lastSequence, horizon)
    }

    ghost predicate Valid()
      reads this
      ensures Valid() ==> |current.levels| == NUM_LEVELS
    {
      TotalOrder(lt) && ValidState(lt, State())
    }

    /** A memtable becomes a table at the level picked for it; reads then see its entries, too. */
    method CompactMemTable(imm: seq<Entry<K, V>>, size: nat, last: nat, maxGrandParentOverlapBytes: nat) returns (ghost level: nat)
      requires Valid() && Sorted(lt, imm) && lastSequence <= last <= MAX_SEQUENCE
      requires forall i | 0 <= i < |imm| :: imm[i].key.typ <= TYPE_VALUE && lastSequence < imm[i].key.seqno <= last
      modifies this
      ensures Valid() && flushed == old(flushed) + Elements(imm) && horizon == old(horizon)
      ensures imm != [] ==> FlushStep(lt, old(State()), State(), size, level, imm)
      ensures imm != [] ==> LevelForMemTable(lt, old(current), imm[0].key.user, imm[|imm| - 1].key.user, maxGrandParentOverlapBytes, level)
      ensures imm == [] ==> current == old(current)
    {
      hide TotalOrder, ValidState, Sorted, Numbered, LevelForMemTable;
      level := 0;
      var number := nextFile;
      StateParts(lt, State());
      if imm != [] {
        var file := BuildTable(number, size, imm);
        SequencesInRange(lt, State());
        var picked := PickLevelForMemTableOutput(lt, current, file.smallest.user, file.largest.user, maxGrandParentOverlapBytes);
        level := picked;
        PickedFits(lt, current, file.smallest.user, file.largest.user, maxGrandParentOverlapBytes, picked);
        OneFile(lt, number, size, imm, level);
        FreshIsClean(lt, current, number, {}, level, [file]);
        ghost var before := State();
        current := LogAndApply(lt, current, number, {}, [(picked, file)]);
        nextFile, flushed, lastSequence := nextFile + 1, flushed + Elements(imm), last;
        FlushKeeps(lt, before, State(), size, level, imm);
      } else {
        nextFile := nextFile + 1;
        UnusedNumber(lt, old(State()));
      }
    }

    /** However the levels have been flushed to, moved and compacted, a read at or after the horizon returns what
        a scan of everything ever flushed would. */
    method Get(userKey: K, snapshot: nat) returns (result: Option<V>)
      requires Valid() && horizon <= snapshot
      ensures result == Lookup(flushed, userKey, snapshot)
    {
      hide TotalOrder, ValidState, ValidVersion, Lookup;
      StateParts(lt, State());
      ghost var r;
      result, r := VersionGet.Get(lt, current, userKey, snapshot);
    }

    method IsTrivialMove(
        level: nat, inputs0: seq<File<K, V>>, inputs1: seq<File<K, V>>, grandparents: seq<File<K, V>>, maxGrandParentOverlapBytes: nat)
        returns (trivial: bool)
      requires TotalOrder(lt) && |current.levels| == NUM_LEVELS && Grandparents(lt, current, level, inputs0 + inputs1, grandparents)
      ensures trivial <==> IsTrivial(lt, current, level, inputs0, inputs1, maxGrandParentOverlapBytes)
    {
      hide TotalOrder, Overlapping, IsRange;
      trivial := |inputs0| == 1 && |inputs1| == 0 && TotalFileSize(grandparents) <= maxGrandParentOverlapBytes;
      if |inputs0| == 1 && inputs1 == [] {
        LoneRange(lt, inputs0[0], inputs0 + inputs1);
      }
    }

    /** One compaction of a picked file and what goes with it, or its move where that is trivial. Where the
        inputs leave nothing older it is a step of a run, so that the invariants and all reads at or after the
        horizon are kept. Outputs are cut where due. */
    method BackgroundCompaction(
        level: nat, picked: File<K, V>, smallestSnapshot: nat, expandedLimit: nat, maxGrandParentOverlapBytes: nat,
        fileSize: seq<Entry<K, V>> -> nat, maxOutputFileSize: nat)
        returns (ghost inputs0: seq<File<K, V>>, ghost inputs1: seq<File<K, V>>, ghost grandparents: seq<File<K, V>>, ghost action: Action<K, V>)
      requires Valid() && level + 1 < NUM_LEVELS && picked in current.levels[level] && smallestSnapshot < MAX_SEQUENCE
      modifies this
      ensures flushed == old(flushed) && lastSequence == old(lastSequence)
      ensures picked in inputs0 && ChosenInputs(lt, old(current), level, picked, expandedLimit, inputs0, inputs1)
      ensures Grandparents(lt, old(current), level, inputs0 + inputs1, grandparents)
      ensures if IsTrivial(lt, old(current), level, inputs0, inputs1, maxGrandParentOverlapBytes) then action == Action.Move(level, picked)
        else action.Compact? && action.level == level && action.inputs0 == inputs0 && action.smallestSnapshot == smallestSnapshot
      ensures action.Compact? ==>
        var stops := StopsOf(lt, grandparents, maxGrandParentOverlapBytes, action.merged);
        CutWhereDue(lt, action.merged, stops, fileSize, maxOutputFileSize, action.outputs)
      ensures LeaveNoOlder(old(current), level, inputs0, inputs1) ==> Next(lt, old(State()), action, State()) && Valid()
    {
      hide TotalOrder, ValidState, ValidVersion, Sorted, Numbered, ClosedInputs, LeavesNoOlder, IsRange, InLevelOrder, MayGrowTo, GrowInputs, LowerAre, CutWhereDue;
      hide StopsOf, Overlapping, TotalFileSize, Flatten, BuildTable, Elements;
      StateParts(lt, State());
      var inputs := PickInputs(lt, current, level, picked);
      ghost var wider;
      var in0, in1, smallest, largest, nextLevel;
      in0, in1, smallest, largest, nextLevel, wider := SetupOtherInputs(lt, current, level, inputs, expandedLimit);
      inputs0, inputs1, grandparents := in0, in1, nextLevel;
      GrandparentsAre(lt, current, level, in0 + in1, nextLevel);
      var trivial := IsTrivialMove(level, in0, in1, nextLevel, maxGrandParentOverlapBytes);
      if trivial {
        MoveFile(level, in0[0], in0, smallest, largest);
        action := Action.Move(level, picked);
      } else {
        OverlappingIsInOrder(lt, current.levels[level + 1], Some(smallest.user), Some(largest.user));
        PickedInOrder(lt, current, nextFile, level, picked, inputs, in0, in1);
        ghost var merged, outputs := CompactFiles(
          level, in0, in1, nextLevel, smallest, largest, smallestSnapshot, maxGrandParentOverlapBytes, fileSize, maxOutputFileSize);
        action := Compact(level, in0, smallest, largest, smallestSnapshot, merged, outputs);
      }
    }

    /** The lone input goes a level down as it is. */
    method MoveFile(level: nat, f: File<K, V>, ghost inputs0: seq<File<K, V>>, ghost smallest: InternalKey<K>, ghost largest: InternalKey<K>)
      requires Valid() && level + 1 < NUM_LEVELS && f in current.levels[level] && inputs0 == [f] && IsRange(lt, inputs0, smallest, largest)
      requires level == 0 ==> ClosedInputs(lt, current.levels[0], inputs0)
      requires Overlapping(lt, current.levels[level + 1], Some(smallest.user), Some(largest.user)) == []
      modifies this
      ensures flushed == old(flushed) && lastSequence == old(lastSequence)
      ensures LeaveNoOlder(old(current), level, inputs0, []) ==> MoveStep(lt, old(State()), State(), level, f) && Valid()
    {
      hide TotalOrder, ValidState, ValidVersion, Numbered, ClosedInputs, LeavesNoOlder, CleanEdit, Edited, Inputs;
      StateParts(lt, State());
      MoveIsClean(lt, current, nextFile, level, f);
      ghost var before := State();
      current := LogAndApply(lt, current, nextFile, {(level, f.number)}, [(level + 1, f)]);
      if LeaveNoOlder(before.version, level, inputs0, []) {
        LoneInputs(lt, before.version, level, f, inputs0, smallest, largest);
        MoveKeeps(lt, before, State(), level, f);
      }
    }

    /** Merges the inputs through the compaction loop and puts what it writes in their place. */
    method CompactFiles(
        level: nat, inputs0: seq<File<K, V>>, inputs1: seq<File<K, V>>, grandparents: seq<File<K, V>>, ghost smallest: InternalKey<K>,
        ghost largest: InternalKey<K>, smallestSnapshot: nat, maxGrandParentOverlapBytes: nat, fileSize: seq<Entry<K, V>> -> nat,
        maxOutputFileSize: nat) returns (ghost merged: seq<Entry<K, V>>, ghost written: seq<File<K, V>>)
      requires Valid() && GoodInputs(lt, current, level, inputs0, inputs1) && inputs0 != [] && IsRange(lt, inputs0, smallest, largest)
      requires level == 0 ==> ClosedInputs(lt, current.levels[0], inputs0)
      requires inputs1 == Overlapping(lt, current.levels[level + 1], Some(smallest.user), Some(largest.user))
      requires smallestSnapshot < MAX_SEQUENCE
      modifies this
      ensures flushed == old(flushed) && lastSequence == old(lastSequence)
      ensures CutWhereDue(lt, merged, StopsOf(lt, grandparents, maxGrandParentOverlapBytes, merged), fileSize, maxOutputFileSize, written)
      ensures LeaveNoOlder(old(current), level, inputs0, inputs1) ==>
        CompactStep(lt, old(State()), State(), level, inputs0, smallest, largest, smallestSnapshot, merged, written) && Valid()
    {
      hide TotalOrder, ValidState, ValidVersion, Numbered, ClosedInputs, LeavesNoOlder, CleanEdit, Edited, Inputs, IsMerge, Built, Kept, Flatten;
      hide Compaction.Inv, MergingIterator.Inv, MergingIterator.Ordered, IsRange, GoodInputs, CutWhereDue, StopsOf;
      StateParts(lt, State());
      var c := new Compaction(lt, current, level, grandparents, maxGrandParentOverlapBytes);
      var input := MakeInputIterator(lt, current, level, inputs0, inputs1);
      var outputs := DoCompactionWork(c, input, smallestSnapshot, nextFile, fileSize, maxOutputFileSize);
      var deletions := AddInputDeletions(level, inputs0, inputs1);
      OutputsAreClean(lt, current, nextFile, level, inputs0, inputs1, outputs);
      ghost var before := State();
      current := LogAndApply(lt, current, nextFile, deletions, Additions(level + 1, outputs));
      nextFile := nextFile + |outputs|;
      horizon := if horizon < smallestSnapshot then smallestSnapshot else horizon;
      merged, written := input.entries, outputs;
      if LeaveNoOlder(before.version, level, inputs0, inputs1) {
        InputsLeaveNoOlder(lt, before.version, level, inputs0, inputs1, smallest, largest);
        CompactKeeps(lt, before, State(), level, inputs0, smallest, largest, smallestSnapshot, merged, written);
      }
    }
  }

  /** The inputs leave nothing older in their levels. */
  ghost predicate LeaveNoOlder<K(!new), V(!new)>(v: Version<K, V>, level: nat, inputs0: seq<File<K, V>>, inputs1: seq<File<K, V>>)
    requires level + 1 < |v.levels|
  {
    (level > 0 ==> LeavesNoOlder(v.levels[level], inputs0)) && LeavesNoOlder(v.levels[level + 1], inputs1)
  }

  lemma InputsLeaveNoOlder<K(!new), V(!new)>(
      lt: (K, K) -> bool, v: Version<K, V>, level: nat, inputs0: seq<File<K, V>>, inputs1: seq<File<K, V>>, smallest: InternalKey<K>,
      largest: InternalKey<K>)
    requires GoodInputs(lt, v, level, inputs0, inputs1) && inputs0 != [] && IsRange(lt, inputs0, smallest, largest)
    requires level == 0 ==> ClosedInputs(lt, v.levels[0], inputs0)
    requires inputs1 == Overlapping(lt, v.levels[level + 1], Some(smallest.user), Some(largest.user))
    requires LeaveNoOlder(v, level, inputs0, inputs1)
    ensures Inputs(lt, v, level, inputs0, inputs1, smallest, largest)
  {
  }

  lemma LoneInputs<K(!new), V(!new)>(
      lt: (K, K) -> bool, v: Version<K, V>, level: nat, f: File<K, V>, inputs0: seq<File<K, V>>, smallest: InternalKey<K>, largest: InternalKey<K>)
    requires |v.levels| == NUM_LEVELS && level + 1 < NUM_LEVELS && f in v.levels[level] && inputs0 == [f]
    requires IsRange(lt, inputs0, smallest, largest) && (level == 0 ==> ClosedInputs(lt, v.levels[0], inputs0))
    requires Overlapping(lt, v.levels[level + 1], Some(smallest.user), Some(largest.user)) == [] && LeaveNoOlder(v, level, inputs0, [])
    ensures Inputs(lt, v, level, [f], [], f.smallest, f.largest)
  {
    hide LeavesNoOlder, ClosedInputs, Overlapping;
    assert f in inputs0;
    assert smallest == f.smallest && largest == f.largest;
  }

  /** The inputs of both levels are in the order of their levels. */
  lemma PickedInOrder<K(!new), V(!new)>(
      lt: (K, K) -> bool, v: Version<K, V>, nextFile: nat, level: nat, picked: File<K, V>, inputs: seq<File<K, V>>, inputs0: seq<File<K, V>>,
      inputs1: seq<File<K, V>>)
    requires TotalOrder(lt) && ValidVersion(lt, v) && Numbered(lt, v, nextFile) && level + 1 < NUM_LEVELS
    requires (forall f | f in inputs0 :: f in v.levels[level]) && (inputs == [picked] || InLevelOrder(lt, v.levels[level], inputs))
    requires (inputs0 == inputs || InLevelOrder(lt, v.levels[level], inputs0)) && InLevelOrder(lt, v.levels[level + 1], inputs1)
    ensures GoodInputs(lt, v, level, inputs0, inputs1)
  {
    hide TotalOrder, ValidVersion, Numbered, InLevelOrder, NoRepeats, SortedDisjoint;
    LevelRepeatsNone(lt, v, nextFile, level);
    LevelIsValid(lt, v, level);
    LevelIsValid(lt, v, level + 1);
    InputsInOrder(lt, v.levels[level], picked, inputs0);
    InputsInOrder(lt, v.levels[level + 1], picked, inputs1);
    OfLevel(lt, v.levels[level + 1], inputs1);
  }

  lemma OverlappingIsInOrder<K(!new), V(!new)>(lt: (K, K) -> bool, files: seq<File<K, V>>, begin: Option<K>, end: Option<K>)
    ensures InLevelOrder(lt, files, Overlapping(lt, files, begin, end))
  {
  }

  lemma OfLevel<K(!new), V(!new)>(lt: (K, K) -> bool, files: seq<File<K, V>>, inputs: seq<File<K, V>>)
    requires InLevelOrder(lt, files, inputs)
    ensures forall f | f in inputs :: f in files
  {
  }

  lemma OutputsAreClean<K(!new), V(!new)>(
      lt: (K, K) -> bool, v: Version<K, V>, nextFile: nat, level: nat, inputs0: seq<File<K, V>>, inputs1: seq<File<K, V>>, outputs: seq<File<K, V>>)
    requires GoodInputs(lt, v, level, inputs0, inputs1) && Numbered(lt, v, nextFile) && Built(outputs, nextFile)
    ensures CleanEdit(v, Deletions(level, inputs0) + Deletions(level + 1, inputs1), Additions(level + 1, outputs))
  {
    hide Numbered, CleanEdit, Built, SortedDisjoint, NoRepeats;
    FreshNotDeleted(lt, v, nextFile, level, inputs0, inputs1, outputs);
    FreshIsClean(lt, v, nextFile, Deletions(level, inputs0) + Deletions(level + 1, inputs1), level + 1, outputs);
  }

  /** What a state's validity gives its version. */
  lemma StateParts<K(!new), V(!new)>(lt: (K, K) -> bool, s: State<K, V>)
    requires ValidState(lt, s)
    ensures ValidVersion(lt, s.version) && Numbered(lt, s.version, s.nextFile)
    ensures forall k, snapshot | s.horizon <= snapshot :: Lookup(VersionEntries(s.version), k, snapshot) == Lookup(s.flushed, k, snapshot)
  {
  }

  lemma UnusedNumber<K(!new), V(!new)>(lt: (K, K) -> bool, s: State<K, V>)
    requires ValidState(lt, s)
    ensures ValidState(lt, s.(nextFile := s.nextFile + 1))
  {
    hide ValidVersion, ReadsAgree, Distinct, StrictlySorted;
  }
}
