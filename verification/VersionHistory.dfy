/** Every run of flushes, moves and compactions keeps the level invariants and the answers of reads. */
module VersionHistory {
  import opened Keys
  import opened Tables
  import opened VersionOps
  import opened VersionBuilder
  import opened Compactions
  import opened VersionRuns

  /** The new files of a move or compaction hold nothing but entries of its inputs, in ranges of their own. */
  ghost predicate FromInputs<K(!new), V(!new)>(
      lt: (K, K) -> bool, inputs0: seq<File<K, V>>, inputs1: seq<File<K, V>>, news: seq<File<K, V>>) {
    && AllWellFormed(lt, news) && PairwiseApart(lt, news)
    && LevelEntries(news) <= LevelEntries(inputs0 + inputs1)
  }

  lemma InputFile<K(!new), V(!new)>(
      lt: (K, K) -> bool, v: Version<K, V>, level: nat, inputs0: seq<File<K, V>>, inputs1: seq<File<K, V>>,
      smallest: InternalKey<K>, largest: InternalKey<K>, f: File<K, V>)
    requires TotalOrder(lt) && ValidVersion(lt, v) && Inputs(lt, v, level, inputs0, inputs1, smallest, largest)
    requires f in inputs0 + inputs1
    ensures f in inputs0 ==> f in v.levels[level]
    ensures f in inputs1 ==> f in v.levels[level + 1]
    ensures WellFormed(lt, f)
    ensures Overlaps(lt, f, Some(smallest.user), Some(largest.user))
  {
    hide ValidVersion, LeavesNoOlder, ClosedInputs;
    LevelIsValid(lt, v, level);
    LevelIsValid(lt, v, level + 1);
    if f in inputs0 {
      WithinBounds(lt, f, f.entries[0]);
    }
  }

  /** Entries of the upper inputs lie in their user-key range. */
  lemma InputInRange<K(!new), V(!new)>(
      lt: (K, K) -> bool, v: Version<K, V>, level: nat, inputs0: seq<File<K, V>>, inputs1: seq<File<K, V>>,
      smallest: InternalKey<K>, largest: InternalKey<K>, f: File<K, V>, e: Entry<K, V>)
    requires TotalOrder(lt) && ValidVersion(lt, v) && Inputs(lt, v, level, inputs0, inputs1, smallest, largest)
    requires f in inputs0 && e in f.entries
    ensures !lt(e.key.user, smallest.user) && !lt(largest.user, e.key.user)
  {
    hide ValidVersion, LeavesNoOlder, ClosedInputs;
    InputFile(lt, v, level, inputs0, inputs1, smallest, largest, f);
    WithinBounds(lt, f, e);
  }

  /** A file of the lower level that is no input lies before or after each input entry, on the side where it
      lies of the range. */
  lemma BesideInput<K(!new), V(!new)>(
      lt: (K, K) -> bool, v: Version<K, V>, level: nat, inputs0: seq<File<K, V>>, inputs1: seq<File<K, V>>,
      smallest: InternalKey<K>, largest: InternalKey<K>, g: File<K, V>, f: File<K, V>, e: Entry<K, V>)
    requires TotalOrder(lt) && ValidVersion(lt, v) && Inputs(lt, v, level, inputs0, inputs1, smallest, largest)
    requires g in v.levels[level + 1] && g !in inputs1 && f in inputs0 + inputs1 && e in f.entries
    ensures lt(g.largest.user, smallest.user) ==> InternalLess(lt, g.largest, e.key)
    ensures lt(largest.user, g.smallest.user) ==> InternalLess(lt, e.key, g.smallest)
  {
    hide ValidVersion, LeavesNoOlder, ClosedInputs, IsRange;
    InputFile(lt, v, level, inputs0, inputs1, smallest, largest, f);
    WithinBounds(lt, f, e);
    if f in inputs0 {
      InputInRange(lt, v, level, inputs0, inputs1, smallest, largest, f, e);
    } else {
      LevelIsValid(lt, v, level + 1);
      SortedDisjointIsApart(lt, v.levels[level + 1]);
      WithinBounds(lt, g, g.entries[0]);
      assert Apart(lt, f, g);
    }
  }

  /** New files stay apart from what else their level holds. */
  lemma NewsApart<K(!new), V(!new)>(
      lt: (K, K) -> bool, v: Version<K, V>, level: nat, inputs0: seq<File<K, V>>, inputs1: seq<File<K, V>>,
      smallest: InternalKey<K>, largest: InternalKey<K>, news: seq<File<K, V>>, f: File<K, V>, g: File<K, V>)
    requires TotalOrder(lt) && ValidVersion(lt, v) && Inputs(lt, v, level, inputs0, inputs1, smallest, largest)
    requires FromInputs(lt, inputs0, inputs1, news) && f in news && g in v.levels[level + 1] && g !in inputs1
    ensures Apart(lt, f, g)
  {
    hide ValidVersion, IsRange, LeavesNoOlder, ClosedInputs, TotalOrder, PairwiseApart, Sorted;
    assert !Overlaps(lt, g, Some(smallest.user), Some(largest.user));
    var first, last := f.entries[0], f.entries[|f.entries| - 1];
    assert first in f.entries && last in f.entries;
    assert {first, last} <= LevelEntries(news);
    var a :| a in inputs0 + inputs1 && first in a.entries;
    var b :| b in inputs0 + inputs1 && last in b.entries;
    BesideInput(lt, v, level, inputs0, inputs1, smallest, largest, g, a, first);
    BesideInput(lt, v, level, inputs0, inputs1, smallest, largest, g, b, last);
  }

  /** Input entries are older than what stays in their levels or above. */
  lemma StaysNewer<K(!new), V(!new)>(
      lt: (K, K) -> bool, v: Version<K, V>, level: nat, inputs0: seq<File<K, V>>, inputs1: seq<File<K, V>>,
      smallest: InternalKey<K>, largest: InternalKey<K>, l: nat, g: File<K, V>, d: Entry<K, V>, f: File<K, V>, e: Entry<K, V>)
    requires TotalOrder(lt) && ValidVersion(lt, v) && Inputs(lt, v, level, inputs0, inputs1, smallest, largest)
    requires l <= level + 1 && g in v.levels[l] && d in g.entries && f in inputs0 + inputs1 && e in f.entries
    requires (l == level ==> g !in inputs0) && (l == level + 1 ==> g !in inputs1)
    requires d.key.user == e.key.user
    ensures d.key.Tag() > e.key.Tag()
  {
    hide SortedDisjoint, WellFormed, IsRange, Overlaps, ClosedInputs, TotalOrder;
    assert d in LevelEntries(v.levels[l]);
    InputFile(lt, v, level, inputs0, inputs1, smallest, largest, f);
    UpperLeavesNoOlder(lt, v, level, inputs0, inputs1, smallest, largest);
    if f in inputs0 {
      assert e in LevelEntries(v.levels[level]);
      assert l < level ==> NewerThan(LevelEntries(v.levels[l]), LevelEntries(v.levels[level]));
      if l == level + 1 {
        LowerSharesNone(lt, v, level, inputs0, inputs1, smallest, largest, g, d, f, e);
        assert false;
      }
    } else {
      assert e in LevelEntries(v.levels[level + 1]);
      assert l <= level ==> NewerThan(LevelEntries(v.levels[l]), LevelEntries(v.levels[level + 1]));
    }
  }

  lemma UpperLeavesNoOlder<K(!new), V(!new)>(
      lt: (K, K) -> bool, v: Version<K, V>, level: nat, inputs0: seq<File<K, V>>, inputs1: seq<File<K, V>>,
      smallest: InternalKey<K>, largest: InternalKey<K>)
    requires TotalOrder(lt) && ValidVersion(lt, v) && Inputs(lt, v, level, inputs0, inputs1, smallest, largest)
    ensures LeavesNoOlder(v.levels[level], inputs0)
  {
    hide ClosedInputs, ValidVersion, IsRange, TotalOrder, LeavesNoOlder;
    LevelIsValid(lt, v, level);
    if level == 0 {
      ClosedLeavesNoOlder(lt, v.levels[0], inputs0);
    }
  }

  /** A lower file that is no input shares no user key with the upper inputs. */
  lemma LowerSharesNone<K(!new), V(!new)>(
      lt: (K, K) -> bool, v: Version<K, V>, level: nat, inputs0: seq<File<K, V>>, inputs1: seq<File<K, V>>,
      smallest: InternalKey<K>, largest: InternalKey<K>, g: File<K, V>, d: Entry<K, V>, f: File<K, V>, e: Entry<K, V>)
    requires TotalOrder(lt) && ValidVersion(lt, v) && Inputs(lt, v, level, inputs0, inputs1, smallest, largest)
    requires g in v.levels[level + 1] && g !in inputs1 && d in g.entries && f in inputs0 && e in f.entries
    ensures d.key.user != e.key.user
  {
    hide ClosedInputs, ValidVersion, IsRange, TotalOrder, LeavesNoOlder;
    InputInRange(lt, v, level, inputs0, inputs1, smallest, largest, f, e);
    LevelIsValid(lt, v, level + 1);
    if d.key.user == e.key.user {
      HoldsOverlaps(lt, g, d, Some(smallest.user), Some(largest.user));
    }
  }

  /** `after` loses the inputs and gains `news` one level down. */
  ghost predicate Pushes<K(!new), V(!new)>(
      lt: (K, K) -> bool, v: Version<K, V>, after: Version<K, V>, level: nat, inputs0: seq<File<K, V>>, inputs1: seq<File<K, V>>,
      smallest: InternalKey<K>, largest: InternalKey<K>, news: seq<File<K, V>>)
    ensures Pushes(lt, v, after, level, inputs0, inputs1, smallest, largest, news) ==>
      |v.levels| == |after.levels| == NUM_LEVELS && level + 1 < NUM_LEVELS
  {
    && Inputs(lt, v, level, inputs0, inputs1, smallest, largest) && FromInputs(lt, inputs0, inputs1, news)
    && Replaces(lt, v, after, Deletions(level, inputs0) + Deletions(level + 1, inputs1), level + 1, news)
  }

  /** What is left beside the new files was there before and is no input. */
  lemma LeftFile<K(!new), V(!new)>(
      lt: (K, K) -> bool, v: Version<K, V>, after: Version<K, V>, level: nat, inputs0: seq<File<K, V>>, inputs1: seq<File<K, V>>,
      smallest: InternalKey<K>, largest: InternalKey<K>, news: seq<File<K, V>>, l: nat, g: File<K, V>)
    requires Pushes(lt, v, after, level, inputs0, inputs1, smallest, largest, news)
    requires l < NUM_LEVELS && g in after.levels[l] && (l == level + 1 ==> g !in news)
    ensures g in v.levels[l] && (l == level ==> g !in inputs0) && (l == level + 1 ==> g !in inputs1)
  {
    hide Inputs, FromInputs, StrictlySorted;
    var deletions := Deletions(level, inputs0) + Deletions(level + 1, inputs1);
    assert (l, g.number) !in deletions;
  }

  /** Everything left above is newer than the new files. */
  lemma PushedIsOlder<K(!new), V(!new)>(
      lt: (K, K) -> bool, v: Version<K, V>, after: Version<K, V>, level: nat, inputs0: seq<File<K, V>>, inputs1: seq<File<K, V>>,
      smallest: InternalKey<K>, largest: InternalKey<K>, news: seq<File<K, V>>, l: nat)
    requires TotalOrder(lt) && ValidVersion(lt, v) && Pushes(lt, v, after, level, inputs0, inputs1, smallest, largest, news) && l <= level
    ensures NewerThan(LevelEntries(after.levels[l]), LevelEntries(news))
  {
    hide ValidVersion, TotalOrder, Inputs, Replaces, AllWellFormed, PairwiseApart;
    forall d, e | d in LevelEntries(after.levels[l]) && e in LevelEntries(news) && d.key.user == e.key.user
      ensures d.key.Tag() > e.key.Tag()
    {
      var g :| g in after.levels[l] && d in g.entries;
      LeftFile(lt, v, after, level, inputs0, inputs1, smallest, largest, news, l, g);
      var f :| f in inputs0 + inputs1 && e in f.entries;
      StaysNewer(lt, v, level, inputs0, inputs1, smallest, largest, l, g, d, f, e);
    }
  }

  /** The new files are newer than all that lies deeper. */
  lemma PushedIsNewer<K(!new), V(!new)>(
      lt: (K, K) -> bool, v: Version<K, V>, after: Version<K, V>, level: nat, inputs0: seq<File<K, V>>, inputs1: seq<File<K, V>>,
      smallest: InternalKey<K>, largest: InternalKey<K>, news: seq<File<K, V>>, m: nat)
    requires TotalOrder(lt) && ValidVersion(lt, v) && Pushes(lt, v, after, level, inputs0, inputs1, smallest, largest, news)
    requires level + 1 < m < NUM_LEVELS
    ensures NewerThan(LevelEntries(news), LevelEntries(after.levels[m]))
  {
    hide TotalOrder, Inputs, Replaces, AllWellFormed, PairwiseApart, WellFormed, SortedDisjoint;
    forall d, e | d in LevelEntries(after.levels[m]) && e in LevelEntries(news) && d.key.user == e.key.user
      ensures e.key.Tag() > d.key.Tag()
    {
      var g :| g in after.levels[m] && d in g.entries;
      LeftFile(lt, v, after, level, inputs0, inputs1, smallest, largest, news, m, g);
      assert d in LevelEntries(v.levels[m]);
      var f :| f in inputs0 + inputs1 && e in f.entries;
      InputFile(lt, v, level, inputs0, inputs1, smallest, largest, f);
      var l := if f in inputs0 then level else level + 1;
      assert e in LevelEntries(v.levels[l]);
      assert NewerThan(LevelEntries(v.levels[l]), LevelEntries(v.levels[m]));
    }
  }

  lemma PushFits<K(!new), V(!new)>(
      lt: (K, K) -> bool, v: Version<K, V>, after: Version<K, V>, level: nat, inputs0: seq<File<K, V>>, inputs1: seq<File<K, V>>,
      smallest: InternalKey<K>, largest: InternalKey<K>, news: seq<File<K, V>>)
    requires TotalOrder(lt) && ValidVersion(lt, v) && Pushes(lt, v, after, level, inputs0, inputs1, smallest, largest, news)
    ensures Fits(lt, after, level + 1, news)
  {
    hide ValidVersion, TotalOrder, Inputs, Replaces, AllWellFormed, NewerThan, Apart, LevelEntries;
    forall f, g | f in news && g in after.levels[level + 1] && f != g ensures Apart(lt, f, g) {
      if g !in news {
        LeftFile(lt, v, after, level, inputs0, inputs1, smallest, largest, news, level + 1, g);
        NewsApart(lt, v, level, inputs0, inputs1, smallest, largest, news, f, g);
      }
    }
    forall l | 0 <= l <= level ensures NewerThan(LevelEntries(after.levels[l]), LevelEntries(news)) {
      PushedIsOlder(lt, v, after, level, inputs0, inputs1, smallest, largest, news, l);
    }
    forall m | level + 1 < m < NUM_LEVELS ensures NewerThan(LevelEntries(news), LevelEntries(after.levels[m])) {
      PushedIsNewer(lt, v, after, level, inputs0, inputs1, smallest, largest, news, m);
    }
  }

  lemma {:induction false} FlattenHolds<K(!new), V(!new)>(files: seq<File<K, V>>)
    ensures Elements(Flatten(files)) == LevelEntries(files)
  {
    if files != [] {
      var init, last := files[..|files| - 1], files[|files| - 1];
      FlattenHolds(init);
      assert forall f :: f in files <==> f in init || f == last;
      assert LevelEntries(files) == LevelEntries(init) + Elements(last.entries);
      assert Flatten(files) == Flatten(init) + last.entries;
      assert Elements(Flatten(files)) == Elements(Flatten(init)) + Elements(last.entries);
    }
  }

  /** Cutting a sorted list gives well-formed files that are apart. */
  lemma {:induction false} CutIsApart<K(!new), V(!new)>(lt: (K, K) -> bool, files: seq<File<K, V>>, first: nat, i: nat, j: nat)
    requires TotalOrder(lt) && Built(files, first) && Sorted(lt, Flatten(files)) && i < j < |files|
    ensures InternalLess(lt, files[i].largest, files[j].smallest)
  {
    hide TotalOrder;
    var all := Flatten(files);
    assert files[..|files|] == files;
    FlattenSegment(files, i, |files|);
    FlattenSegment(files, j, |files|);
    FlattenSegment(files, i, j);
    var a, b := |Flatten(files[..i])|, |Flatten(files[..j])|;
    var n := |files[i].entries|;
    assert all[a..a + n][n - 1] == all[a + n - 1];
    assert all[b..b + |files[j].entries|][0] == all[b];
    var last := a + n - 1;
    assert InternalLess(lt, all[last].key, all[b].key);
  }

  lemma {:induction false} CutIsWellFormed<K(!new), V(!new)>(lt: (K, K) -> bool, files: seq<File<K, V>>, first: nat, i: nat)
    requires Built(files, first) && Sorted(lt, Flatten(files)) && i < |files|
    requires forall e | e in Flatten(files) :: e.key.typ <= TYPE_VALUE
    ensures WellFormed(lt, files[i])
  {
    var all, es := Flatten(files), files[i].entries;
    assert files[..|files|] == files;
    FlattenSegment(files, i, |files|);
    var a := |Flatten(files[..i])|;
    assert all[a..a + |es|] == es;
    forall j | 0 <= j < |es| ensures es[j].key.typ <= TYPE_VALUE {
      assert all[a..a + |es|][j] == all[a + j];
      assert all[a + j] in all;
    }
    forall j, k | 0 <= j < k < |es| ensures InternalLess(lt, es[j].key, es[k].key) {
      var x, y := a + j, a + k;
      assert all[a..a + |es|][j] == all[x] && all[a..a + |es|][k] == all[y];
      assert InternalLess(lt, all[x].key, all[y].key);
    }
    BuiltIsWellFormed(lt, first + i, files[i].size, es);
  }

  /** Keeping part of a sorted list keeps it sorted. */
  lemma {:induction false} KeptIsSorted<K(!new), V(!new)>(
      lt: (K, K) -> bool, v: Version<K, V>, level: nat, es: seq<Entry<K, V>>, smallestSnapshot: nat, n: nat)
    requires |v.levels| == NUM_LEVELS && Sorted(lt, es) && n <= |es|
    ensures Sorted(lt, Kept(lt, v, level, es, smallestSnapshot, n))
    ensures forall e | e in Kept(lt, v, level, es, smallestSnapshot, n) :: e in es[..n]
  {
    hide Dropped;
    if n > 0 {
      KeptIsSorted(lt, v, level, es, smallestSnapshot, n - 1);
      var kept := Kept(lt, v, level, es, smallestSnapshot, n - 1);
      assert es[..n] == es[..n - 1] + [es[n - 1]];
      forall i | 0 <= i < |kept| ensures InternalLess(lt, kept[i].key, es[n - 1].key) {
        assert kept[i] in es[..n - 1];
      }
    }
  }

  /** What the compaction writes comes from its inputs and lies in separate files. */
  lemma {:induction false} OutputsFromInputs<K(!new), V(!new)>(
      lt: (K, K) -> bool, v: Version<K, V>, level: nat, inputs0: seq<File<K, V>>, inputs1: seq<File<K, V>>,
      merged: seq<Entry<K, V>>, smallestSnapshot: nat, first: nat, outputs: seq<File<K, V>>)
    requires TotalOrder(lt) && |v.levels| == NUM_LEVELS && IsMerge(lt, inputs0 + inputs1, merged)
    requires forall e | e in merged :: e.key.typ <= TYPE_VALUE
    requires Built(outputs, first) && Flatten(outputs) == Kept(lt, v, level, merged, smallestSnapshot, |merged|)
    ensures FromInputs(lt, inputs0, inputs1, outputs)
  {
    hide Kept, WellFormed, Sorted, LevelEntries, TotalOrder, Flatten;
    KeptIsSorted(lt, v, level, merged, smallestSnapshot, |merged|);
    assert merged[..|merged|] == merged;
    FlattenHolds(outputs);
    forall f | f in outputs ensures WellFormed(lt, f) {
      var i :| 0 <= i < |outputs| && outputs[i] == f;
      CutIsWellFormed(lt, outputs, first, i);
    }
    forall f, g | f in outputs && g in outputs && f != g ensures Apart(lt, f, g) {
      var i :| 0 <= i < |outputs| && outputs[i] == f;
      var j :| 0 <= j < |outputs| && outputs[j] == g;
      if i < j {
        CutIsApart(lt, outputs, first, i, j);
      } else {
        CutIsApart(lt, outputs, first, j, i);
      }
    }
    forall e | e in LevelEntries(outputs) ensures e in LevelEntries(inputs0 + inputs1) {
      assert e in Elements(Flatten(outputs));
      assert e in merged;
      assert e in Elements(merged);
    }
  }

  /** The entries of the files that no deletion names. */
  ghost function Rest<K(!new), V(!new)>(v: Version<K, V>, deletions: set<(nat, nat)>): set<Entry<K, V>> {
    set l, e | 0 <= l < |v.levels| && e in RestOfLevel(v, deletions, l) :: e
  }

  ghost function RestOfLevel<K(!new), V(!new)>(v: Version<K, V>, deletions: set<(nat, nat)>, l: nat): set<Entry<K, V>>
    requires l < |v.levels|
  {
    set f, e | f in v.levels[l] && (l, f.number) !in deletions && e in f.entries :: e
  }

  lemma {:induction false} EntriesAfter<K(!new), V(!new)>(
      lt: (K, K) -> bool, before: Version<K, V>, after: Version<K, V>, deletions: set<(nat, nat)>, target: nat, news: seq<File<K, V>>)
    requires Replaces(lt, before, after, deletions, target, news)
    requires forall f | f in news :: (target, f.number) !in deletions
    ensures VersionEntries(after) == Rest(before, deletions) + LevelEntries(news)
  {
    hide Replaces, LevelEntries, RestOfLevel;
    forall l | 0 <= l < NUM_LEVELS
      ensures LevelEntries(after.levels[l]) == RestOfLevel(before, deletions, l) + if l == target then LevelEntries(news) else {}
    {
      LevelAfter(lt, before, after, deletions, target, news, l);
    }
    forall e ensures e in VersionEntries(after) <==> e in Rest(before, deletions) + LevelEntries(news) {
      if l :| 0 <= l < NUM_LEVELS && e in RestOfLevel(before, deletions, l) {
        assert e in LevelEntries(after.levels[l]);
      }
      assert e in LevelEntries(news) ==> e in LevelEntries(after.levels[target]);
    }
  }

  lemma {:induction false} LevelAfter<K(!new), V(!new)>(
      lt: (K, K) -> bool, before: Version<K, V>, after: Version<K, V>, deletions: set<(nat, nat)>, target: nat, news: seq<File<K, V>>, l: nat)
    requires Replaces(lt, before, after, deletions, target, news) && l < NUM_LEVELS
    requires forall f | f in news :: (target, f.number) !in deletions
    ensures LevelEntries(after.levels[l]) == RestOfLevel(before, deletions, l) + if l == target then LevelEntries(news) else {}
  {
    hide StrictlySorted;
  }

  /** A version holds its inputs and the rest. */
  lemma {:induction false} EntriesBefore<K(!new), V(!new)>(
      lt: (K, K) -> bool, v: Version<K, V>, nextFile: nat, level: nat, inputs0: seq<File<K, V>>, inputs1: seq<File<K, V>>)
    requires |v.levels| == NUM_LEVELS && Numbered(lt, v, nextFile) && level + 1 < NUM_LEVELS
    requires forall f | f in inputs0 :: f in v.levels[level]
    requires forall f | f in inputs1 :: f in v.levels[level + 1]
    ensures VersionEntries(v) == Rest(v, Deletions(level, inputs0) + Deletions(level + 1, inputs1)) + LevelEntries(inputs0 + inputs1)
  {
    hide Numbered, Deletions;
    var deletions := Deletions(level, inputs0) + Deletions(level + 1, inputs1);
    forall l, e | 0 <= l < NUM_LEVELS && e in RestOfLevel(v, deletions, l) ensures e in LevelEntries(v.levels[l]) {
    }
    forall e | e in VersionEntries(v) && e !in Rest(v, deletions) ensures e in LevelEntries(inputs0 + inputs1) {
      var l :| 0 <= l < NUM_LEVELS && e in LevelEntries(v.levels[l]);
      var f :| f in v.levels[l] && e in f.entries;
      assert e !in RestOfLevel(v, deletions, l);
      DeletedIsInput(lt, v, nextFile, level, inputs0, inputs1, l, f);
    }
    forall e | e in LevelEntries(inputs0 + inputs1) ensures e in VersionEntries(v) {
      var f :| f in inputs0 + inputs1 && e in f.entries;
      var l := if f in inputs0 then level else level + 1;
      assert e in LevelEntries(v.levels[l]);
    }
  }

  lemma {:induction false} DeletedIsInput<K(!new), V(!new)>(
      lt: (K, K) -> bool, v: Version<K, V>, nextFile: nat, level: nat, inputs0: seq<File<K, V>>, inputs1: seq<File<K, V>>, l: nat, f: File<K, V>)
    requires |v.levels| == NUM_LEVELS && Numbered(lt, v, nextFile) && level + 1 < NUM_LEVELS
    requires forall f | f in inputs0 :: f in v.levels[level]
    requires forall f | f in inputs1 :: f in v.levels[level + 1]
    requires l < NUM_LEVELS && f in v.levels[l] && (l, f.number) in Deletions(level, inputs0) + Deletions(level + 1, inputs1)
    ensures f in inputs0 + inputs1
  {
    hide StrictlySorted;
  }

  /** What shares a key with a merged entry that has no deeper file is newer than it. */
  lemma {:induction false} RestIsNewer<K(!new), V(!new)>(
      lt: (K, K) -> bool, v: Version<K, V>, level: nat, inputs0: seq<File<K, V>>, inputs1: seq<File<K, V>>,
      smallest: InternalKey<K>, largest: InternalKey<K>, d: Entry<K, V>, e: Entry<K, V>)
    requires TotalOrder(lt) && ValidVersion(lt, v) && Inputs(lt, v, level, inputs0, inputs1, smallest, largest)
    requires d in Rest(v, Deletions(level, inputs0) + Deletions(level + 1, inputs1)) && e in LevelEntries(inputs0 + inputs1)
    requires d.key.user == e.key.user && BaseLevel(lt, v, level, e.key.user)
    ensures d.key.Tag() > e.key.Tag()
  {
    hide ValidVersion, TotalOrder, Inputs, Overlaps, IsRange, ClosedInputs, LeavesNoOlder;
    var deletions := Deletions(level, inputs0) + Deletions(level + 1, inputs1);
    var l :| 0 <= l < NUM_LEVELS && d in RestOfLevel(v, deletions, l);
    var g :| g in v.levels[l] && (l, g.number) !in deletions && d in g.entries;
    var f :| f in inputs0 + inputs1 && e in f.entries;
    if l <= level + 1 {
      StaysNewer(lt, v, level, inputs0, inputs1, smallest, largest, l, g, d, f, e);
    }
    NotDeeper(lt, v, level, l, g, d);
  }

  lemma {:induction false} NotDeeper<K(!new), V(!new)>(lt: (K, K) -> bool, v: Version<K, V>, level: nat, l: nat, g: File<K, V>, d: Entry<K, V>)
    requires TotalOrder(lt) && ValidVersion(lt, v) && BaseLevel(lt, v, level, d.key.user)
    requires l < NUM_LEVELS && g in v.levels[l] && d in g.entries
    ensures l <= level + 1
  {
    hide ValidVersion, TotalOrder;
    LevelIsValid(lt, v, l);
    WithinBounds(lt, g, d);
    assert Covers(lt, g, d.key.user);
  }

  /** Adding entries that are all newer than both sides keeps reads in agreement. */
  lemma AddingNewer<K(!new), V(!new)>(es: set<Entry<K, V>>, ds: set<Entry<K, V>>, news: set<Entry<K, V>>, k: K, snapshot: nat)
    requires es <= ds && NewerThan(news, ds) && Distinct(ds + news) && Lookup(es, k, snapshot) == Lookup(ds, k, snapshot)
    ensures Lookup(es + news, k, snapshot) == Lookup(ds + news, k, snapshot)
  {
    if some :| some in news && some.key.user == k && Readable(some, snapshot) {
      var e := NewestExists(news, k, snapshot, some);
      assert Newest(es + news, k, snapshot, e) && Newest(ds + news, k, snapshot, e);
      LookupNewest(es + news, k, snapshot, e);
      LookupNewest(ds + news, k, snapshot, e);
    } else {
      AddingUnread(es, news, k, snapshot);
      AddingUnread(ds, news, k, snapshot);
    }
  }

  /** Entries that a read may not use do not change it. */
  lemma AddingUnread<K(!new), V(!new)>(es: set<Entry<K, V>>, news: set<Entry<K, V>>, k: K, snapshot: nat)
    requires Distinct(es + news) && forall e | e in news && e.key.user == k :: !Readable(e, snapshot)
    ensures Lookup(es + news, k, snapshot) == Lookup(es, k, snapshot)
  {
    if some :| some in es && some.key.user == k && Readable(some, snapshot) {
      var e := NewestExists(es, k, snapshot, some);
      assert Newest(es + news, k, snapshot, e);
      LookupNewest(es, k, snapshot, e);
      LookupNewest(es + news, k, snapshot, e);
    } else {
      LookupMissing(es, k, snapshot);
      LookupMissing(es + news, k, snapshot);
    }
  }

  lemma {:induction false} MovePushes<K(!new), V(!new)>(lt: (K, K) -> bool, s: State<K, V>, s': State<K, V>, level: nat, file: File<K, V>)
    requires ValidVersion(lt, s.version) && MoveStep(lt, s, s', level, file)
    ensures Pushes(lt, s.version, s'.version, level, [file], [], file.smallest, file.largest, [file])
  {
    hide ValidVersion, Inputs, Edited, StrictlySorted, WellFormed, Replaces, Deletions, LevelEntries;
    MoveDeletions<K, V>(level, file);
    MovedFile(lt, s.version, level, file);
    EditReplaces(lt, s.version, s'.version, {(level, file.number)}, [(level + 1, file)], level + 1, [file]);
    LevelIsValid(lt, s.version, level);
  }

  lemma {:induction false} MovedFile<K(!new), V(!new)>(lt: (K, K) -> bool, v: Version<K, V>, level: nat, file: File<K, V>)
    requires Inputs(lt, v, level, [file], [], file.smallest, file.largest)
    ensures |v.levels| == NUM_LEVELS && level + 1 < NUM_LEVELS && file in v.levels[level]
  {
    assert file in [file];
  }

  /** The inputs of the level below, given the range of those above. */
  ghost function LowerInputs<K(!new), V(!new)>(
      lt: (K, K) -> bool, v: Version<K, V>, level: nat, smallest: InternalKey<K>, largest: InternalKey<K>): seq<File<K, V>>
    requires level + 1 < |v.levels|
  {
    Overlapping(lt, v.levels[level + 1], Some(smallest.user), Some(largest.user))
  }

  lemma {:induction false} CompactPushes<K(!new), V(!new)>(
      lt: (K, K) -> bool, s: State<K, V>, s': State<K, V>, level: nat, inputs0: seq<File<K, V>>, smallest: InternalKey<K>,
      largest: InternalKey<K>, smallestSnapshot: nat, merged: seq<Entry<K, V>>, outputs: seq<File<K, V>>)
    requires TotalOrder(lt) && ValidState(lt, s)
    requires CompactStep(lt, s, s', level, inputs0, smallest, largest, smallestSnapshot, merged, outputs)
    ensures Pushes(lt, s.version, s'.version, level, inputs0, LowerInputs(lt, s.version, level, smallest, largest), smallest, largest, outputs)
    ensures forall e | e in merged :: e.key.typ <= TYPE_VALUE
  {
    hide ValidVersion, TotalOrder, Inputs, Edited, StrictlySorted, WellFormed, ReadsAgree, Distinct, Kept, LevelEntries, Deletions;
    hide FromInputs, LeavesNoOlder, Overlaps, Sorted, Built, Flatten, Replaces, Additions;
    var inputs1 := LowerInputs(lt, s.version, level, smallest, largest);
    var deletions := Deletions(level, inputs0) + Deletions(level + 1, inputs1);
    AdditionsHold(level + 1, outputs);
    EditReplaces(lt, s.version, s'.version, deletions, Additions(level + 1, outputs), level + 1, outputs);
    MergedIsFlushed(lt, s, level, inputs0, inputs1, smallest, largest, merged);
    OutputsFromInputs(lt, s.version, level, inputs0, inputs1, merged, smallestSnapshot, s.nextFile, outputs);
  }

  lemma {:induction false} AdditionsHold<K(!new), V(!new)>(level: nat, files: seq<File<K, V>>)
    ensures forall l, f :: (l, f) in Additions(level, files) <==> l == level && f in files
  {
    var added := Additions(level, files);
    forall l, f | l == level && f in files ensures (l, f) in added {
      var i :| 0 <= i < |files| && files[i] == f;
      assert added[i] == (l, f);
    }
  }

  lemma {:induction false} MergedIsFlushed<K(!new), V(!new)>(
      lt: (K, K) -> bool, s: State<K, V>, level: nat, inputs0: seq<File<K, V>>, inputs1: seq<File<K, V>>,
      smallest: InternalKey<K>, largest: InternalKey<K>, merged: seq<Entry<K, V>>)
    requires ValidState(lt, s) && Inputs(lt, s.version, level, inputs0, inputs1, smallest, largest)
    requires IsMerge(lt, inputs0 + inputs1, merged)
    ensures forall e | e in merged :: e in s.flushed && e.key.typ <= TYPE_VALUE
  {
    hide ValidVersion, ReadsAgree, Distinct, LeavesNoOlder, ClosedInputs, Sorted, IsRange, StrictlySorted, LevelEntries;
    EntriesBefore(lt, s.version, s.nextFile, level, inputs0, inputs1);
    forall e | e in merged ensures e in s.flushed {
      assert e in Elements(merged);
    }
  }

  /** Adding files with fresh numbers of their own keeps numbers unshared. */
  lemma {:induction false} FreshNumbers<K(!new), V(!new)>(
      lt: (K, K) -> bool, before: Version<K, V>, after: Version<K, V>, deletions: set<(nat, nat)>, target: nat, news: seq<File<K, V>>, nextFile: nat)
    requires Replaces(lt, before, after, deletions, target, news) && Numbered(lt, before, nextFile)
    requires forall i | 0 <= i < |news| :: news[i].number == nextFile + i
    ensures Numbered(lt, after, nextFile + |news|)
  {
    hide StrictlySorted;
    forall f | f in news ensures nextFile <= f.number < nextFile + |news| {
    }
    forall f, g | f in news && g in news && f.number == g.number ensures f == g {
    }
  }

  lemma {:induction false} MovedNumbers<K(!new), V(!new)>(
      lt: (K, K) -> bool, before: Version<K, V>, after: Version<K, V>, level: nat, file: File<K, V>, nextFile: nat)
    requires Replaces(lt, before, after, {(level, file.number)}, level + 1, [file]) && Numbered(lt, before, nextFile)
    requires file in before.levels[level]
    ensures Numbered(lt, after, nextFile)
  {
    hide StrictlySorted;
    forall l, f | 0 <= l < NUM_LEVELS && f in after.levels[l] 
      ensures (l == level + 1 && f == file) || (f in before.levels[l] && f != file)
    {
    }
  }

  lemma {:induction false} FlushKeeps<K(!new), V(!new)>(
      lt: (K, K) -> bool, s: State<K, V>, s': State<K, V>, size: nat, level: nat, entries: seq<Entry<K, V>>)
    requires TotalOrder(lt) && ValidState(lt, s) && FlushStep(lt, s, s', size, level, entries)
    ensures ValidState(lt, s')
  {
    hide ValidVersion, TotalOrder, Edited, Sorted, OverlapInLevel, Replaces, Fits, Numbered, NewerThan, Distinct, Rest, VersionEntries, Lookup, LevelEntries;
    var file := BuildTable(s.nextFile, size, entries);
    FlushFits(lt, s, s', size, level, entries);
    ReplacesKeepsValid(lt, s.version, s'.version, {}, level, [file]);
    FreshNumbers(lt, s.version, s'.version, {}, level, [file], s.nextFile);
    EntriesAfter(lt, s.version, s'.version, {}, level, [file]);
    RestOfAll(s.version);
    SingleLevelEntries(file);
    SortedIsDistinct(lt, entries);
    LaterIsNewer(Elements(entries), s.flushed, s.lastSequence);
    DistinctUnion(s.flushed, Elements(entries));
    forall k, snapshot | s'.horizon <= snapshot ensures Lookup(VersionEntries(s'.version), k, snapshot) == Lookup(s'.flushed, k, snapshot) {
      AddingNewer(VersionEntries(s.version), s.flushed, Elements(entries), k, snapshot);
    }
  }

  lemma {:induction false} RestOfAll<K(!new), V(!new)>(v: Version<K, V>)
    ensures Rest(v, {}) == VersionEntries(v)
  {
    forall l | 0 <= l < |v.levels| ensures RestOfLevel(v, {}, l) == LevelEntries(v.levels[l]) {
    }
  }

  lemma DistinctUnion<K(!new), V(!new)>(es: set<Entry<K, V>>, news: set<Entry<K, V>>)
    requires Distinct(es) && Distinct(news) && NewerThan(news, es)
    ensures Distinct(es + news)
  {
  }

  lemma {:induction false} MoveKeeps<K(!new), V(!new)>(lt: (K, K) -> bool, s: State<K, V>, s': State<K, V>, level: nat, file: File<K, V>)
    requires TotalOrder(lt) && ValidState(lt, s) && MoveStep(lt, s, s', level, file)
    ensures ValidState(lt, s')
  {
    hide ValidVersion, TotalOrder, Edited, Inputs, Fits, Numbered, Distinct, Rest, VersionEntries, Lookup, LevelEntries, Replaces, FromInputs, Deletions;
    var v, after := s.version, s'.version;
    MovePushes(lt, s, s', level, file);
    MovedFile(lt, v, level, file);
    PushFits(lt, v, after, level, [file], [], file.smallest, file.largest, [file]);
    MoveDeletions<K, V>(level, file);
    ReplacesKeepsValid(lt, v, after, {(level, file.number)}, level + 1, [file]);
    MovedNumbers(lt, v, after, level, file, s.nextFile);
    EntriesBefore(lt, v, s.nextFile, level, [file], []);
    EntriesAfter(lt, v, after, {(level, file.number)}, level + 1, [file]);
  }

  /** A move set up as a compaction is keeps the invariant if and only if it leaves nothing older in its level. */
  lemma {:induction false} MoveKeepsExactly<K(!new), V(!new)>(
      lt: (K, K) -> bool, s: State<K, V>, s': State<K, V>, level: nat, file: File<K, V>)
    requires TotalOrder(lt) && ValidState(lt, s) && MoveEdit(lt, s, s', level, file)
    requires SetUp(lt, s.version, level, [file], [], file.smallest, file.largest)
    ensures ValidState(lt, s') <==> LeavesNoOlder(s.version.levels[level], [file])
  {
    hide ValidState, TotalOrder, ValidVersion, Edited, LeavesNoOlder, ClosedInputs, IsRange, Overlaps;
    var v := s.version;
    StateIsValid(lt, s);
    if LeavesNoOlder(v.levels[level], [file]) {
      NoInputs<K, V>(v.levels[level + 1]);
      MoveKeeps(lt, s, s', level, file);
    } else if ValidState(lt, s') {
      StateIsValid(lt, s');
      MovedFileIsIn(file);
      MoveLeavesNoOlder(lt, s, s', level, file);
    }
  }

  lemma StateIsValid<K(!new), V(!new)>(lt: (K, K) -> bool, s: State<K, V>)
    requires ValidState(lt, s)
    ensures ValidVersion(lt, s.version) && Numbered(lt, s.version, s.nextFile)
  {
  }

  lemma NoInputs<K(!new), V(!new)>(files: seq<File<K, V>>)
    ensures LeavesNoOlder(files, [])
  {
  }

  lemma MovedFileIsIn<K(!new), V(!new)>(file: File<K, V>)
    ensures file in [file] && forall f | f in [file] :: f == file
  {
  }

  lemma {:induction false} MoveLeavesNoOlder<K(!new), V(!new)>(
      lt: (K, K) -> bool, s: State<K, V>, s': State<K, V>, level: nat, file: File<K, V>)
    requires ValidVersion(lt, s.version) && Numbered(lt, s.version, s.nextFile) && ValidVersion(lt, s'.version)
    requires level + 1 < NUM_LEVELS && file in s.version.levels[level] && MoveEdit(lt, s, s', level, file)
    ensures LeavesNoOlder(s.version.levels[level], [file])
  {
    hide ValidVersion, Edited, StrictlySorted, LevelEntries;
    var v, after := s.version, s'.version;
    EditedHolds(lt, v, after, {(level, file.number)}, [(level + 1, file)]);
    AgesOf(lt, after, level);
    assert file in after.levels[level + 1];
    forall f, g, e, d | f in [file] && g in v.levels[level] && g !in [file] && e in f.entries && d in g.entries && e.key.user == d.key.user
      ensures d.key.Tag() > e.key.Tag()
    {
      assert g in after.levels[level];
      InLevel(after.levels[level], g, d);
      InLevel(after.levels[level + 1], file, e);
    }
  }

  lemma AgesOf<K(!new), V(!new)>(lt: (K, K) -> bool, v: Version<K, V>, level: nat)
    requires ValidVersion(lt, v) && level + 1 < NUM_LEVELS
    ensures NewerThan(LevelEntries(v.levels[level]), LevelEntries(v.levels[level + 1]))
  {
  }

  lemma InLevel<K(!new), V(!new)>(files: seq<File<K, V>>, f: File<K, V>, e: Entry<K, V>)
    requires f in files && e in f.entries
    ensures e in LevelEntries(files)
  {
  }

  lemma {:induction false} MoveDeletions<K(!new), V(!new)>(level: nat, file: File<K, V>)
    ensures Deletions(level, [file]) + Deletions<K, V>(level + 1, []) == {(level, file.number)}
    ensures [file] + [] == [file]
  {
  }

  lemma {:induction false} CompactKeeps<K(!new), V(!new)>(
      lt: (K, K) -> bool, s: State<K, V>, s': State<K, V>, level: nat, inputs0: seq<File<K, V>>, smallest: InternalKey<K>,
      largest: InternalKey<K>, smallestSnapshot: nat, merged: seq<Entry<K, V>>, outputs: seq<File<K, V>>)
    requires TotalOrder(lt) && ValidState(lt, s)
    requires CompactStep(lt, s, s', level, inputs0, smallest, largest, smallestSnapshot, merged, outputs)
    ensures ValidState(lt, s')
  {
    hide ValidVersion, TotalOrder, Edited, Fits, Numbered, Distinct, Rest, VersionEntries, Lookup, LevelEntries, Replaces, FromInputs, Deletions;
    hide Kept, Flatten, Sorted, LeavesNoOlder, ClosedInputs, IsRange, Overlaps;
    var v, after := s.version, s'.version;
    var inputs1 := LowerInputs(lt, v, level, smallest, largest);
    var deletions := Deletions(level, inputs0) + Deletions(level + 1, inputs1);
    CompactPushes(lt, s, s', level, inputs0, smallest, largest, smallestSnapshot, merged, outputs);
    PushFits(lt, v, after, level, inputs0, inputs1, smallest, largest, outputs);
    ReplacesKeepsValid(lt, v, after, deletions, level + 1, outputs);
    FreshNumbers(lt, v, after, deletions, level + 1, outputs, s.nextFile);
    CompactEntries(lt, s, s', level, inputs0, inputs1, smallestSnapshot, merged, outputs);
    forall k, snapshot | s'.horizon <= snapshot ensures Lookup(VersionEntries(after), k, snapshot) == Lookup(s'.flushed, k, snapshot) {
      CompactKeepsRead(lt, s, s', level, inputs0, smallest, largest, smallestSnapshot, merged, outputs, k, snapshot);
    }
  }

  /** The version holds the rest and the merged entries before, the rest and the kept entries after. */
  lemma {:induction false} CompactEntries<K(!new), V(!new)>(
      lt: (K, K) -> bool, s: State<K, V>, s': State<K, V>, level: nat, inputs0: seq<File<K, V>>, inputs1: seq<File<K, V>>,
      smallestSnapshot: nat, merged: seq<Entry<K, V>>, outputs: seq<File<K, V>>)
    requires ValidState(lt, s) && level + 1 < NUM_LEVELS
    requires forall f | f in inputs0 :: f in s.version.levels[level]
    requires forall f | f in inputs1 :: f in s.version.levels[level + 1]
    requires CompactEdit(lt, s, s', level, inputs0, inputs1, smallestSnapshot, merged, outputs)
    ensures var rest := Rest(s.version, Deletions(level, inputs0) + Deletions(level + 1, inputs1));
      VersionEntries(s.version) == rest + Elements(merged)
      && VersionEntries(s'.version) == rest + Elements(Kept(lt, s.version, level, merged, smallestSnapshot, |merged|))
    ensures VersionEntries(s'.version) <= VersionEntries(s.version)
  {
    hide ValidVersion, Numbered, Edited, Distinct, Rest, VersionEntries, Lookup, LevelEntries, Replaces, Kept, Flatten, Sorted, Built, Deletions;
    hide Additions;
    var v, after := s.version, s'.version;
    var deletions := Deletions(level, inputs0) + Deletions(level + 1, inputs1);
    AdditionsHold(level + 1, outputs);
    EditReplaces(lt, v, after, deletions, Additions(level + 1, outputs), level + 1, outputs);
    EntriesBefore(lt, v, s.nextFile, level, inputs0, inputs1);
    FreshNotDeleted(lt, v, s.nextFile, level, inputs0, inputs1, outputs);
    EntriesAfter(lt, v, after, deletions, level + 1, outputs);
    FlattenHolds(outputs);
    KeptIsPart(lt, v, level, merged, smallestSnapshot);
  }

  lemma KeptIsPart<K(!new), V(!new)>(lt: (K, K) -> bool, v: Version<K, V>, level: nat, es: seq<Entry<K, V>>, smallestSnapshot: nat)
    requires ValidVersion(lt, v)
    ensures Elements(Kept(lt, v, level, es, smallestSnapshot, |es|)) <= Elements(es)
  {
    hide ValidVersion, Dropped;
    forall e | e in Kept(lt, v, level, es, smallestSnapshot, |es|) ensures e in es {
      KeptHolds(lt, v, level, es, smallestSnapshot, |es|, e);
    }
  }

  /** Whatever is left beside the inputs, a compaction keeps a read at or after its smallest snapshot if and only
      if it does not revive a value for it. */
  lemma {:induction false} CompactReadExactly<K(!new), V(!new)>(
      lt: (K, K) -> bool, s: State<K, V>, s': State<K, V>, level: nat, inputs0: seq<File<K, V>>, inputs1: seq<File<K, V>>,
      smallest: InternalKey<K>, largest: InternalKey<K>, smallestSnapshot: nat, merged: seq<Entry<K, V>>, outputs: seq<File<K, V>>, k: K,
      snapshot: nat)
    requires TotalOrder(lt) && ValidState(lt, s) && SetUp(lt, s.version, level, inputs0, inputs1, smallest, largest)
    requires CompactEdit(lt, s, s', level, inputs0, inputs1, smallestSnapshot, merged, outputs) && s'.horizon <= snapshot
    ensures Lookup(VersionEntries(s'.version), k, snapshot) == Lookup(s.flushed, k, snapshot) <==>
      !Revives(lt, s.version, level, merged, smallestSnapshot, Rest(s.version, Deletions(level, inputs0) + Deletions(level + 1, inputs1)), k, snapshot)
  {
    hide ValidVersion, TotalOrder, Numbered, Edited, Rest, VersionEntries, Lookup, LevelEntries, Deletions, Distinct, Kept, Flatten, Sorted;
    hide ClosedInputs, IsRange, Overlaps, BaseLevel, Revives, Built;
    var v := s.version;
    CompactEntries(lt, s, s', level, inputs0, inputs1, smallestSnapshot, merged, outputs);
    VersionIsDistinct(lt, v);
    ReadsKeptExactly(lt, v, level, merged, smallestSnapshot, Rest(v, Deletions(level, inputs0) + Deletions(level + 1, inputs1)), k, snapshot);
  }

  lemma {:induction false} FreshNotDeleted<K(!new), V(!new)>(
      lt: (K, K) -> bool, v: Version<K, V>, nextFile: nat, level: nat, inputs0: seq<File<K, V>>, inputs1: seq<File<K, V>>, outputs: seq<File<K, V>>)
    requires |v.levels| == NUM_LEVELS && Numbered(lt, v, nextFile) && level + 1 < NUM_LEVELS && Built(outputs, nextFile)
    requires forall f | f in inputs0 :: f in v.levels[level]
    requires forall f | f in inputs1 :: f in v.levels[level + 1]
    ensures forall f | f in outputs :: (level + 1, f.number) !in Deletions(level, inputs0) + Deletions(level + 1, inputs1)
  {
  }

  lemma InputsInLevels<K(!new), V(!new)>(
      lt: (K, K) -> bool, v: Version<K, V>, level: nat, inputs0: seq<File<K, V>>, inputs1: seq<File<K, V>>, smallest: InternalKey<K>,
      largest: InternalKey<K>)
    requires Inputs(lt, v, level, inputs0, inputs1, smallest, largest)
    ensures |v.levels| == NUM_LEVELS && level + 1 < NUM_LEVELS
    ensures (forall f | f in inputs0 :: f in v.levels[level]) && forall f | f in inputs1 :: f in v.levels[level + 1]
  {
  }

  lemma {:induction false} CompactKeepsRead<K(!new), V(!new)>(
      lt: (K, K) -> bool, s: State<K, V>, s': State<K, V>, level: nat, inputs0: seq<File<K, V>>, smallest: InternalKey<K>,
      largest: InternalKey<K>, smallestSnapshot: nat, merged: seq<Entry<K, V>>, outputs: seq<File<K, V>>, k: K, snapshot: nat)
    requires TotalOrder(lt) && ValidState(lt, s) && s'.horizon <= snapshot
    requires CompactStep(lt, s, s', level, inputs0, smallest, largest, smallestSnapshot, merged, outputs)
    ensures Lookup(VersionEntries(s'.version), k, snapshot) == Lookup(s.flushed, k, snapshot)
  {
    hide ValidVersion, TotalOrder, Edited, Numbered, Rest, VersionEntries, Lookup, LevelEntries, Replaces, FromInputs, Deletions, Distinct;
    hide Kept, Flatten, Sorted, LeavesNoOlder, ClosedInputs, IsRange, Overlaps, BaseLevel, Inputs;
    var v := s.version;
    var inputs1 := LowerInputs(lt, v, level, smallest, largest);
    var rest := Rest(v, Deletions(level, inputs0) + Deletions(level + 1, inputs1));
    InputsInLevels(lt, v, level, inputs0, inputs1, smallest, largest);
    CompactEntries(lt, s, s', level, inputs0, inputs1, smallestSnapshot, merged, outputs);
    VersionIsDistinct(lt, v);
    CompactPushes(lt, s, s', level, inputs0, smallest, largest, smallestSnapshot, merged, outputs);
    if BaseLevel(lt, v, level, k) {
      forall d, e | d in rest && e in merged && d.key.user == k == e.key.user ensures d.key.Tag() > e.key.Tag() {
        assert e in Elements(merged);
        RestIsNewer(lt, v, level, inputs0, inputs1, smallest, largest, d, e);
      }
    }
    KeepsReads(lt, v, level, merged, smallestSnapshot, rest, k, snapshot);
  }

  /** The state of a new database. */
  ghost predicate Init<K(!new), V(!new)>(s: State<K, V>) {
    && s.version == Version(seq(NUM_LEVELS, l => []))
    && s.flushed == {} && s.lastSequence <= MAX_SEQUENCE
  }

  lemma {:induction false} InitIsValid<K(!new), V(!new)>(lt: (K, K) -> bool, s: State<K, V>)
    requires Init(s)
    ensures ValidState(lt, s)
  {
    assert forall l | 0 <= l < NUM_LEVELS :: LevelEntries(s.version.levels[l]) == {};
    assert VersionEntries(s.version) == {};
  }

  /** `states` is a run of the store, taking `actions` one after another. */
  ghost predicate IsRun<K(!new), V(!new)>(lt: (K, K) -> bool, states: seq<State<K, V>>, actions: seq<Action<K, V>>) {
    && |states| == |actions| + 1 && Init(states[0])
    && forall i | 0 <= i < |actions| :: Next(lt, states[i], actions[i], states[i + 1])
  }

  lemma {:induction false} StepKeeps<K(!new), V(!new)>(lt: (K, K) -> bool, s: State<K, V>, a: Action<K, V>, s': State<K, V>)
    requires TotalOrder(lt) && ValidState(lt, s) && Next(lt, s, a, s')
    ensures ValidState(lt, s')
  {
    hide TotalOrder, ValidState, FlushStep, MoveStep, CompactStep;
    match a
    case Flush(size, level, entries) => FlushKeeps(lt, s, s', size, level, entries);
    case Move(level, file) => MoveKeeps(lt, s, s', level, file);
    case Compact(level, inputs0, smallest, largest, smallestSnapshot, merged, outputs) =>
      CompactKeeps(lt, s, s', level, inputs0, smallest, largest, smallestSnapshot, merged, outputs);
  }

  /** In every run the level invariants hold, and a read at or after the horizon answers from the version as
      it would from everything ever flushed. */
  lemma {:induction false} RunsKeep<K(!new), V(!new)>(lt: (K, K) -> bool, states: seq<State<K, V>>, actions: seq<Action<K, V>>, n: nat)
    requires TotalOrder(lt) && IsRun(lt, states, actions) && n <= |actions|
    ensures ValidVersion(lt, states[n].version)
    ensures ReadsAgree(states[n].version, states[n].flushed, states[n].horizon)
    ensures ValidState(lt, states[n])
  {
    hide TotalOrder, Init, Next;
    if n == 0 {
      InitIsValid(lt, states[0]);
    } else {
      RunsKeep(lt, states, actions, n - 1);
      var i := n - 1;
      assert Next(lt, states[i], actions[i], states[i + 1]);
      StepKeeps(lt, states[i], actions[i], states[i + 1]);
    }
  }
}
