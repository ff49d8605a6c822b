/** Runs of version changes (db/db_impl.cc, db/version_set.cc): flushes, trivial moves and compactions, each
    one atomic step from the empty version. */
module VersionRuns {
  import opened Keys
  import opened Tables
  import opened VersionOps
  import opened VersionBuilder
  import opened Compactions

  /** VersionSet::Builder::BySmallestKey. */
  predicate FileLess<K(==), V>(lt: (K, K) -> bool, f: File<K, V>, g: File<K, V>) {
    InternalLess(lt, f.smallest, g.smallest) || (f.smallest == g.smallest && f.number < g.number)
  }

  function BySmallestKey<K(==), V>(lt: (K, K) -> bool): (File<K, V>, File<K, V>) -> bool {
    (f: File<K, V>, g: File<K, V>) => FileLess(lt, f, g)
  }

  function Number<K, V>(): File<K, V> -> nat {
    (f: File<K, V>) => f.number
  }

  /** `f` and `g` share no key range. */
  ghost predicate Apart<K(!new), V(!new)>(lt: (K, K) -> bool, f: File<K, V>, g: File<K, V>) {
    InternalLess(lt, f.largest, g.smallest) || InternalLess(lt, g.largest, f.smallest)
  }

  ghost predicate PairwiseApart<K(!new), V(!new)>(lt: (K, K) -> bool, files: seq<File<K, V>>) {
    forall f, g | f in files && g in files && f != g :: Apart(lt, f, g)
  }

  lemma SortedDisjointIsApart<K(!new), V(!new)>(lt: (K, K) -> bool, files: seq<File<K, V>>)
    requires SortedDisjoint(lt, files)
    ensures PairwiseApart(lt, files)
  {
    forall f, g | f in files && g in files && f != g ensures Apart(lt, f, g) {
      var i :| 0 <= i < |files| && files[i] == f;
      var j :| 0 <= j < |files| && files[j] == g;
    }
  }

  /** Listing files that are apart by smallest key sorts their ranges. */
  lemma ApartIsSortedDisjoint<K(!new), V(!new)>(lt: (K, K) -> bool, files: seq<File<K, V>>)
    requires TotalOrder(lt) && AllWellFormed(lt, files) && PairwiseApart(lt, files)
    requires StrictlySorted(BySmallestKey(lt), files)
    ensures SortedDisjoint(lt, files)
  {
    forall i, j | 0 <= i < j < |files| ensures InternalLess(lt, files[i].largest, files[j].smallest) {
      var f, g := files[i], files[j];
      assert f in files && g in files && FileLess(lt, f, g);
      WithinBounds(lt, f, f.entries[0]);
      WithinBounds(lt, g, g.entries[0]);
      assert f != g;
      assert Apart(lt, f, g);
    }
  }

  /** `after` is `before` with the edit applied, as VersionSet::Builder saves it. */
  ghost predicate Edited<K(!new), V(!new)>(
      lt: (K, K) -> bool, before: Version<K, V>, after: Version<K, V>, deletions: set<(nat, nat)>, newFiles: seq<(nat, File<K, V>)>) {
    IsResult(BySmallestKey(lt), Number<K, V>(), before.levels,
      [FileEdit(deletions, newFiles)], after.levels)
  }

  lemma EditedHolds<K(!new), V(!new)>(
      lt: (K, K) -> bool, before: Version<K, V>, after: Version<K, V>, deletions: set<(nat, nat)>, newFiles: seq<(nat, File<K, V>)>)
    requires Edited(lt, before, after, deletions, newFiles)
    ensures |after.levels| == |before.levels|
    ensures forall l, f | 0 <= l < |before.levels| ::
      f in after.levels[l] <==> (f in before.levels[l] || (l, f) in newFiles) && (l, f.number) !in deletions
    ensures forall l | 0 <= l < |before.levels| ::
      StrictlySorted(BySmallestKey(lt), after.levels[l])
  {
    var edits := [FileEdit(deletions, newFiles)];
    forall l, f: File<K, V> | 0 <= l < |before.levels|
      ensures AddedBy(edits, l, f) <==> (l, f) in newFiles
      ensures DeletedBy(edits, l, f.number) <==> (l, f.number) in deletions
    {
      assert edits[0].newFiles == newFiles && edits[0].deletions == deletions;
    }
  }

  /** What the inputs leave in their level is newer than what they hold of the same user key. */
  ghost predicate LeavesNoOlder<K(!new), V(!new)>(files: seq<File<K, V>>, inputs: seq<File<K, V>>) {
    forall f, g, e, d | f in inputs && g in files && g !in inputs && e in f.entries && d in g.entries && e.key.user == d.key.user ::
      d.key.Tag() > e.key.Tag()
  }

  /** In a level of disjoint files that is so unless a file that is left begins with the user key that an input
      before it ends with. */
  lemma LeavesNoOlderMeans<K(!new), V(!new)>(lt: (K, K) -> bool, files: seq<File<K, V>>, inputs: seq<File<K, V>>)
    requires TotalOrder(lt) && AllWellFormed(lt, files) && SortedDisjoint(lt, files) && forall f | f in inputs :: f in files
    ensures LeavesNoOlder(files, inputs) <==>
      !exists f, g :: f in inputs && g in files && g !in inputs && f.largest.user == g.smallest.user && InternalLess(lt, f.largest, g.smallest)
  {
    hide TotalOrder, SortedDisjoint, WellFormed;
    if f, g :| f in inputs && g in files && g !in inputs && f.largest.user == g.smallest.user && InternalLess(lt, f.largest, g.smallest) {
      BoundIsOlder(lt, f, g);
    }
    if f, g, e, d :|
      f in inputs && g in files && g !in inputs && e in f.entries && d in g.entries && e.key.user == d.key.user && d.key.Tag() <= e.key.Tag()
    {
      OlderIsBound(lt, files, f, g, e, d);
    }
  }

  lemma BoundIsOlder<K(!new), V(!new)>(lt: (K, K) -> bool, f: File<K, V>, g: File<K, V>)
    requires TotalOrder(lt) && WellFormed(lt, f) && WellFormed(lt, g)
    requires f.largest.user == g.smallest.user && InternalLess(lt, f.largest, g.smallest)
    ensures exists e, d :: e in f.entries && d in g.entries && e.key.user == d.key.user && d.key.Tag() <= e.key.Tag()
  {
    var e, d := f.entries[|f.entries| - 1], g.entries[0];
    assert e in f.entries && d in g.entries;
  }

  lemma OlderIsBound<K(!new), V(!new)>(
      lt: (K, K) -> bool, files: seq<File<K, V>>, f: File<K, V>, g: File<K, V>, e: Entry<K, V>, d: Entry<K, V>)
    requires TotalOrder(lt) && WellFormed(lt, f) && WellFormed(lt, g) && SortedDisjoint(lt, files) && f in files && g in files && f != g
    requires e in f.entries && d in g.entries && e.key.user == d.key.user && d.key.Tag() <= e.key.Tag()
    ensures f.largest.user == g.smallest.user && InternalLess(lt, f.largest, g.smallest)
  {
    WithinBounds(lt, f, e);
    WithinBounds(lt, g, d);
    var i :| 0 <= i < |files| && files[i] == f;
    var j :| 0 <= j < |files| && files[j] == g;
    assert i < j ==> InternalLess(lt, f.largest, g.smallest);
    assert j < i ==> InternalLess(lt, g.largest, f.smallest);
  }

  /** At level 0 closing the inputs under overlap already keeps every user key together, so that nothing older
      is left. */
  lemma ClosedLeavesNoOlder<K(!new), V(!new)>(lt: (K, K) -> bool, files: seq<File<K, V>>, inputs: seq<File<K, V>>)
    requires TotalOrder(lt) && AllWellFormed(lt, files) && (forall f | f in inputs :: f in files) && ClosedInputs(lt, files, inputs)
    ensures LeavesNoOlder(files, inputs)
  {
    forall f, g, e, d | f in inputs && g in files && g !in inputs && e in f.entries && d in g.entries
      ensures e.key.user != d.key.user
    {
      if e.key.user == d.key.user {
        WithinBounds(lt, f, e);
        HoldsOverlaps(lt, g, d, Some(f.smallest.user), Some(f.largest.user));
      }
    }
  }

  datatype State<+K(==), +V(==)> = State(version: Version<K, V>, nextFile: nat, flushed: set<Entry<K, V>>, lastSequence: nat, horizon: nat)

  /** Level lists are kept by smallest key, and file numbers are never shared. */
  ghost predicate Numbered<K(!new), V(!new)>(lt: (K, K) -> bool, v: Version<K, V>, nextFile: nat)
    requires |v.levels| == NUM_LEVELS
  {
    && (forall l, f | 0 <= l < NUM_LEVELS && f in v.levels[l] :: f.number < nextFile)
    && (forall l, m, f, g | 0 <= l < NUM_LEVELS && 0 <= m < NUM_LEVELS && f in v.levels[l] && g in v.levels[m] && f.number == g.number ::
          l == m && f == g)
    && (forall l | 0 <= l < NUM_LEVELS :: StrictlySorted(BySmallestKey(lt), v.levels[l]))
  }

  /** Reads at or after the horizon see in the version what they would see in everything flushed so far. */
  ghost predicate ReadsAgree<K(!new), V(!new)>(v: Version<K, V>, flushed: set<Entry<K, V>>, horizon: nat) {
    forall k, snapshot | horizon <= snapshot :: Lookup(VersionEntries(v), k, snapshot) == Lookup(flushed, k, snapshot)
  }

  ghost predicate ValidState<K(!new), V(!new)>(lt: (K, K) -> bool, s: State<K, V>) {
    && ValidVersion(lt, s.version) && Numbered(lt, s.version, s.nextFile)
    && VersionEntries(s.version) <= s.flushed && Distinct(s.flushed)
    && (forall e | e in s.flushed :: e.key.typ <= TYPE_VALUE && e.key.seqno <= s.lastSequence)
    && s.lastSequence <= MAX_SEQUENCE
    && ReadsAgree(s.version, s.flushed, s.horizon)
  }

  datatype Action<+K, +V> =
    | Flush(size: nat, level: nat, entries: seq<Entry<K, V>>)
    | Move(level: nat, file: File<K, V>)
    | Compact(level: nat, inputs0: seq<File<K, V>>, smallest: InternalKey<K>, largest: InternalKey<K>,
              smallestSnapshot: nat, merged: seq<Entry<K, V>>, outputs: seq<File<K, V>>)

  /** A memtable's entries, all newer than anything flushed, become a table at a level that
      PickLevelForMemTableOutput may choose. */
  ghost predicate FlushStep<K(!new), V(!new)>(
      lt: (K, K) -> bool, s: State<K, V>, s': State<K, V>, size: nat, level: nat, entries: seq<Entry<K, V>>) {
    && |s.version.levels| == NUM_LEVELS
    && entries != [] && Sorted(lt, entries)
    && (forall i | 0 <= i < |entries| :: entries[i].key.typ <= TYPE_VALUE && s.lastSequence < entries[i].key.seqno <= s'.lastSequence)
    && s.lastSequence <= s'.lastSequence <= MAX_SEQUENCE
    && level <= MAX_MEM_COMPACT_LEVEL
    && var file := BuildTable(s.nextFile, size, entries);
    && (level > 0 ==> forall l | 0 <= l <= level :: !OverlapInLevel(lt, s.version, l, file.smallest.user, file.largest.user))
    && Edited(lt, s.version, s'.version, {}, [(level, file)])
    && s'.nextFile == s.nextFile + 1 && s'.flushed == s.flushed + Elements(entries) && s'.horizon == s.horizon
  }

  /** The inputs of a compaction or move at a level, with the level below's, as they are set up. */
  ghost predicate SetUp<K(!new), V(!new)>(
      lt: (K, K) -> bool, v: Version<K, V>, level: nat, inputs0: seq<File<K, V>>, inputs1: seq<File<K, V>>,
      smallest: InternalKey<K>, largest: InternalKey<K>) {
    && |v.levels| == NUM_LEVELS && level + 1 < NUM_LEVELS
    && inputs0 != [] && (forall f | f in inputs0 :: f in v.levels[level])
    && (level == 0 ==> ClosedInputs(lt, v.levels[0], inputs0))
    && IsRange(lt, inputs0, smallest, largest)
    && inputs1 == Overlapping(lt, v.levels[level + 1], Some(smallest.user), Some(largest.user))
  }

  /** And nothing older is left beside them. At level 0 that is so of itself. */
  ghost predicate Inputs<K(!new), V(!new)>(
      lt: (K, K) -> bool, v: Version<K, V>, level: nat, inputs0: seq<File<K, V>>, inputs1: seq<File<K, V>>,
      smallest: InternalKey<K>, largest: InternalKey<K>) {
    && SetUp(lt, v, level, inputs0, inputs1, smallest, largest)
    && (level > 0 ==> LeavesNoOlder(v.levels[level], inputs0)) && LeavesNoOlder(v.levels[level + 1], inputs1)
  }

  /** The edit of a move: a lone input that nothing below overlaps goes down as it is. */
  ghost predicate MoveEdit<K(!new), V(!new)>(lt: (K, K) -> bool, s: State<K, V>, s': State<K, V>, level: nat, file: File<K, V>) {
    && Edited(lt, s.version, s'.version, {(level, file.number)}, [(level + 1, file)])
    && s'.nextFile == s.nextFile && s'.flushed == s.flushed && s'.lastSequence == s.lastSequence && s'.horizon == s.horizon
  }

  ghost predicate MoveStep<K(!new), V(!new)>(lt: (K, K) -> bool, s: State<K, V>, s': State<K, V>, level: nat, file: File<K, V>) {
    Inputs(lt, s.version, level, [file], [], file.smallest, file.largest) && MoveEdit(lt, s, s', level, file)
  }

  /** `merged` lists the entries of the files in key order. */
  ghost predicate IsMerge<K(!new), V(!new)>(lt: (K, K) -> bool, files: seq<File<K, V>>, merged: seq<Entry<K, V>>) {
    Sorted(lt, merged) && Elements(merged) == LevelEntries(files)
  }

  ghost function Deletions<K(!new), V(!new)>(level: nat, files: seq<File<K, V>>): set<(nat, nat)> {
    set f | f in files :: (level, f.number)
  }

  function Additions<K, V>(level: nat, files: seq<File<K, V>>): seq<(nat, File<K, V>)> {
    seq(|files|, i requires 0 <= i < |files| => (level, files[i]))
  }

  /** The edit of a compaction: the inputs give way to what the loop kept of them, cut into new files. */
  ghost predicate CompactEdit<K(!new), V(!new)>(
      lt: (K, K) -> bool, s: State<K, V>, s': State<K, V>, level: nat, inputs0: seq<File<K, V>>, inputs1: seq<File<K, V>>, smallestSnapshot: nat,
      merged: seq<Entry<K, V>>, outputs: seq<File<K, V>>)
    requires |s.version.levels| == NUM_LEVELS && level + 1 < NUM_LEVELS
  {
    && IsMerge(lt, inputs0 + inputs1, merged)
    && Built(outputs, s.nextFile) && Flatten(outputs) == Kept(lt, s.version, level, merged, smallestSnapshot, |merged|)
    && Edited(lt, s.version, s'.version, Deletions(level, inputs0) + Deletions(level + 1, inputs1), Additions(level + 1, outputs))
    && s'.nextFile == s.nextFile + |outputs| && s'.flushed == s.flushed && s'.lastSequence == s.lastSequence
    && s'.horizon == if s.horizon < smallestSnapshot then smallestSnapshot else s.horizon
  }

  ghost predicate CompactStep<K(!new), V(!new)>(
      lt: (K, K) -> bool, s: State<K, V>, s': State<K, V>, level: nat, inputs0: seq<File<K, V>>, smallest: InternalKey<K>,
      largest: InternalKey<K>, smallestSnapshot: nat, merged: seq<Entry<K, V>>, outputs: seq<File<K, V>>)
  {
    && |s.version.levels| == NUM_LEVELS && level + 1 < NUM_LEVELS
    && var inputs1 := Overlapping(lt, s.version.levels[level + 1], Some(smallest.user), Some(largest.user));
    && Inputs(lt, s.version, level, inputs0, inputs1, smallest, largest)
    && CompactEdit(lt, s, s', level, inputs0, inputs1, smallestSnapshot, merged, outputs)
  }

  ghost predicate Next<K(!new), V(!new)>(lt: (K, K) -> bool, s: State<K, V>, a: Action<K, V>, s': State<K, V>)
  {
    match a
    case Flush(size, level, entries) => FlushStep(lt, s, s', size, level, entries)
    case Move(level, file) => MoveStep(lt, s, s', level, file)
    case Compact(level, inputs0, smallest, largest, smallestSnapshot, merged, outputs) =>
      CompactStep(lt, s, s', level, inputs0, smallest, largest, smallestSnapshot, merged, outputs)
  }

  /** A version is valid when its files are well formed, apart in levels below 0, and ordered by age. */
  lemma ValidFromParts<K(!new), V(!new)>(lt: (K, K) -> bool, v: Version<K, V>)
    requires TotalOrder(lt) && |v.levels| == NUM_LEVELS
    requires forall l | 0 <= l < NUM_LEVELS :: AllWellFormed(lt, v.levels[l]) && StrictlySorted(BySmallestKey(lt), v.levels[l])
    requires forall l | 1 <= l < NUM_LEVELS :: PairwiseApart(lt, v.levels[l])
    requires forall l, m | 0 <= l < m < NUM_LEVELS :: NewerThan(LevelEntries(v.levels[l]), LevelEntries(v.levels[m]))
    requires forall f, g | f in v.levels[0] && g in v.levels[0] && f.number > g.number :: NewerThan(Elements(f.entries), Elements(g.entries))
    requires forall f, g | f in v.levels[0] && g in v.levels[0] && f.number == g.number :: f == g
    ensures ValidVersion(lt, v)
  {
    forall l | 1 <= l < NUM_LEVELS ensures SortedDisjoint(lt, v.levels[l]) {
      ApartIsSortedDisjoint(lt, v.levels[l]);
    }
  }

  /** `after` is `before` without the deleted files and with `news` put in level `target`. */
  ghost predicate Replaces<K(!new), V(!new)>(
      lt: (K, K) -> bool, before: Version<K, V>, after: Version<K, V>, deletions: set<(nat, nat)>, target: nat, news: seq<File<K, V>>)
    ensures Replaces(lt, before, after, deletions, target, news) ==>
      |before.levels| == |after.levels| == NUM_LEVELS && target < NUM_LEVELS
  {
    && |before.levels| == |after.levels| == NUM_LEVELS && target < NUM_LEVELS
    && (forall l, f | 0 <= l < NUM_LEVELS :: f in after.levels[l] <==>
          (f in before.levels[l] || (l == target && f in news)) && (l, f.number) !in deletions)
    && (forall l | 0 <= l < NUM_LEVELS :: StrictlySorted(BySmallestKey(lt), after.levels[l]))
  }

  /** An edit that adds `news` to one level. */
  lemma {:induction false} EditReplaces<K(!new), V(!new)>(
      lt: (K, K) -> bool, before: Version<K, V>, after: Version<K, V>, deletions: set<(nat, nat)>, newFiles: seq<(nat, File<K, V>)>, target: nat,
      news: seq<File<K, V>>)
    requires Edited(lt, before, after, deletions, newFiles) && |before.levels| == NUM_LEVELS && target < NUM_LEVELS
    requires forall l: nat, f: File<K, V> :: (l, f) in newFiles <==> l == target && f in news
    ensures Replaces(lt, before, after, deletions, target, news)
  {
    EditedHolds(lt, before, after, deletions, newFiles);
    forall l: nat, f | l < NUM_LEVELS
      ensures f in after.levels[l] <==> (f in before.levels[l] || (l == target && f in news)) && (l, f.number) !in deletions
    {
      assert (l, f) in newFiles <==> l == target && f in news;
    }
  }

  lemma LevelEntriesAfter<K(!new), V(!new)>(
      lt: (K, K) -> bool, before: Version<K, V>, after: Version<K, V>, deletions: set<(nat, nat)>, target: nat, news: seq<File<K, V>>, l: nat)
    requires Replaces(lt, before, after, deletions, target, news) && l < NUM_LEVELS
    ensures LevelEntries(after.levels[l]) <= LevelEntries(before.levels[l]) + if l == target then LevelEntries(news) else {}
  {
  }

  /** The new files fit: they are apart from what else their level holds, older than what is above and newer
      than what is below; in level 0 they are the newest. */
  ghost predicate Fits<K(!new), V(!new)>(lt: (K, K) -> bool, after: Version<K, V>, target: nat, news: seq<File<K, V>>)
    requires |after.levels| == NUM_LEVELS && target < NUM_LEVELS
  {
    && AllWellFormed(lt, news)
    && (target > 0 ==> forall f, g | f in news && g in after.levels[target] && f != g :: Apart(lt, f, g))
    && (forall l | 0 <= l < target :: NewerThan(LevelEntries(after.levels[l]), LevelEntries(news)))
    && (forall m | target < m < NUM_LEVELS :: NewerThan(LevelEntries(news), LevelEntries(after.levels[m])))
    && (target == 0 ==> forall f, g | f in news && g in after.levels[0] && f != g ::
          f.number > g.number && NewerThan(Elements(f.entries), Elements(g.entries)))
  }

  lemma ReplacesKeepsAges<K(!new), V(!new)>(
      lt: (K, K) -> bool, before: Version<K, V>, after: Version<K, V>, deletions: set<(nat, nat)>, target: nat, news: seq<File<K, V>>, l: nat, m: nat)
    requires ValidVersion(lt, before) && Replaces(lt, before, after, deletions, target, news) && Fits(lt, after, target, news)
    requires l < m < NUM_LEVELS
    ensures NewerThan(LevelEntries(after.levels[l]), LevelEntries(after.levels[m]))
  {
    LevelEntriesAfter(lt, before, after, deletions, target, news, l);
    LevelEntriesAfter(lt, before, after, deletions, target, news, m);
    assert NewerThan(LevelEntries(before.levels[l]), LevelEntries(before.levels[m]));
  }

  lemma ReplacesKeepsLevel<K(!new), V(!new)>(
      lt: (K, K) -> bool, before: Version<K, V>, after: Version<K, V>, deletions: set<(nat, nat)>, target: nat, news: seq<File<K, V>>, l: nat)
    requires TotalOrder(lt) && ValidVersion(lt, before) && l < NUM_LEVELS
    requires Replaces(lt, before, after, deletions, target, news) && Fits(lt, after, target, news)
    ensures AllWellFormed(lt, after.levels[l])
    ensures l > 0 ==> PairwiseApart(lt, after.levels[l])
  {
    hide ValidVersion, WellFormed, NewerThan, TotalOrder;
    LevelIsValid(lt, before, l);
    if l > 0 {
      SortedDisjointIsApart(lt, before.levels[l]);
    }
  }

  lemma ReplacesKeepsLevelZero<K(!new), V(!new)>(
      lt: (K, K) -> bool, before: Version<K, V>, after: Version<K, V>, deletions: set<(nat, nat)>, target: nat, news: seq<File<K, V>>)
    requires ValidVersion(lt, before)
    requires Replaces(lt, before, after, deletions, target, news) && Fits(lt, after, target, news)
    ensures forall f, g | f in after.levels[0] && g in after.levels[0] && f.number > g.number :: NewerThan(Elements(f.entries), Elements(g.entries))
    ensures forall f, g | f in after.levels[0] && g in after.levels[0] && f.number == g.number :: f == g
  {
    hide WellFormed, NewerThan;
  }

  lemma ReplacesKeepsValid<K(!new), V(!new)>(
      lt: (K, K) -> bool, before: Version<K, V>, after: Version<K, V>, deletions: set<(nat, nat)>, target: nat, news: seq<File<K, V>>)
    requires TotalOrder(lt) && ValidVersion(lt, before)
    requires Replaces(lt, before, after, deletions, target, news) && Fits(lt, after, target, news)
    ensures ValidVersion(lt, after)
  {
    hide ValidVersion, WellFormed, NewerThan, TotalOrder, Fits, PairwiseApart;
    forall l, m | 0 <= l < m < NUM_LEVELS ensures NewerThan(LevelEntries(after.levels[l]), LevelEntries(after.levels[m])) {
      ReplacesKeepsAges(lt, before, after, deletions, target, news, l, m);
    }
    forall l | 0 <= l < NUM_LEVELS
      ensures AllWellFormed(lt, after.levels[l])
      ensures l > 0 ==> PairwiseApart(lt, after.levels[l])
    {
      ReplacesKeepsLevel(lt, before, after, deletions, target, news, l);
    }
    ReplacesKeepsLevelZero(lt, before, after, deletions, target, news);
    ValidFromParts(lt, after);
  }

  lemma LevelEntriesInVersion<K(!new), V(!new)>(v: Version<K, V>, l: nat)
    requires l < |v.levels|
    ensures LevelEntries(v.levels[l]) <= VersionEntries(v)
  {
  }

  /** Entries with higher sequence numbers are newer. */
  lemma LaterIsNewer<K(!new), V(!new)>(es: set<Entry<K, V>>, ds: set<Entry<K, V>>, bound: nat)
    requires forall e | e in es :: e.key.seqno > bound
    requires forall d | d in ds :: d.key.seqno <= bound
    ensures NewerThan(es, ds)
  {
  }

  /** Nothing in a level that does not overlap a file shares a user key with it. */
  lemma NoOverlapNewer<K(!new), V(!new)>(lt: (K, K) -> bool, v: Version<K, V>, l: nat, f: File<K, V>)
    requires TotalOrder(lt) && ValidVersion(lt, v) && WellFormed(lt, f) && l < NUM_LEVELS
    requires !OverlapInLevel(lt, v, l, f.smallest.user, f.largest.user)
    ensures NewerThan(LevelEntries(v.levels[l]), Elements(f.entries))
    ensures forall g | g in v.levels[l] :: Apart(lt, f, g)
  {
    forall e, d | e in LevelEntries(v.levels[l]) && d in Elements(f.entries) ensures e.key.user != d.key.user {
      var g :| g in v.levels[l] && e in g.entries;
      WithinBounds(lt, f, d);
      if e.key.user == d.key.user {
        HoldsOverlaps(lt, g, e, Some(f.smallest.user), Some(f.largest.user));
      }
    }
  }

  lemma SingleLevelEntries<K(!new), V(!new)>(f: File<K, V>)
    ensures LevelEntries([f]) == Elements(f.entries)
  {
    assert f in [f];
  }

  lemma FlushReplaces<K(!new), V(!new)>(lt: (K, K) -> bool, s: State<K, V>, s': State<K, V>, size: nat, level: nat, entries: seq<Entry<K, V>>)
    requires FlushStep(lt, s, s', size, level, entries)
    ensures Replaces(lt, s.version, s'.version, {}, level, [BuildTable(s.nextFile, size, entries)])
  {
    hide Edited, Replaces, Sorted, OverlapInLevel;
    var file := BuildTable(s.nextFile, size, entries);
    EditReplaces(lt, s.version, s'.version, {}, [(level, file)], level, [file]);
  }

  /** The flushed entries are newer than all that any level holds. */
  lemma FlushIsNewer<K(!new), V(!new)>(
      lt: (K, K) -> bool, s: State<K, V>, s': State<K, V>, size: nat, level: nat, entries: seq<Entry<K, V>>, l: nat)
    requires ValidState(lt, s) && FlushStep(lt, s, s', size, level, entries) && l < NUM_LEVELS
    ensures NewerThan(Elements(entries), LevelEntries(s.version.levels[l]))
  {
    hide ValidVersion, NewerThan, ReadsAgree, Numbered, Sorted, Edited, Distinct;
    LevelEntriesInVersion(s.version, l);
    LaterIsNewer(Elements(entries), LevelEntries(s.version.levels[l]), s.lastSequence);
  }

  /** What other levels hold around a flushed table. */
  lemma FlushFitsBetween<K(!new), V(!new)>(
      lt: (K, K) -> bool, s: State<K, V>, s': State<K, V>, size: nat, level: nat, entries: seq<Entry<K, V>>, l: nat)
    requires TotalOrder(lt) && ValidState(lt, s) && FlushStep(lt, s, s', size, level, entries)
    requires l < NUM_LEVELS && l != level
    ensures l < level ==> NewerThan(LevelEntries(s'.version.levels[l]), Elements(entries))
    ensures level < l ==> NewerThan(Elements(entries), LevelEntries(s'.version.levels[l]))
  {
    var file := BuildTable(s.nextFile, size, entries);
    FlushReplaces(lt, s, s', size, level, entries);
    SameFilesSameEntries(s.version.levels[l], s'.version.levels[l]);
    if l < level {
      BuiltIsWellFormed(lt, s.nextFile, size, entries);
      NoOverlapNewer(lt, s.version, l, file);
    } else {
      FlushIsNewer(lt, s, s', size, level, entries, l);
    }
  }

  /** What its own level holds beside a flushed table. */
  lemma FlushFitsBeside<K(!new), V(!new)>(
      lt: (K, K) -> bool, s: State<K, V>, s': State<K, V>, size: nat, level: nat, entries: seq<Entry<K, V>>, g: File<K, V>)
    requires TotalOrder(lt) && ValidState(lt, s) && FlushStep(lt, s, s', size, level, entries)
    requires g in s'.version.levels[level] && g != BuildTable(s.nextFile, size, entries)
    ensures level > 0 ==> Apart(lt, BuildTable(s.nextFile, size, entries), g)
    ensures level == 0 ==> s.nextFile > g.number && NewerThan(Elements(entries), Elements(g.entries))
  {
    FlushReplaces(lt, s, s', size, level, entries);
    if level > 0 {
      BuiltIsWellFormed(lt, s.nextFile, size, entries);
      NoOverlapNewer(lt, s.version, level, BuildTable(s.nextFile, size, entries));
    } else {
      FlushIsNewer(lt, s, s', size, level, entries, 0);
      NewerThanFile(Elements(entries), s.version.levels[0], g);
    }
  }

  lemma FlushFits<K(!new), V(!new)>(lt: (K, K) -> bool, s: State<K, V>, s': State<K, V>, size: nat, level: nat, entries: seq<Entry<K, V>>)
    requires TotalOrder(lt) && ValidState(lt, s) && FlushStep(lt, s, s', size, level, entries)
    ensures Replaces(lt, s.version, s'.version, {}, level, [BuildTable(s.nextFile, size, entries)])
    ensures Fits(lt, s'.version, level, [BuildTable(s.nextFile, size, entries)])
  {
    hide ValidState, NewerThan, TotalOrder, WellFormed, Apart, LevelEntries, Replaces, Edited, OverlapInLevel, Sorted;
    var file := BuildTable(s.nextFile, size, entries);
    FlushReplaces(lt, s, s', size, level, entries);
    BuiltIsWellFormed(lt, s.nextFile, size, entries);
    SingleLevelEntries(file);
    forall l | 0 <= l < NUM_LEVELS && l != level
      ensures l < level ==> NewerThan(LevelEntries(s'.version.levels[l]), Elements(entries))
      ensures level < l ==> NewerThan(Elements(entries), LevelEntries(s'.version.levels[l]))
    {
      FlushFitsBetween(lt, s, s', size, level, entries, l);
    }
    forall g | g in s'.version.levels[level] && g != file
      ensures level > 0 ==> Apart(lt, file, g)
      ensures level == 0 ==> file.number > g.number && NewerThan(Elements(file.entries), Elements(g.entries))
    {
      FlushFitsBeside(lt, s, s', size, level, entries, g);
    }
  }

  lemma SameFilesSameEntries<K(!new), V(!new)>(a: seq<File<K, V>>, b: seq<File<K, V>>)
    requires forall f :: f in a <==> f in b
    ensures LevelEntries(a) == LevelEntries(b)
  {
  }

  lemma NewerThanFile<K(!new), V(!new)>(es: set<Entry<K, V>>, files: seq<File<K, V>>, g: File<K, V>)
    requires NewerThan(es, LevelEntries(files)) && g in files
    ensures NewerThan(es, Elements(g.entries))
  {
    assert forall d | d in Elements(g.entries) :: d in LevelEntries(files);
  }

  lemma BuiltIsWellFormed<K(!new), V(!new)>(lt: (K, K) -> bool, number: nat, size: nat, entries: seq<Entry<K, V>>)
    requires entries != [] && Sorted(lt, entries) && forall i | 0 <= i < |entries| :: entries[i].key.typ <= TYPE_VALUE
    ensures WellFormed(lt, BuildTable(number, size, entries))
  {
  }
}
