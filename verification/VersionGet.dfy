/** Point reads (db/version_set.cc, Version::Get; db/db_impl.cc, DBImpl::Get; db/memtable.cc, MemTable::Get). */
module VersionGet {
  import opened Keys
  import opened Cursors
  import opened Tables
  import opened VersionOps

  /** `r` is the newest entry of `k` that a read at `snapshot` may use, if there is one. */
  ghost predicate Answer<K(!new), V(!new)>(es: set<Entry<K, V>>, k: K, snapshot: nat, r: Option<Entry<K, V>>) {
    match r
    case Some(e) => Newest(es, k, snapshot, e)
    case None => forall e | e in es && e.key.user == k :: !Readable(e, snapshot)
  }

  lemma AnswerIsLookup<K(!new), V(!new)>(es: set<Entry<K, V>>, k: K, snapshot: nat, r: Option<Entry<K, V>>)
    requires Distinct(es) && Answer(es, k, snapshot, r)
    ensures Lookup(es, k, snapshot) == if r.Some? && r.value.key.typ == TYPE_VALUE then Some(r.value.value) else None
  {
    if r.Some? {
      LookupNewest(es, k, snapshot, r.value);
    }
  }

  /** An answer stands when only older entries of the key are added; without one, that of the rest does. */
  lemma {:induction false} AnswerOver<K(!new), V(!new)>(
      above: set<Entry<K, V>>, below: set<Entry<K, V>>, k: K, snapshot: nat, r: Option<Entry<K, V>>, rest: Option<Entry<K, V>>)
    requires NewerThan(above, below) && Answer(above, k, snapshot, r) && (r == None ==> Answer(below, k, snapshot, rest))
    ensures Answer(above + below, k, snapshot, if r == None then rest else r)
  {
  }

  /** What the saver is left with. */
  datatype SaverState<+V> = NotFound | Found(value: V) | Deleted | Corrupt

  function SaveValue<K(==), V>(userKey: K, key: InternalKey<K>, value: V, before: SaverState<V>): SaverState<V> {
    if key.typ > TYPE_VALUE then Corrupt
    else if key.user != userKey then before
    else if key.typ == TYPE_VALUE then Found(value) else Deleted
  }

  /** The saver's state says what the entry found holds. */
  ghost predicate States<K(!new), V(!new)>(state: SaverState<V>, r: Option<Entry<K, V>>) {
    match r
    case None => state == NotFound
    case Some(e) => e.key.typ <= TYPE_VALUE && state == if e.key.typ == TYPE_VALUE then Found(e.value) else Deleted
  }

  /** The first entry at or after the lookup key is the newest that the read may use, or of another key. */
  lemma FirstIsAnswer<K(!new), V(!new)>(lt: (K, K) -> bool, es: seq<Entry<K, V>>, k: K, snapshot: nat, i: nat)
    requires TotalOrder(lt) && Sorted(lt, es) && LowerBound(lt, es, InternalKey(k, snapshot, TYPE_VALUE), i)
    requires forall j | 0 <= j < |es| :: es[j].key.typ <= TYPE_VALUE
    ensures Answer(Elements(es), k, snapshot, if i < |es| && es[i].key.user == k then Some(es[i]) else None)
  {
    var target := InternalKey(k, snapshot, TYPE_VALUE);
    forall e | e in es && e.key.user == k && Readable(e, snapshot)
      ensures i < |es| && es[i].key.user == k && e.key.Tag() <= es[i].key.Tag()
    {
      var j :| 0 <= j < |es| && es[j] == e;
      assert !InternalLess(lt, e.key, target);
      assert i < j ==> InternalLess(lt, es[i].key, e.key);
    }
  }

  method TableGet<K(==, !new), V(!new)>(lt: (K, K) -> bool, f: File<K, V>, userKey: K, snapshot: nat)
      returns (state: SaverState<V>, ghost r: Option<Entry<K, V>>)
    requires TotalOrder(lt) && WellFormed(lt, f)
    ensures Answer(Elements(f.entries), userKey, snapshot, r) && States(state, r)
  {
    state := NotFound;
    var c := new Cursor(lt, f.entries);
    c.Seek(InternalKey(userKey, snapshot, TYPE_VALUE));
    FirstIsAnswer(lt, f.entries, userKey, snapshot, c.pos);
    r := None;
    if c.Valid() {
      state := SaveValue(userKey, c.Key(), c.Value(), state);
      r := if c.Key().user == userKey then Some(f.entries[c.pos]) else None;
    }
  }

  ghost predicate NewestFirst<K(!new), V(!new)>(files: seq<File<K, V>>) {
    forall i, j | 0 <= i < j < |files| :: files[i].number >= files[j].number
  }

  /** The files with `f` after those of no lower number. */
  method InsertNewestFirst<K(!new), V(!new)>(files: seq<File<K, V>>, f: File<K, V>) returns (r: seq<File<K, V>>)
    requires NewestFirst(files)
    ensures NewestFirst(r) && multiset(r) == multiset(files) + multiset{f}
  {
    hide NewestFirst;
    var p := 0;
    while p < |files| && files[p].number >= f.number
      invariant 0 <= p <= |files| && forall j | 0 <= j < p :: files[j].number >= f.number
    {
      p := p + 1;
    }
    r := files[..p] + [f] + files[p..];
    InsertedInOrder(files, p, f);
  }

  lemma InsertedInOrder<K(!new), V(!new)>(files: seq<File<K, V>>, p: nat, f: File<K, V>)
    requires NewestFirst(files) && p <= |files| && (forall j | 0 <= j < p :: files[j].number >= f.number)
    requires p < |files| ==> files[p].number < f.number
    ensures var r := files[..p] + [f] + files[p..]; NewestFirst(r) && multiset(r) == multiset(files) + multiset{f}
  {
    var r := files[..p] + [f] + files[p..];
    forall i, j | 0 <= i < j < |r| ensures r[i].number >= r[j].number {
      assert r[i] == if i < p then files[i] else if i == p then f else files[i - 1];
      assert r[j] == if j < p then files[j] else if j == p then f else files[j - 1];
      assert p < j ==> files[p].number >= files[j - 1].number;
    }
    InsertedSame(files, p, f);
  }

  lemma InsertedSame<K(!new), V(!new)>(files: seq<File<K, V>>, p: nat, f: File<K, V>)
    requires p <= |files|
    ensures multiset(files[..p] + [f] + files[p..]) == multiset(files) + multiset{f}
  {
    assert files == files[..p] + files[p..];
  }

  /** Level-0 files by falling number. */
  method SortNewestFirst<K(!new), V(!new)>(files: seq<File<K, V>>) returns (r: seq<File<K, V>>)
    ensures NewestFirst(r) && multiset(r) == multiset(files)
  {
    r := [];
    for i := 0 to |files|
      invariant NewestFirst(r) && multiset(r) == multiset(files[..i])
    {
      assert files[..i + 1] == files[..i] + [files[i]];
      r := InsertNewestFirst(r, files[i]);
    }
    assert files[..|files|] == files;
  }

  /** The files of level 0 that may hold the key, newest first. */
  method CandidatesInLevelZero<K(!new), V(!new)>(lt: (K, K) -> bool, files: seq<File<K, V>>, userKey: K) returns (tmp: seq<File<K, V>>)
    requires TotalOrder(lt) && AllWellFormed(lt, files)
    ensures NewestFirst(tmp)
    ensures forall f :: f in tmp <==> f in files && !lt(userKey, f.smallest.user) && !lt(f.largest.user, userKey)
  {
    hide AllWellFormed, TotalOrder;
    tmp := [];
    for i := 0 to |files|
      invariant forall f :: f in tmp <==> f in files[..i] && !lt(userKey, f.smallest.user) && !lt(f.largest.user, userKey)
    {
      var f := files[i];
      assert files[..i + 1] == files[..i] + [f];
      if !lt(userKey, f.smallest.user) && !lt(f.largest.user, userKey) {
        tmp := tmp + [f];
      }
    }
    assert files[..|files|] == files;
    ghost var found := tmp;
    tmp := SortNewestFirst(tmp);
    SameMembers(found, tmp);
  }

  lemma {:induction false} SameMembers<T>(a: seq<T>, b: seq<T>)
    requires multiset(a) == multiset(b)
    ensures forall x :: x in a <==> x in b
  {
    forall x ensures x in a <==> x in b {
      assert x in a <==> x in multiset(a);
      assert x in b <==> x in multiset(b);
    }
  }

  /** At most one file of a deeper level may hold a readable entry of the key: the first that does not end
      before the lookup key, if it does not begin after the user key. */
  method CandidateBelow<K(==, !new), V(!new)>(lt: (K, K) -> bool, files: seq<File<K, V>>, userKey: K, snapshot: nat) returns (tmp: seq<File<K, V>>)
    requires TotalOrder(lt) && AllWellFormed(lt, files) && SortedDisjoint(lt, files)
    ensures |tmp| <= 1
    ensures |tmp| == 1 ==> exists i: nat :: IsCandidate(lt, files, userKey, snapshot, i) && tmp[0] == files[i]
    ensures |tmp| == 0 ==> Answer(LevelEntries(files), userKey, snapshot, None)
  {
    hide AllWellFormed, SortedDisjoint, TotalOrder, Answer;
    var index := FindFile(lt, files, InternalKey(userKey, snapshot, TYPE_VALUE));
    if index >= |files| || lt(userKey, files[index].smallest.user) {
      NoCandidate(lt, files, userKey, snapshot, index);
      tmp := [];
    } else {
      assert IsCandidate(lt, files, userKey, snapshot, index);
      tmp := [files[index]];
    }
  }

  ghost predicate IsCandidate<K(!new), V(!new)>(lt: (K, K) -> bool, files: seq<File<K, V>>, userKey: K, snapshot: nat, i: nat)
    ensures IsCandidate(lt, files, userKey, snapshot, i) ==> i < |files|
  {
    i < |files| && FirstNotBefore(lt, files, InternalKey(userKey, snapshot, TYPE_VALUE), i)
  }

  lemma {:induction false} NoCandidate<K(!new), V(!new)>(lt: (K, K) -> bool, files: seq<File<K, V>>, k: K, snapshot: nat, index: nat)
    requires TotalOrder(lt) && AllWellFormed(lt, files) && SortedDisjoint(lt, files)
    requires FirstNotBefore(lt, files, InternalKey(k, snapshot, TYPE_VALUE), index)
    requires index < |files| ==> lt(k, files[index].smallest.user)
    ensures Answer(LevelEntries(files), k, snapshot, None)
  {
    hide SortedDisjoint, TotalOrder, Sorted;
    forall e | e in LevelEntries(files) && e.key.user == k ensures !Readable(e, snapshot) {
      var f :| f in files && e in f.entries;
      var j :| 0 <= j < |files| && files[j] == f;
      if index <= j {
        AllAfter(lt, files, index, j, e);
      } else {
        EndsBefore(lt, f, k, snapshot, e);
      }
    }
  }

  /** Entries of a file and those after it are at or after its smallest key. */
  lemma {:induction false} AllAfter<K(!new), V(!new)>(lt: (K, K) -> bool, files: seq<File<K, V>>, i: nat, j: nat, e: Entry<K, V>)
    requires TotalOrder(lt) && AllWellFormed(lt, files) && SortedDisjoint(lt, files) && i <= j < |files| && e in files[j].entries
    ensures !lt(e.key.user, files[i].smallest.user)
    ensures i < j ==> InternalLess(lt, files[i].largest, e.key)
  {
    assert files[i] in files && files[j] in files;
    WithinBounds(lt, files[j], e);
    WithinBounds(lt, files[i], files[i].entries[0]);
  }

  /** A file that ends before the lookup key holds nothing that the read may use. */
  lemma {:induction false} EndsBefore<K(!new), V(!new)>(lt: (K, K) -> bool, f: File<K, V>, k: K, snapshot: nat, e: Entry<K, V>)
    requires TotalOrder(lt) && WellFormed(lt, f) && e in f.entries && e.key.user == k
    requires InternalLess(lt, f.largest, InternalKey(k, snapshot, TYPE_VALUE))
    ensures !Readable(e, snapshot)
  {
    WithinBounds(lt, f, e);
  }

  /** What the candidate answers, its level answers. */
  lemma {:induction false} CandidateAnswers<K(!new), V(!new)>(
      lt: (K, K) -> bool, files: seq<File<K, V>>, k: K, snapshot: nat, index: nat, r: Option<Entry<K, V>>)
    requires TotalOrder(lt) && AllWellFormed(lt, files) && SortedDisjoint(lt, files) && IsCandidate(lt, files, k, snapshot, index)
    requires Answer(Elements(files[index].entries), k, snapshot, r)
    ensures Answer(LevelEntries(files), k, snapshot, r)
  {
    hide SortedDisjoint, TotalOrder, AllWellFormed;
    assert files[index] in files;
    CandidateEnd(lt, files, k, snapshot, index, r);
    forall e | e in LevelEntries(files) && e.key.user == k && Readable(e, snapshot)
      ensures r.Some? && e.key.Tag() <= r.value.key.Tag()
    {
      var f :| f in files && e in f.entries;
      var j :| 0 <= j < |files| && files[j] == f;
      CandidateBeats(lt, files, k, snapshot, index, r, j, e);
    }
  }

  /** Without an answer the candidate ends after the user key. */
  lemma {:induction false} CandidateEnd<K(!new), V(!new)>(
      lt: (K, K) -> bool, files: seq<File<K, V>>, k: K, snapshot: nat, index: nat, r: Option<Entry<K, V>>)
    requires TotalOrder(lt) && AllWellFormed(lt, files) && IsCandidate(lt, files, k, snapshot, index)
    requires Answer(Elements(files[index].entries), k, snapshot, r)
    ensures r == None ==> lt(k, files[index].largest.user)
  {
    var f := files[index];
    assert f in files;
    var last := f.entries[|f.entries| - 1];
    assert last in Elements(f.entries);
    assert !InternalLess(lt, last.key, InternalKey(k, snapshot, TYPE_VALUE));
  }

  lemma {:induction false} CandidateBeats<K(!new), V(!new)>(
      lt: (K, K) -> bool, files: seq<File<K, V>>, k: K, snapshot: nat, index: nat, r: Option<Entry<K, V>>, j: nat, e: Entry<K, V>)
    requires TotalOrder(lt) && AllWellFormed(lt, files) && SortedDisjoint(lt, files) && IsCandidate(lt, files, k, snapshot, index)
    requires Answer(Elements(files[index].entries), k, snapshot, r) && (r == None ==> lt(k, files[index].largest.user))
    requires j < |files| && e in files[j].entries && e.key.user == k && Readable(e, snapshot)
    ensures r.Some? && e.key.Tag() <= r.value.key.Tag()
  {
    hide SortedDisjoint;
    assert files[j] in files && files[index] in files;
    if j < index {
      EndsBefore(lt, files[j], k, snapshot, e);
      assert false;
    } else if index < j {
      AllAfter(lt, files, index, j, e);
      if r.Some? {
        WithinBounds(lt, files[index], r.value);
      }
    } else {
      assert e in Elements(files[index].entries);
    }
  }

  /** The first of the files that answers, if any does. */
  ghost predicate FirstAnswer<K(!new), V(!new)>(files: seq<File<K, V>>, k: K, snapshot: nat, r: Option<Entry<K, V>>, i: nat) {
    && i <= |files| && (r == None <==> i == |files|)
    && (forall j | 0 <= j < i :: Answer(Elements(files[j].entries), k, snapshot, None))
    && (r.Some? ==> i < |files| && Answer(Elements(files[i].entries), k, snapshot, r))
  }

  method SearchFiles<K(==, !new), V(!new)>(lt: (K, K) -> bool, files: seq<File<K, V>>, userKey: K, snapshot: nat)
      returns (state: SaverState<V>, ghost r: Option<Entry<K, V>>, ghost i: nat)
    requires TotalOrder(lt) && AllWellFormed(lt, files)
    ensures FirstAnswer(files, userKey, snapshot, r, i) && States(state, r)
  {
    hide TotalOrder, Answer, WellFormed;
    i := 0;
    for n := 0 to |files|
      invariant i == n && forall j | 0 <= j < n :: Answer(Elements(files[j].entries), userKey, snapshot, None)
    {
      assert files[n] in files;
      state, r := TableGet(lt, files[n], userKey, snapshot);
      match state
      case NotFound => i := i + 1;
      case Found(_) => return;
      case Deleted => return;
      case Corrupt => assert false;
    }
    state, r := NotFound, None;
  }

  /** What a search of single levels needs of a version: nothing about how old they are against each other. */
  ghost predicate Searchable<K(!new), V(!new)>(lt: (K, K) -> bool, v: Version<K, V>)
    ensures Searchable(lt, v) ==> |v.levels| == NUM_LEVELS
  {
    && |v.levels| == NUM_LEVELS
    && (forall l | 0 <= l < NUM_LEVELS :: AllWellFormed(lt, v.levels[l]))
    && (forall l | 1 <= l < NUM_LEVELS :: SortedDisjoint(lt, v.levels[l]))
    && (forall f, g | f in v.levels[0] && g in v.levels[0] && f.number > g.number :: NewerThan(Elements(f.entries), Elements(g.entries)))
    && (forall f, g | f in v.levels[0] && g in v.levels[0] && f.number == g.number :: f == g)
  }

  lemma ValidIsSearchable<K(!new), V(!new)>(lt: (K, K) -> bool, v: Version<K, V>)
    requires ValidVersion(lt, v)
    ensures Searchable(lt, v)
  {
    hide WellFormed, SortedDisjoint, NewerThan;
  }

  lemma SearchableLevel<K(!new), V(!new)>(lt: (K, K) -> bool, v: Version<K, V>, l: nat)
    requires Searchable(lt, v) && l < NUM_LEVELS
    ensures AllWellFormed(lt, v.levels[l]) && (l > 0 ==> SortedDisjoint(lt, v.levels[l]))
  {
  }

  lemma LevelZeroAges<K(!new), V(!new)>(lt: (K, K) -> bool, v: Version<K, V>)
    requires Searchable(lt, v)
    ensures forall f, g | f in v.levels[0] && g in v.levels[0] && f.number > g.number :: NewerThan(Elements(f.entries), Elements(g.entries))
    ensures forall f, g | f in v.levels[0] && g in v.levels[0] && f.number == g.number :: f == g
  {
  }

  /** In level 0 the newest file that answers beats those of lower number, and files whose bounds leave the
      key out hold nothing of it. */
  lemma {:induction false} LevelZeroAnswers<K(!new), V(!new)>(
      lt: (K, K) -> bool, v: Version<K, V>, tmp: seq<File<K, V>>, k: K, snapshot: nat, r: Option<Entry<K, V>>, i: nat)
    requires TotalOrder(lt) && Searchable(lt, v) && NewestFirst(tmp) && FirstAnswer(tmp, k, snapshot, r, i)
    requires forall f :: f in tmp <==> f in v.levels[0] && !lt(k, f.smallest.user) && !lt(f.largest.user, k)
    ensures Answer(LevelEntries(v.levels[0]), k, snapshot, r)
  {
    hide TotalOrder, SortedDisjoint, WellFormed, Searchable, NewestFirst, FirstAnswer, NewerThan, Readable;
    SearchableLevel(lt, v, 0);
    LevelZeroAges(lt, v);
    FirstAnswerIs(tmp, k, snapshot, r, i);
    forall e | e in LevelEntries(v.levels[0]) && e.key.user == k && Readable(e, snapshot)
      ensures r.Some? && e.key.Tag() <= r.value.key.Tag()
    {
      var f :| f in v.levels[0] && e in f.entries;
      WithinBounds(lt, f, e);
      FirstBeats(v.levels[0], tmp, k, snapshot, r, i, f, e);
    }
    if r.Some? {
      assert tmp[i] in tmp;
      assert r.value in Elements(tmp[i].entries);
    }
  }

  lemma FirstAnswerIs<K(!new), V(!new)>(tmp: seq<File<K, V>>, k: K, snapshot: nat, r: Option<Entry<K, V>>, i: nat)
    requires FirstAnswer(tmp, k, snapshot, r, i)
    ensures r.Some? ==> i < |tmp| && r.value in tmp[i].entries && r.value.key.user == k && Readable(r.value, snapshot)
  {
  }

  /** The first file that answers beats every entry of the others. */
  lemma {:induction false} FirstBeats<K(!new), V(!new)>(
      files: seq<File<K, V>>, tmp: seq<File<K, V>>, k: K, snapshot: nat, r: Option<Entry<K, V>>, i: nat, f: File<K, V>, e: Entry<K, V>)
    requires NewestFirst(tmp) && FirstAnswer(tmp, k, snapshot, r, i) && f in tmp && f in files && forall g | g in tmp :: g in files
    requires forall f, g | f in files && g in files && f.number > g.number :: NewerThan(Elements(f.entries), Elements(g.entries))
    requires forall f, g | f in files && g in files && f.number == g.number :: f == g
    requires e in f.entries && e.key.user == k && Readable(e, snapshot)
    ensures r.Some? && e.key.Tag() <= r.value.key.Tag()
  {
    var j :| 0 <= j < |tmp| && tmp[j] == f;
    assert e in Elements(f.entries);
    assert i <= j && i < |tmp| && tmp[i] in tmp && tmp[i].number >= f.number;
    assert tmp[i].number > f.number ==> NewerThan(Elements(tmp[i].entries), Elements(f.entries));
  }

  method SearchLevel<K(==, !new), V(!new)>(lt: (K, K) -> bool, v: Version<K, V>, level: nat, userKey: K, snapshot: nat)
      returns (state: SaverState<V>, ghost r: Option<Entry<K, V>>)
    requires TotalOrder(lt) && Searchable(lt, v) && level < NUM_LEVELS
    ensures Answer(LevelEntries(v.levels[level]), userKey, snapshot, r) && States(state, r)
  {
    hide TotalOrder, Searchable, Answer, States, WellFormed, NewestFirst, SortedDisjoint, LevelEntries;
    SearchableLevel(lt, v, level);
    var files := v.levels[level];
    ghost var i;
    if level == 0 {
      var tmp := CandidatesInLevelZero(lt, files, userKey);
      state, r, i := SearchFiles(lt, tmp, userKey, snapshot);
      LevelZeroAnswers(lt, v, tmp, userKey, snapshot, r, i);
    } else {
      var tmp := CandidateBelow(lt, files, userKey, snapshot);
      assert |tmp| == 1 ==> tmp[0] in files;
      state, r, i := SearchFiles(lt, tmp, userKey, snapshot);
      BelowAnswers(lt, files, tmp, userKey, snapshot, r, i);
    }
  }

  lemma {:induction false} BelowAnswers<K(!new), V(!new)>(
      lt: (K, K) -> bool, files: seq<File<K, V>>, tmp: seq<File<K, V>>, k: K, snapshot: nat, r: Option<Entry<K, V>>, i: nat)
    requires TotalOrder(lt) && AllWellFormed(lt, files) && SortedDisjoint(lt, files) && FirstAnswer(tmp, k, snapshot, r, i)
    requires |tmp| <= 1
    requires |tmp| == 1 ==> exists i: nat :: IsCandidate(lt, files, k, snapshot, i) && tmp[0] == files[i]
    requires |tmp| == 0 ==> Answer(LevelEntries(files), k, snapshot, None)
    ensures Answer(LevelEntries(files), k, snapshot, r)
  {
    hide TotalOrder, AllWellFormed, SortedDisjoint, Answer, IsCandidate;
    if |tmp| == 1 {
      var index: nat :| IsCandidate(lt, files, k, snapshot, index) && tmp[0] == files[index];
      CandidateAnswers(lt, files, k, snapshot, index, r);
    }
  }

  /** The entries of levels `from` and deeper. */
  ghost function DeeperEntries<K(!new), V(!new)>(v: Version<K, V>, from: nat): set<Entry<K, V>> {
    set l, e | from <= l < |v.levels| && e in LevelEntries(v.levels[l]) :: e
  }

  /** Levels are newer than all that is deeper. */
  lemma {:induction false} LevelOverDeeper<K(!new), V(!new)>(lt: (K, K) -> bool, v: Version<K, V>, level: nat)
    requires ValidVersion(lt, v) && level < NUM_LEVELS
    ensures DeeperEntries(v, level) == LevelEntries(v.levels[level]) + DeeperEntries(v, level + 1)
    ensures NewerThan(LevelEntries(v.levels[level]), DeeperEntries(v, level + 1))
  {
    hide WellFormed, SortedDisjoint;
    forall e | e in DeeperEntries(v, level + 1)
      ensures forall d | d in LevelEntries(v.levels[level]) && d.key.user == e.key.user :: d.key.Tag() > e.key.Tag()
    {
      var l: nat :| level + 1 <= l < |v.levels| && e in LevelEntries(v.levels[l]);
      assert NewerThan(LevelEntries(v.levels[level]), LevelEntries(v.levels[l]));
    }
  }

  /** If the levels above hold no readable entry, what `level` and deeper levels answer the version answers. */
  ghost predicate Remaining<K(!new), V(!new)>(v: Version<K, V>, k: K, snapshot: nat, level: nat) {
    forall r: Option<Entry<K, V>> | Answer(DeeperEntries(v, level), k, snapshot, r) :: Answer(VersionEntries(v), k, snapshot, r)
  }

  lemma {:induction false} RemainingStart<K(!new), V(!new)>(v: Version<K, V>, k: K, snapshot: nat)
    ensures Remaining(v, k, snapshot, 0)
  {
    assert DeeperEntries(v, 0) == VersionEntries(v);
  }

  lemma {:induction false} RemainingStep<K(!new), V(!new)>(lt: (K, K) -> bool, v: Version<K, V>, k: K, snapshot: nat, level: nat, r: Option<Entry<K, V>>)
    requires ValidVersion(lt, v) && level < NUM_LEVELS && Remaining(v, k, snapshot, level)
    requires Answer(LevelEntries(v.levels[level]), k, snapshot, r)
    ensures r.Some? ==> Answer(VersionEntries(v), k, snapshot, r)
    ensures r == None ==> Remaining(v, k, snapshot, level + 1)
  {
    hide ValidVersion, Answer, NewerThan;
    LevelOverDeeper(lt, v, level);
    var above, below := LevelEntries(v.levels[level]), DeeperEntries(v, level + 1);
    if r.Some? {
      AnswerOver(above, below, k, snapshot, r, None);
    } else {
      forall rest: Option<Entry<K, V>> | Answer(below, k, snapshot, rest) ensures Answer(VersionEntries(v), k, snapshot, rest) {
        AnswerOver(above, below, k, snapshot, r, rest);
      }
    }
  }

  lemma {:induction false} RemainingEnd<K(!new), V(!new)>(v: Version<K, V>, k: K, snapshot: nat)
    requires |v.levels| == NUM_LEVELS && Remaining(v, k, snapshot, NUM_LEVELS)
    ensures Answer(VersionEntries(v), k, snapshot, None)
  {
    assert Answer(DeeperEntries(v, NUM_LEVELS), k, snapshot, None);
  }

  /** Level `n` is the first that has an entry for the read, which is `r`; without one, `n` is past the last. */
  ghost predicate StopsAt<K(!new), V(!new)>(v: Version<K, V>, k: K, snapshot: nat, r: Option<Entry<K, V>>, n: nat) {
    && |v.levels| == NUM_LEVELS && n <= NUM_LEVELS && (r == None <==> n == NUM_LEVELS)
    && (forall l | 0 <= l < n :: Answer(LevelEntries(v.levels[l]), k, snapshot, None))
    && (r.Some? ==> Answer(LevelEntries(v.levels[n]), k, snapshot, r))
  }

  /** The search of the levels, which stops at the first that answers. */
  method SearchLevels<K(==, !new), V(!new)>(lt: (K, K) -> bool, v: Version<K, V>, userKey: K, snapshot: nat)
      returns (result: Option<V>, ghost r: Option<Entry<K, V>>, ghost n: nat)
    requires TotalOrder(lt) && Searchable(lt, v)
    ensures StopsAt(v, userKey, snapshot, r, n)
    ensures result == if r.Some? && r.value.key.typ == TYPE_VALUE then Some(r.value.value) else None
  {
    hide TotalOrder, Searchable, Answer;
    n := 0;
    for level := 0 to NUM_LEVELS
      invariant n == level && forall l | 0 <= l < level :: Answer(LevelEntries(v.levels[l]), userKey, snapshot, None)
    {
      var state;
      state, r := SearchLevel(lt, v, level, userKey, snapshot);
      match state
      case NotFound => n := n + 1;
      case Found(value) => return Some(value), r, n;
      case Deleted => return None, r, n;
      case Corrupt => assert false;
    }
    return None, None, n;
  }

  lemma {:induction false} RemainingAfter<K(!new), V(!new)>(lt: (K, K) -> bool, v: Version<K, V>, k: K, snapshot: nat, n: nat)
    requires ValidVersion(lt, v) && n <= NUM_LEVELS && forall l | 0 <= l < n :: Answer(LevelEntries(v.levels[l]), k, snapshot, None)
    ensures Remaining(v, k, snapshot, n)
  {
    hide ValidVersion, Answer, Remaining;
    if n == 0 {
      RemainingStart(v, k, snapshot);
    } else {
      RemainingAfter(lt, v, k, snapshot, n - 1);
      RemainingStep<K, V>(lt, v, k, snapshot, n - 1, None);
    }
  }

  /** In a valid version the first level that answers has the newest entry of all. */
  lemma {:induction false} StoppedIsAnswer<K(!new), V(!new)>(
      lt: (K, K) -> bool, v: Version<K, V>, k: K, snapshot: nat, r: Option<Entry<K, V>>, n: nat)
    requires ValidVersion(lt, v) && StopsAt(v, k, snapshot, r, n)
    ensures Answer(VersionEntries(v), k, snapshot, r)
  {
    hide ValidVersion, Answer, Remaining;
    RemainingAfter(lt, v, k, snapshot, n);
    if n == NUM_LEVELS {
      RemainingEnd(v, k, snapshot);
    } else {
      RemainingStep(lt, v, k, snapshot, n, r);
    }
  }

  /** Stopping at the first level that answers finds what a scan of every file would. */
  method Get<K(==, !new), V(!new)>(lt: (K, K) -> bool, v: Version<K, V>, userKey: K, snapshot: nat)
      returns (result: Option<V>, ghost r: Option<Entry<K, V>>)
    requires TotalOrder(lt) && ValidVersion(lt, v)
    ensures result == Lookup(VersionEntries(v), userKey, snapshot)
    ensures Answer(VersionEntries(v), userKey, snapshot, r)
    ensures result == if r.Some? && r.value.key.typ == TYPE_VALUE then Some(r.value.value) else None
  {
    hide TotalOrder, ValidVersion, Answer, Lookup, StopsAt, Searchable;
    VersionIsDistinct(lt, v);
    ValidIsSearchable(lt, v);
    ghost var n;
    result, r, n := SearchLevels(lt, v, userKey, snapshot);
    StoppedIsAnswer(lt, v, userKey, snapshot, r, n);
    AnswerIsLookup(VersionEntries(v), userKey, snapshot, r);
  }

  /** The memtable's answer, from a seek to the lookup key. */
  method MemTableGet<K(==, !new), V(!new)>(lt: (K, K) -> bool, mem: seq<Entry<K, V>>, userKey: K, snapshot: nat)
      returns (state: SaverState<V>, ghost r: Option<Entry<K, V>>)
    requires TotalOrder(lt) && Sorted(lt, mem) && forall i | 0 <= i < |mem| :: mem[i].key.typ <= TYPE_VALUE
    ensures Answer(Elements(mem), userKey, snapshot, r) && States(state, r)
  {
    state, r := NotFound, None;
    var c := new Cursor(lt, mem);
    c.Seek(InternalKey(userKey, snapshot, TYPE_VALUE));
    FirstIsAnswer(lt, mem, userKey, snapshot, c.pos);
    if c.Valid() && c.Key().user == userKey {
      r := Some(mem[c.pos]);
      if c.Key().typ == TYPE_VALUE {
        state := Found(c.Value());
      } else if c.Key().typ == TYPE_DELETION {
        state := Deleted;
      }
    }
  }

  ghost predicate IsMemTable<K(!new), V(!new)>(lt: (K, K) -> bool, mem: seq<Entry<K, V>>) {
    Sorted(lt, mem) && forall i | 0 <= i < |mem| :: mem[i].key.typ <= TYPE_VALUE
  }

  /** A read of the whole store: the memtable, the one being flushed, then the version, each newer than what
      comes after it. */
  method GetFromStore<K(==, !new), V(!new)>(
      lt: (K, K) -> bool, mem: seq<Entry<K, V>>, imm: Option<seq<Entry<K, V>>>, v: Version<K, V>, userKey: K, snapshot: nat)
      returns (result: Option<V>)
    requires TotalOrder(lt) && ValidVersion(lt, v) && IsMemTable(lt, mem) && (imm.Some? ==> IsMemTable(lt, imm.value))
    requires NewerThan(Elements(mem), ImmEntries(imm) + VersionEntries(v)) && NewerThan(ImmEntries(imm), VersionEntries(v))
    ensures result == Lookup(Elements(mem) + (ImmEntries(imm) + VersionEntries(v)), userKey, snapshot)
  {
    hide TotalOrder, ValidVersion, Answer, Lookup, NewerThan, Distinct, Sorted;
    StoreIsDistinct(lt, mem, imm, v);
    ghost var inMem, inImm: Option<Entry<K, V>>, inVersion: Option<Entry<K, V>>;
    ghost var lower := ImmEntries(imm) + VersionEntries(v);
    var state;
    state, inMem := MemTableGet(lt, mem, userKey, snapshot);
    inImm, inVersion := None, None;
    NoImm<K, V>(imm, userKey, snapshot);
    if state.NotFound? && imm.Some? {
      state, inImm := MemTableGet(lt, imm.value, userKey, snapshot);
    }
    if state.NotFound? {
      result, inVersion := Get(lt, v, userKey, snapshot);
    } else {
      result := if state.Found? then Some(state.value) else None;
    }
    if inMem == None {
      AnswerOver(ImmEntries(imm), VersionEntries(v), userKey, snapshot, inImm, inVersion);
    }
    var inLower := if inImm == None then inVersion else inImm;
    AnswerOver(Elements(mem), lower, userKey, snapshot, inMem, inLower);
    AnswerIsLookup(Elements(mem) + lower, userKey, snapshot, if inMem == None then inLower else inMem);
  }

  ghost function ImmEntries<K(!new), V(!new)>(imm: Option<seq<Entry<K, V>>>): set<Entry<K, V>> {
    if imm.Some? then Elements(imm.value) else {}
  }

  lemma {:induction false} NoImm<K(!new), V(!new)>(imm: Option<seq<Entry<K, V>>>, k: K, snapshot: nat)
    ensures imm == None ==> Answer(ImmEntries(imm), k, snapshot, None)
  {
  }

  lemma {:induction false} StoreIsDistinct<K(!new), V(!new)>(
      lt: (K, K) -> bool, mem: seq<Entry<K, V>>, imm: Option<seq<Entry<K, V>>>, v: Version<K, V>)
    requires TotalOrder(lt) && ValidVersion(lt, v) && IsMemTable(lt, mem) && (imm.Some? ==> IsMemTable(lt, imm.value))
    requires NewerThan(Elements(mem), ImmEntries(imm) + VersionEntries(v)) && NewerThan(ImmEntries(imm), VersionEntries(v))
    ensures Distinct(Elements(mem) + (ImmEntries(imm) + VersionEntries(v)))
  {
    hide TotalOrder, ValidVersion, Sorted;
    SortedIsDistinct(lt, mem);
    if imm.Some? {
      SortedIsDistinct(lt, imm.value);
    }
    VersionIsDistinct(lt, v);
  }
}
