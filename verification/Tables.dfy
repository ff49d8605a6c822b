/** Tables, levels and versions (db/version_edit.h, db/version_set.h). A table is its sorted entries. */
module Tables {
  import opened Keys

  const NUM_LEVELS := 7

  datatype File<+K, +V> = File(number: nat, size: nat, smallest: InternalKey<K>, largest: InternalKey<K>, entries: seq<Entry<K, V>>)

  /** The file holds a nonempty sorted run of keys that parse. */
  ghost predicate WellFormed<K(!new), V(!new)>(lt: (K, K) -> bool, f: File<K, V>) {
    && f.entries != [] && Sorted(lt, f.entries)
    && f.smallest == f.entries[0].key && f.largest == f.entries[|f.entries| - 1].key
    && forall i | 0 <= i < |f.entries| :: f.entries[i].key.typ <= TYPE_VALUE
  }

  ghost predicate AllWellFormed<K(!new), V(!new)>(lt: (K, K) -> bool, files: seq<File<K, V>>) {
    forall f | f in files :: WellFormed(lt, f)
  }

  /** Every user key of a file lies between those of its bounds. */
  lemma WithinBounds<K(!new), V(!new)>(lt: (K, K) -> bool, f: File<K, V>, e: Entry<K, V>)
    requires TotalOrder(lt) && WellFormed(lt, f) && e in f.entries
    ensures !lt(e.key.user, f.smallest.user) && !lt(f.largest.user, e.key.user)
    ensures !InternalLess(lt, e.key, f.smallest) && !InternalLess(lt, f.largest, e.key)
  {
    var i :| 0 <= i < |f.entries| && f.entries[i] == e;
    assert 0 < i ==> InternalLess(lt, f.entries[0].key, f.entries[i].key);
    assert i < |f.entries| - 1 ==> InternalLess(lt, f.entries[i].key, f.entries[|f.entries| - 1].key);
  }

  ghost function LevelEntries<K(!new), V(!new)>(files: seq<File<K, V>>): set<Entry<K, V>> {
    set f, e | f in files && e in f.entries :: e
  }

  datatype Version<+K, +V> = Version(levels: seq<seq<File<K, V>>>)

  ghost function VersionEntries<K(!new), V(!new)>(v: Version<K, V>): set<Entry<K, V>> {
    set l, e | 0 <= l < |v.levels| && e in LevelEntries(v.levels[l]) :: e
  }

  /** Files in key order with disjoint ranges. */
  ghost predicate SortedDisjoint<K(!new), V(!new)>(lt: (K, K) -> bool, files: seq<File<K, V>>) {
    forall i, j | 0 <= i < j < |files| :: InternalLess(lt, files[i].largest, files[j].smallest)
  }

  /** Entries of `es` are newer than those of `ds` with the same user key. */
  ghost predicate NewerThan<K(!new), V(!new)>(es: set<Entry<K, V>>, ds: set<Entry<K, V>>) {
    forall e, d | e in es && d in ds && e.key.user == d.key.user :: e.key.Tag() > d.key.Tag()
  }

  /** What every version keeps: well-formed files with their own numbers, disjoint sorted ranges from level
      1 down, older entries in deeper levels, and older entries in level-0 files of lower number. */
  ghost predicate ValidVersion<K(!new), V(!new)>(lt: (K, K) -> bool, v: Version<K, V>)
    ensures ValidVersion(lt, v) ==> |v.levels| == NUM_LEVELS
  {
    && |v.levels| == NUM_LEVELS
    && (forall l, f | 0 <= l < NUM_LEVELS && f in v.levels[l] :: WellFormed(lt, f))
    && (forall l | 1 <= l < NUM_LEVELS :: SortedDisjoint(lt, v.levels[l]))
    && (forall l, m | 0 <= l < m < NUM_LEVELS :: NewerThan(LevelEntries(v.levels[l]), LevelEntries(v.levels[m])))
    && (forall f, g | f in v.levels[0] && g in v.levels[0] && f.number > g.number :: NewerThan(Elements(f.entries), Elements(g.entries)))
    && (forall f, g | f in v.levels[0] && g in v.levels[0] && f.number == g.number :: f == g)
  }

  lemma LevelIsValid<K(!new), V(!new)>(lt: (K, K) -> bool, v: Version<K, V>, l: nat)
    requires ValidVersion(lt, v) && l < NUM_LEVELS
    ensures forall f | f in v.levels[l] :: WellFormed(lt, f)
    ensures l > 0 ==> SortedDisjoint(lt, v.levels[l])
  {
  }

  /** Some user key of the file may lie in the range; an absent bound is unbounded. */
  predicate Overlaps<K, V>(lt: (K, K) -> bool, f: File<K, V>, begin: Option<K>, end: Option<K>)
  {
    && !(begin.Some? && lt(f.largest.user, begin.value))
    && !(end.Some? && lt(end.value, f.smallest.user))
  }

  /** A file holding the user key overlaps every range around it. */
  lemma HoldsOverlaps<K(!new), V(!new)>(lt: (K, K) -> bool, f: File<K, V>, e: Entry<K, V>, begin: Option<K>, end: Option<K>)
    requires TotalOrder(lt) && WellFormed(lt, f) && e in f.entries
    requires begin.Some? ==> !lt(e.key.user, begin.value)
    requires end.Some? ==> !lt(end.value, e.key.user)
    ensures Overlaps(lt, f, begin, end)
  {
    WithinBounds(lt, f, e);
  }

  /** All entries of a valid version have their own internal keys. */
  lemma VersionIsDistinct<K(!new), V(!new)>(lt: (K, K) -> bool, v: Version<K, V>)
    requires TotalOrder(lt) && ValidVersion(lt, v)
    ensures Distinct(VersionEntries(v))
  {
    forall e, d | e in VersionEntries(v) && d in VersionEntries(v) && e.key.user == d.key.user && e.key.Tag() == d.key.Tag()
      ensures e == d
    {
      var l :| 0 <= l < NUM_LEVELS && e in LevelEntries(v.levels[l]);
      var m :| 0 <= m < NUM_LEVELS && d in LevelEntries(v.levels[m]);
      assert l == m;
      SameLevelSameEntry(lt, v, l, e, d);
    }
  }

  /** In a level of disjoint files only one can hold a given internal key. */
  lemma DisjointSameFile<K(!new), V(!new)>(lt: (K, K) -> bool, files: seq<File<K, V>>, f: File<K, V>, g: File<K, V>, e: Entry<K, V>, d: Entry<K, V>)
    requires TotalOrder(lt) && SortedDisjoint(lt, files) && f in files && g in files
    requires WellFormed(lt, f) && WellFormed(lt, g) && e in f.entries && d in g.entries
    requires e.key.user == d.key.user && e.key.Tag() == d.key.Tag()
    ensures f == g
  {
    WithinBounds(lt, f, e);
    WithinBounds(lt, g, d);
    var i :| 0 <= i < |files| && files[i] == f;
    var j :| 0 <= j < |files| && files[j] == g;
    assert i < j ==> InternalLess(lt, f.largest, g.smallest);
    assert j < i ==> InternalLess(lt, g.largest, f.smallest);
  }

  lemma SameLevelSameEntry<K(!new), V(!new)>(lt: (K, K) -> bool, v: Version<K, V>, l: nat, e: Entry<K, V>, d: Entry<K, V>)
    requires TotalOrder(lt) && ValidVersion(lt, v) && l < NUM_LEVELS
    requires e in LevelEntries(v.levels[l]) && d in LevelEntries(v.levels[l])
    requires e.key.user == d.key.user && e.key.Tag() == d.key.Tag()
    ensures e == d
  {
    var f :| f in v.levels[l] && e in f.entries;
    var g :| g in v.levels[l] && d in g.entries;
    assert WellFormed(lt, f) && WellFormed(lt, g);
    assert e in Elements(f.entries) && d in Elements(g.entries);
    if l > 0 {
      DisjointSameFile(lt, v.levels[l], f, g, e, d);
    } else {
      assert f.number > g.number ==> NewerThan(Elements(f.entries), Elements(g.entries));
      assert g.number > f.number ==> NewerThan(Elements(g.entries), Elements(f.entries));
    }
    assert f == g;
    SortedIsDistinct(lt, f.entries);
  }

  function TotalFileSize<K, V>(files: seq<File<K, V>>): nat {
    if files == [] then 0 else TotalFileSize(files[..|files| - 1]) + files[|files| - 1].size
  }

  /** All entries of some files, in order. */
  function Flatten<K, V>(files: seq<File<K, V>>): seq<Entry<K, V>> {
    if files == [] then [] else Flatten(files[..|files| - 1]) + files[|files| - 1].entries
  }

  lemma {:induction false} FlattenSnoc<K(!new), V(!new)>(files: seq<File<K, V>>, i: nat)
    requires i < |files|
    ensures Flatten(files[..i + 1]) == Flatten(files[..i]) + files[i].entries
  {
    var next := files[..i + 1];
    assert next[..|next| - 1] == files[..i] && next[|next| - 1] == files[i];
  }

  /** A file's entries are a segment of the flattened list, after those of the files before it. */
  lemma {:induction false} FlattenSegment<K(!new), V(!new)>(files: seq<File<K, V>>, i: nat, n: nat)
    requires i < n <= |files|
    ensures |Flatten(files[..i])| + |files[i].entries| <= |Flatten(files[..n])|
    ensures Flatten(files[..n])[|Flatten(files[..i])|..|Flatten(files[..i])| + |files[i].entries|] == files[i].entries
    decreases n
  {
    FlattenSnoc(files, n - 1);
    var a, k := |Flatten(files[..i])|, |files[i].entries|;
    var init, all := Flatten(files[..n - 1]), Flatten(files[..n]);
    if i < n - 1 {
      FlattenSegment(files, i, n - 1);
      assert all[a..a + k] == init[a..a + k];
    } else {
      assert all[a..a + k] == files[i].entries;
    }
  }

  /** A table built from a nonempty run of entries. */
  function BuildTable<K, V>(number: nat, size: nat, entries: seq<Entry<K, V>>): File<K, V>
    requires entries != []
  {
    File(number, size, entries[0].key, entries[|entries| - 1].key, entries)
  }

  /** The files carry consecutive numbers from `first` and hold nonempty runs with their own bounds. */
  ghost predicate Built<K(!new), V(!new)>(files: seq<File<K, V>>, first: nat) {
    forall i | 0 <= i < |files| ::
      files[i].entries != [] && files[i] == BuildTable(first + i, files[i].size, files[i].entries)
  }
}
