/** The iterator over a whole store (db/db_impl.cc, NewInternalIterator and NewIterator; db/version_set.cc,
    Version::AddIterators). Its children are cursors: over a memtable or a table, and over the tables of a level
    end to end, as MemTableIterator, BlockIters.Iter and TwoLevelIterator are. */
module StoreIterators {
  import opened Keys
  import opened Tables
  import opened Cursors
  import opened Merger
  import opened DbIter
  import opened Compactions
  import opened VersionHistory
  import opened Background
  import VersionGet

  /** The entries of all runs. */
  ghost function RunEntries<K(!new), V(!new)>(runs: seq<seq<Entry<K, V>>>): set<Entry<K, V>> {
    set i, e | 0 <= i < |runs| && e in runs[i] :: e
  }

  /** Sorted runs that share no key and hold `all`. */
  ghost predicate GoodRuns<K(!new), V(!new)>(lt: (K, K) -> bool, runs: seq<seq<Entry<K, V>>>, all: set<Entry<K, V>>) {
    && (forall i | 0 <= i < |runs| :: Sorted(lt, runs[i])) && Disjoint(runs) && RunEntries(runs) == all
  }

  lemma NoRuns<K(!new), V(!new)>(lt: (K, K) -> bool)
    ensures GoodRuns<K, V>(lt, [], {})
  {
  }

  lemma OneMoreRun<K(!new), V(!new)>(lt: (K, K) -> bool, runs: seq<seq<Entry<K, V>>>, all: set<Entry<K, V>>, run: seq<Entry<K, V>>)
    requires GoodRuns(lt, runs, all) && Sorted(lt, run) && forall e, d | e in all && d in run :: e.key != d.key
    ensures GoodRuns(lt, runs + [run], all + Elements(run))
  {
    hide Sorted;
    var more := runs + [run];
    assert forall i | 0 <= i < |runs| :: more[i] == runs[i];
    forall i, k, j, l | 0 <= i < k < |more| && 0 <= j < |more[i]| && 0 <= l < |more[k]| ensures more[i][j].key != more[k][l].key {
      if k == |runs| {
        assert more[i][j] in runs[i] && more[i][j] in all;
      }
    }
    forall e ensures e in RunEntries(more) <==> e in all + Elements(run) {
      if e in all {
        var i :| 0 <= i < |runs| && e in runs[i];
        assert e in more[i];
      }
      assert e in run ==> e in more[|runs|];
    }
  }

  /** Entries newer than others share no internal key with them. */
  lemma NewerSharesNone<K(!new), V(!new)>(es: set<Entry<K, V>>, ds: set<Entry<K, V>>)
    requires NewerThan(es, ds)
    ensures forall e, d | e in es && d in ds :: e.key != d.key
  {
  }

  ghost function LevelsAbove<K(!new), V(!new)>(v: Version<K, V>, n: nat): set<Entry<K, V>>
    requires n <= |v.levels|
  {
    set l, e | 0 <= l < n && e in LevelEntries(v.levels[l]) :: e
  }

  lemma NextLevel<K(!new), V(!new)>(lt: (K, K) -> bool, v: Version<K, V>, l: nat)
    requires TotalOrder(lt) && ValidVersion(lt, v) && 0 < l < NUM_LEVELS
    ensures Sorted(lt, Flatten(v.levels[l])) && Elements(Flatten(v.levels[l])) == LevelEntries(v.levels[l])
    ensures LevelsAbove(v, l + 1) == LevelsAbove(v, l) + LevelEntries(v.levels[l])
    ensures forall e, d | e in LevelsAbove(v, l) && d in LevelEntries(v.levels[l]) :: e.key != d.key
  {
    hide TotalOrder, SortedDisjoint, WellFormed, LevelEntries;
    LevelIsValid(lt, v, l);
    FlattenSorted(lt, v.levels[l]);
    FlattenHolds(v.levels[l]);
    forall m: nat, e, d | m < l && e in LevelEntries(v.levels[m]) && d in LevelEntries(v.levels[l]) ensures e.key != d.key {
      assert NewerThan(LevelEntries(v.levels[m]), LevelEntries(v.levels[l]));
    }
  }

  lemma AllLevels<K(!new), V(!new)>(v: Version<K, V>)
    requires |v.levels| == NUM_LEVELS
    ensures LevelsAbove(v, NUM_LEVELS) == VersionEntries(v) && LevelsAbove(v, 1) == LevelEntries(v.levels[0])
    ensures forall n | 0 <= n <= NUM_LEVELS :: LevelsAbove(v, n) <= VersionEntries(v)
  {
    hide LevelEntries;
  }

  lemma NextFile<K(!new), V(!new)>(lt: (K, K) -> bool, v: Version<K, V>, i: nat)
    requires ValidVersion(lt, v) && NoRepeats(v.levels[0]) && i < |v.levels[0]|
    ensures Sorted(lt, v.levels[0][i].entries)
    ensures LevelEntries(v.levels[0][..i + 1]) == LevelEntries(v.levels[0][..i]) + Elements(v.levels[0][i].entries)
    ensures forall e, d | e in LevelEntries(v.levels[0][..i]) && d in v.levels[0][i].entries :: e.key != d.key
  {
    hide ValidVersion, Sorted;
    var files := v.levels[0];
    LevelIsValid(lt, v, 0);
    assert files[..i + 1] == files[..i] + [files[i]];
    assert files[i] in files;
    forall f, e, d | f in files[..i] && e in f.entries && d in files[i].entries ensures e.key != d.key {
      var j :| 0 <= j < i && files[..i][j] == f;
      FilesShareNoKey(lt, v, f, files[i], e, d);
    }
  }

  /** The runs of the store: the memtable, the one being flushed, the tables of level 0 one by one and the other
      levels that are not empty. */
  method StoreRuns<K(==, !new), V(!new)>(lt: (K, K) -> bool, mem: seq<Entry<K, V>>, imm: Option<seq<Entry<K, V>>>, v: Version<K, V>)
      returns (runs: seq<seq<Entry<K, V>>>)
    requires TotalOrder(lt) && ValidVersion(lt, v) && NoRepeats(v.levels[0]) && Sorted(lt, mem) && (imm.Some? ==> Sorted(lt, imm.value))
    requires NewerThan(Elements(mem), VersionGet.ImmEntries(imm) + VersionEntries(v)) && NewerThan(VersionGet.ImmEntries(imm), VersionEntries(v))
    ensures GoodRuns(lt, runs, Elements(mem) + (VersionGet.ImmEntries(imm) + VersionEntries(v)))
  {
    hide TotalOrder, ValidVersion, Sorted, NewerThan, GoodRuns, LevelEntries, LevelsAbove, VersionEntries, NoRepeats;
    ghost var immEntries := VersionGet.ImmEntries(imm);
    NewerSharesNone(Elements(mem), immEntries + VersionEntries(v));
    NewerSharesNone(immEntries, VersionEntries(v));
    NoRuns<K, V>(lt);
    OneMoreRun(lt, [], {}, mem);
    runs := [] + [mem];
    ghost var all := {} + Elements(mem);
    if imm.Some? {
      OneMoreRun(lt, runs, all, imm.value);
      runs := runs + [imm.value];
    }
    all := Elements(mem) + immEntries;
    AllLevels(v);
    NoFiles0(v.levels[0]);
    assert all + LevelEntries(v.levels[0][..0]) == all;
    assert imm == None ==> all == {} + Elements(mem);
    assert imm.Some? ==> all == {} + Elements(mem) + Elements(imm.value);
    for i := 0 to |v.levels[0]|
      invariant GoodRuns(lt, runs, all + LevelEntries(v.levels[0][..i]))
    {
      NextFile(lt, v, i);
      FileIsPart(v, i);
      OneMoreRun(lt, runs, all + LevelEntries(v.levels[0][..i]), v.levels[0][i].entries);
      runs := runs + [v.levels[0][i].entries];
      assert all + LevelEntries(v.levels[0][..i]) + Elements(v.levels[0][i].entries) == all + LevelEntries(v.levels[0][..i + 1]);
    }
    assert v.levels[0][..|v.levels[0]|] == v.levels[0];
    for l := 1 to NUM_LEVELS
      invariant GoodRuns(lt, runs, all + LevelsAbove(v, l))
    {
      NextLevel(lt, v, l);
      AllLevels(v);
      if v.levels[l] != [] {
        OneMoreRun(lt, runs, all + LevelsAbove(v, l), Flatten(v.levels[l]));
        runs := runs + [Flatten(v.levels[l])];
        assert all + LevelsAbove(v, l) + LevelEntries(v.levels[l]) == all + LevelsAbove(v, l + 1);
      } else {
        assert Flatten(v.levels[l]) == [];
        assert all + LevelsAbove(v, l + 1) == all + LevelsAbove(v, l);
      }
    }
    assert all + LevelsAbove(v, NUM_LEVELS) == Elements(mem) + (immEntries + VersionEntries(v));
  }

  lemma NoFiles0<K(!new), V(!new)>(files: seq<File<K, V>>)
    ensures LevelEntries(files[..0]) == {}
  {
  }

  lemma FileIsPart<K(!new), V(!new)>(v: Version<K, V>, i: nat)
    requires |v.levels| == NUM_LEVELS && i < |v.levels[0]|
    ensures Elements(v.levels[0][i].entries) <= VersionEntries(v) && LevelEntries(v.levels[0][..i]) <= VersionEntries(v)
  {
    var files := v.levels[0];
    assert files[i] in files;
    assert LevelEntries(files[..i]) <= LevelEntries(files);
    forall e | e in LevelEntries(files) ensures e in VersionEntries(v) {
    }
    assert Elements(files[i].entries) <= LevelEntries(files);
  }

  /** An iterator over the store at a snapshot walks what point reads at the snapshot answer. */
  method NewDBIterator<K(==, !new), V(!new)>(
      lt: (K, K) -> bool, mem: seq<Entry<K, V>>, imm: Option<seq<Entry<K, V>>>, v: Version<K, V>, snapshot: nat) returns (it: DBIter<K, V>)
    requires TotalOrder(lt) && ValidVersion(lt, v) && NoRepeats(v.levels[0])
    requires VersionGet.IsMemTable(lt, mem) && (imm.Some? ==> VersionGet.IsMemTable(lt, imm.value))
    requires NewerThan(Elements(mem), VersionGet.ImmEntries(imm) + VersionEntries(v)) && NewerThan(VersionGet.ImmEntries(imm), VersionEntries(v))
    ensures fresh(it) && fresh(it.iter) && forall k | 0 <= k < |it.iter.children| :: fresh(it.iter.children[k])
    ensures it.Inv() && it.Ordered() && it.lt == lt && it.sequence == snapshot
    ensures forall k :: it.Read(k) == Lookup(Elements(mem) + (VersionGet.ImmEntries(imm) + VersionEntries(v)), k, snapshot)
  {
    hide TotalOrder, ValidVersion, Sorted, NewerThan, Lookup, Interleaves, MergingIterator.Ordered;
    var runs := StoreRuns(lt, mem, imm, v);
    ghost var merged, place, owner := InterleavingExists(lt, runs);
    var list: seq<Cursor<K, V>> := [];
    for i := 0 to |runs|
      invariant |list| == i && forall k, l | 0 <= k < l < i :: list[k] != list[l]
      invariant forall k | 0 <= k < i :: fresh(list[k]) && list[k].Inv() && list[k].lt == lt && list[k].entries == runs[k]
    {
      var c := new Cursor(lt, runs[i]);
      list := list + [c];
    }
    assert MergingIterator.RunsOf(list) == runs;
    MergedHolds(lt, runs, merged, place, owner);
    var input := new MergingIterator(lt, list, merged, place, owner);
    it := new DBIter(input, snapshot);
  }

  lemma MergedHolds<K(!new), V(!new)>(
      lt: (K, K) -> bool, runs: seq<seq<Entry<K, V>>>, merged: seq<Entry<K, V>>, place: seq<seq<nat>>, owner: seq<(nat, nat)>)
    requires Interleaves(lt, runs, merged, place, owner)
    ensures Elements(merged) == RunEntries(runs)
  {
    hide Sorted;
    forall e ensures e in Elements(merged) <==> e in RunEntries(runs) {
      if e in merged {
        var m :| 0 <= m < |merged| && merged[m] == e;
        var (i, j) := owner[m];
        assert merged[place[i][j]] == runs[i][j];
      }
      if i :| 0 <= i < |runs| && e in runs[i] {
        var j :| 0 <= j < |runs[i]| && runs[i][j] == e;
        assert merged[place[i][j]] == e;
      }
    }
  }
}
