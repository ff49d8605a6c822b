/** VersionSet::Builder (db/version_set.cc): edits gathered over a base version and saved in one merge.
    Files are a type parameter `F`, known by a number and ordered by smallest key, then number. */
module VersionBuilder {

  /** A strict order that tells apart the files that occur; two with one smallest key and number would tie. */
  ghost predicate OrderOn<F(!new)>(less: (F, F) -> bool, known: iset<F>) {
    && (forall f :: !less(f, f))
    && (forall f, g, h :: less(f, g) && less(g, h) ==> less(f, h))
    && (forall f, g | f in known && g in known :: less(f, g) || less(g, f) || f == g)
  }

  ghost predicate AllKnown<F(!new)>(known: iset<F>, fs: seq<F>) {
    forall f | f in fs :: f in known
  }

  ghost predicate StrictlySorted<F(!new)>(less: (F, F) -> bool, fs: seq<F>) {
    forall i, j | 0 <= i < j < |fs| :: less(fs[i], fs[j])
  }

  lemma FirstIsLeast<F(!new)>(less: (F, F) -> bool, fs: seq<F>, f: F)
    requires StrictlySorted(less, fs) && f in fs
    ensures f == fs[0] || less(fs[0], f)
  {
  }

  /** In a strictly sorted list the rest holds everything but the first. */
  lemma RestHolds<F(!new)>(less: (F, F) -> bool, fs: seq<F>, f: F)
    requires (forall g :: !less(g, g)) && StrictlySorted(less, fs) && fs != []
    ensures f in fs[1..] <==> f in fs && f != fs[0]
  {
    assert forall i | 0 < i < |fs| :: fs[1..][i - 1] == fs[i];
  }

  /** A strictly sorted list is determined by what it holds. */
  lemma {:induction false} SortedUnique<F(!new)>(less: (F, F) -> bool, known: iset<F>, a: seq<F>, b: seq<F>)
    requires OrderOn(less, known) && StrictlySorted(less, a) && StrictlySorted(less, b)
    requires forall f :: f in a <==> f in b
    ensures a == b
  {
    assert |a| > 0 ==> a[0] in b;
    assert |b| > 0 ==> b[0] in a;
    if a != [] {
      FirstIsLeast(less, a, b[0]);
      FirstIsLeast(less, b, a[0]);
      assert a[0] == b[0];
      forall f ensures f in a[1..] <==> f in b[1..] {
        RestHolds(less, a, f);
        RestHolds(less, b, f);
      }
      SortedUnique(less, known, a[1..], b[1..]);
    }
  }

  datatype FileEdit<F> = FileEdit(deletions: set<(nat, nat)>, newFiles: seq<(nat, F)>)

  ghost predicate InRange<F(!new)>(known: iset<F>, levels: nat, edit: FileEdit<F>) {
    && (forall d | d in edit.deletions :: d.0 < levels)
    && (forall i | 0 <= i < |edit.newFiles| :: edit.newFiles[i].0 < levels && edit.newFiles[i].1 in known)
  }

  /** What applying one edit does to the gathered deletions and additions of each level. */
  ghost predicate Applied<F(!new)>(
      number: F -> nat, edit: FileEdit<F>, deleted0: seq<set<nat>>, added0: seq<seq<F>>, deleted: seq<set<nat>>, added: seq<seq<F>>) {
    && |deleted| == |added| == |deleted0| == |added0|
    && (forall l, n | 0 <= l < |deleted| :: n in deleted[l] <==>
          (n in deleted0[l] || (l, n) in edit.deletions) &&
          !exists i :: 0 <= i < |edit.newFiles| && edit.newFiles[i].0 == l && number(edit.newFiles[i].1) == n)
    && (forall l, f | 0 <= l < |added| :: f in added[l] <==> f in added0[l] || (l, f) in edit.newFiles)
  }

  class Builder<F(==, !new)> {
    const less: (F, F) -> bool
    const number: F -> nat
    const base: seq<seq<F>>
    ghost const known: iset<F>
    var deleted: seq<set<nat>>
    var added: seq<seq<F>>

    constructor (less: (F, F) -> bool, number: F -> nat, base: seq<seq<F>>, ghost known: iset<F>)
      requires OrderOn(less, known) && forall l | 0 <= l < |base| :: StrictlySorted(less, base[l]) && AllKnown(known, base[l])
      ensures Inv() && this.less == less && this.number == number && this.base == base && this.known == known
      ensures deleted == seq(|base|, l => {}) && added == seq(|base|, l => [])
    {
      this.less, this.number, this.base, this.known := less, number, base, known;
      deleted, added := seq(|base|, l => {}), seq(|base|, l => []);
    }

    ghost predicate Inv()
      reads this
    {
      && OrderOn(less, known) && |deleted| == |added| == |base|
      && (forall l | 0 <= l < |base| :: StrictlySorted(less, base[l]) && AllKnown(known, base[l]))
      && (forall l | 0 <= l < |added| :: StrictlySorted(less, added[l]) && AllKnown(known, added[l]))
    }

    /** Insert into the ordered set of added files of a level; one already there stays. */
    method InsertAdded(l: nat, f: F)
      requires Inv() && l < |base| && f in known
      modifies this`added
      ensures Inv() && |added| == |old(added)|
      ensures forall g :: g in added[l] <==> g in old(added)[l] || g == f
      ensures forall m | 0 <= m < |added| && m != l :: added[m] == old(added)[m]
    {
      var fs := added[l];
      var i := 0;
      while i < |fs| && less(fs[i], f)
        invariant 0 <= i <= |fs| && forall j | 0 <= j < i :: less(fs[j], f)
      {
        i := i + 1;
      }
      if i < |fs| && fs[i] == f {
        return;
      }
      var gs := fs[..i] + [f] + fs[i..];
      forall j, k | 0 <= j < k < |gs| ensures less(gs[j], gs[k]) {
        assert i < |fs| ==> less(f, fs[i]);
        if j == i {
          assert k - 1 > i ==> less(fs[i], fs[k - 1]);
        }
      }
      forall g ensures g in gs <==> g in fs || g == f {
        assert gs[i] == f;
        if g in fs {
          var j :| 0 <= j < |fs| && fs[j] == g;
          assert gs[if j < i then j else j + 1] == g;
        }
      }
      added := added[l := gs];
    }

    method Apply(edit: FileEdit<F>)
      requires Inv() && InRange(known, |base|, edit)
      modifies this
      ensures Inv() && Applied(number, edit, old(deleted), old(added), deleted, added)
    {
      var deletions, newFiles := edit.deletions, edit.newFiles;
      ghost var deleted0, added0 := deleted, added;
      var rest := deletions;
      while rest != {}
        invariant Inv() && added == added0 && rest <= deletions
        invariant forall l, n | 0 <= l < |base| :: n in deleted[l] <==> n in deleted0[l] || (l, n) in deletions - rest
        decreases rest
      {
        var d :| d in rest;
        deleted := deleted[d.0 := deleted[d.0] + {d.1}];
        rest := rest - {d};
      }
      for i := 0 to |newFiles|
        invariant Inv()
        invariant forall l, n | 0 <= l < |base| :: n in deleted[l] <==>
          (n in deleted0[l] || (l, n) in deletions) && !exists j :: 0 <= j < i && newFiles[j].0 == l && number(newFiles[j].1) == n
        invariant forall l, f | 0 <= l < |base| :: f in added[l] <==> f in added0[l] || (l, f) in newFiles[..i]
      {
        var (l, f) := newFiles[i];
        deleted := deleted[l := deleted[l] - {number(f)}];
        InsertAdded(l, f);
        assert newFiles[..i + 1] == newFiles[..i] + [(l, f)];
      }
      assert newFiles[..|newFiles|] == newFiles;
    }

    /** What level `l` of the saved version holds. */
    ghost predicate Saved(l: nat, f: F)
      reads this
      requires Inv() && l < |base|
    {
      (f in base[l] || f in added[l]) && number(f) !in deleted[l]
    }

    /** The merge of one level. Nothing is lost or doubled when no added file is already in the base. */
    method SaveLevel(l: nat) returns (files: seq<F>)
      requires Inv() && l < |base|
      requires forall f | f in added[l] :: f !in base[l]
      ensures StrictlySorted(less, files)
      ensures forall f :: f in files <==> Saved(l, f)
    {
      var b := 0;
      files := [];
      for a := 0 to |added[l]|
        invariant 0 <= b <= |base[l]|
        invariant StrictlySorted(less, files)
        invariant forall f :: f in files <==> (f in base[l][..b] || f in added[l][..a]) && number(f) !in deleted[l]
        invariant forall f | f in files && a < |added[l]| :: less(f, added[l][a])
        invariant forall f | f in files && b < |base[l]| :: less(f, base[l][b])
      {
        var f := added[l][a];
        while b < |base[l]| && !less(f, base[l][b])
          invariant 0 <= b <= |base[l]|
          invariant StrictlySorted(less, files)
          invariant forall g :: g in files <==> (g in base[l][..b] || g in added[l][..a]) && number(g) !in deleted[l]
          invariant forall g | g in files :: less(g, f)
          invariant forall g | g in files && b < |base[l]| :: less(g, base[l][b])
        {
          assert f in added[l] && base[l][b] in base[l];
          files := MaybeAddFile(l, files, base[l][b]);
          assert base[l][..b + 1] == base[l][..b] + [base[l][b]];
          b := b + 1;
        }
        files := MaybeAddFile(l, files, f);
        assert added[l][..a + 1] == added[l][..a] + [f];
      }
      assert added[l][..|added[l]|] == added[l];
      while b < |base[l]|
        invariant 0 <= b <= |base[l]|
        invariant StrictlySorted(less, files)
        invariant forall g :: g in files <==> (g in base[l][..b] || g in added[l]) && number(g) !in deleted[l]
        invariant forall g | g in files && b < |base[l]| :: less(g, base[l][b])
      {
        files := MaybeAddFile(l, files, base[l][b]);
        assert base[l][..b + 1] == base[l][..b] + [base[l][b]];
        b := b + 1;
      }
      assert base[l][..b] == base[l];
    }

    method MaybeAddFile(l: nat, files: seq<F>, f: F) returns (r: seq<F>)
      requires Inv() && l < |base|
      requires StrictlySorted(less, files) && forall g | g in files :: less(g, f)
      ensures StrictlySorted(less, r)
      ensures forall g :: g in r <==> g in files || (g == f && number(f) !in deleted[l])
    {
      if number(f) in deleted[l] {
        r := files;
      } else {
        r := files + [f];
      }
    }

    method SaveTo() returns (levels: seq<seq<F>>)
      requires Inv()
      requires forall l, f | 0 <= l < |base| && f in added[l] :: f !in base[l]
      ensures |levels| == |base|
      ensures forall l | 0 <= l < |base| :: StrictlySorted(less, levels[l])
      ensures forall l, f | 0 <= l < |base| :: f in levels[l] <==> Saved(l, f)
    {
      levels := [];
      for l := 0 to |base|
        invariant |levels| == l
        invariant forall m | 0 <= m < l :: StrictlySorted(less, levels[m])
        invariant forall m, f | 0 <= m < l :: f in levels[m] <==> Saved(m, f)
      {
        var files := SaveLevel(l);
        levels := levels + [files];
      }
    }
  }

  /** No edit adds a file number to a level that has, had or lost that number there. */
  ghost predicate CleanHistory<F(!new)>(known: iset<F>, number: F -> nat, base: seq<seq<F>>, edits: seq<FileEdit<F>>) {
    && (forall i | 0 <= i < |edits| :: InRange(known, |base|, edits[i]))
    && (forall i, l, f | 0 <= i < |edits| && (l, f) in edits[i].newFiles ::
          && (forall g | g in base[l] :: number(g) != number(f))
          && (forall j | 0 <= j <= i :: (l, number(f)) !in edits[j].deletions))
    && (forall i, j, l, f, g | 0 <= i <= j < |edits| && (l, f) in edits[i].newFiles && (l, g) in edits[j].newFiles && number(f) == number(g) ::
          i == j && f == g)
  }

  ghost predicate DeletedBy<F(!new)>(edits: seq<FileEdit<F>>, l: nat, n: nat) {
    exists i :: 0 <= i < |edits| && (l, n) in edits[i].deletions
  }

  ghost predicate AddedBy<F(!new)>(edits: seq<FileEdit<F>>, l: nat, f: F) {
    exists i :: 0 <= i < |edits| && (l, f) in edits[i].newFiles
  }

  lemma DeletedSnoc<F(!new)>(edits: seq<FileEdit<F>>, i: nat, l: nat, n: nat)
    requires i < |edits|
    ensures DeletedBy(edits[..i + 1], l, n) <==> DeletedBy(edits[..i], l, n) || (l, n) in edits[i].deletions
  {
    var next := edits[..i + 1];
    assert next[i] == edits[i] && forall j | 0 <= j < i :: next[j] == edits[..i][j];
  }

  lemma AddedSnoc<F(!new)>(edits: seq<FileEdit<F>>, i: nat, l: nat, f: F)
    requires i < |edits|
    ensures AddedBy(edits[..i + 1], l, f) <==> AddedBy(edits[..i], l, f) || (l, f) in edits[i].newFiles
  {
    var next := edits[..i + 1];
    assert next[i] == edits[i] && forall j | 0 <= j < i :: next[j] == edits[..i][j];
  }

  /** What the edits leave in level `l`: base and added files whose number no edit deletes there. */
  ghost predicate Remains<F(!new)>(number: F -> nat, base: seq<seq<F>>, edits: seq<FileEdit<F>>, l: nat, f: F)
    requires l < |base|
  {
    (f in base[l] || AddedBy(edits, l, f)) && !DeletedBy(edits, l, number(f))
  }

  ghost predicate IsResult<F(!new)>(less: (F, F) -> bool, number: F -> nat, base: seq<seq<F>>, edits: seq<FileEdit<F>>, levels: seq<seq<F>>) {
    && |levels| == |base|
    && (forall l | 0 <= l < |base| :: StrictlySorted(less, levels[l]))
    && forall l, f | 0 <= l < |base| :: f in levels[l] <==> Remains(number, base, edits, l, f)
  }

  /** What a builder holds after it has taken all of `edits`. */
  ghost predicate Gathered<F(!new)>(edits: seq<FileEdit<F>>, deleted: seq<set<nat>>, added: seq<seq<F>>) {
    && |deleted| == |added|
    && (forall l, n | 0 <= l < |deleted| :: n in deleted[l] <==> DeletedBy(edits, l, n))
    && (forall l, f | 0 <= l < |added| :: f in added[l] <==> AddedBy(edits, l, f))
  }

  lemma AddedNotDeleted<F(!new)>(known: iset<F>, number: F -> nat, base: seq<seq<F>>, edits: seq<FileEdit<F>>, i: nat, l: nat, f: F)
    requires CleanHistory(known, number, base, edits) && i < |edits| && (l, f) in edits[i].newFiles
    ensures !DeletedBy(edits[..i + 1], l, number(f))
  {
  }

  /** With a clean history, forgetting the deletion of an added number changes nothing. */
  lemma GatherStep<F(!new)>(known: iset<F>, number: F -> nat, base: seq<seq<F>>, edits: seq<FileEdit<F>>, i: nat,
      deleted0: seq<set<nat>>, added0: seq<seq<F>>, deleted: seq<set<nat>>, added: seq<seq<F>>)
    requires CleanHistory(known, number, base, edits) && i < |edits|
    requires Gathered(edits[..i], deleted0, added0) && Applied(number, edits[i], deleted0, added0, deleted, added)
    ensures Gathered(edits[..i + 1], deleted, added)
  {
    hide CleanHistory, DeletedBy, AddedBy;
    forall l: nat, n: nat | l < |deleted| ensures n in deleted[l] <==> DeletedBy(edits[..i + 1], l, n) {
      DeletedSnoc(edits, i, l, n);
      if k :| 0 <= k < |edits[i].newFiles| && edits[i].newFiles[k].0 == l && number(edits[i].newFiles[k].1) == n {
        assert edits[i].newFiles[k] == (l, edits[i].newFiles[k].1);
        AddedNotDeleted(known, number, base, edits, i, l, edits[i].newFiles[k].1);
      }
    }
    forall l: nat, f | l < |added| ensures f in added[l] <==> AddedBy(edits[..i + 1], l, f) {
      AddedSnoc(edits, i, l, f);
    }
  }

  /** The gathered additions are new to the base, and saving them gives the result. */
  lemma GatheredSaves<F(!new)>(known: iset<F>, number: F -> nat, base: seq<seq<F>>, edits: seq<FileEdit<F>>, deleted: seq<set<nat>>, added: seq<seq<F>>)
    requires CleanHistory(known, number, base, edits) && Gathered(edits, deleted, added) && |added| == |base|
    ensures forall l, f | 0 <= l < |base| && f in added[l] :: f !in base[l]
    ensures forall l, f | 0 <= l < |base| ::
      ((f in base[l] || f in added[l]) && number(f) !in deleted[l]) <==> Remains(number, base, edits, l, f)
  {
  }

  /** Recovery: all edits of the manifest into one builder, saved once. */
  method Recover<F(==, !new)>(less: (F, F) -> bool, number: F -> nat, base: seq<seq<F>>, edits: seq<FileEdit<F>>, ghost known: iset<F>)
      returns (levels: seq<seq<F>>)
    requires OrderOn(less, known) && (forall l | 0 <= l < |base| :: StrictlySorted(less, base[l]) && AllKnown(known, base[l]))
    requires CleanHistory(known, number, base, edits)
    ensures IsResult(less, number, base, edits, levels)
  {
    hide Applied, OrderOn;
    var builder := new Builder(less, number, base, known);
    assert edits[..0] == [];
    assert Gathered(edits[..0], builder.deleted, builder.added);
    for i := 0 to |edits|
      invariant builder.Inv() && Gathered(edits[..i], builder.deleted, builder.added)
    {
      ghost var deleted0, added0 := builder.deleted, builder.added;
      builder.Apply(edits[i]);
      GatherStep(known, number, base, edits, i, deleted0, added0, builder.deleted, builder.added);
    }
    assert edits[..|edits|] == edits;
    GatheredSaves(known, number, base, edits, builder.deleted, builder.added);
    levels := builder.SaveTo();
  }

  /** One more edit, over the result of those before it: its files are new, and what is saved is the result. */
  lemma ResultStep<F(!new)>(known: iset<F>, less: (F, F) -> bool, number: F -> nat, base: seq<seq<F>>, edits: seq<FileEdit<F>>, i: nat,
      levels: seq<seq<F>>, deleted0: seq<set<nat>>, added0: seq<seq<F>>, deleted: seq<set<nat>>, added: seq<seq<F>>, l: nat, f: F)
    requires CleanHistory(known, number, base, edits) && i < |edits| && IsResult(less, number, base, edits[..i], levels)
    requires |deleted0| == |base| && (forall l | 0 <= l < |base| :: deleted0[l] == {}) && |added0| == |base|
    requires forall l | 0 <= l < |base| :: added0[l] == []
    requires Applied(number, edits[i], deleted0, added0, deleted, added) && l < |base|
    ensures f in added[l] ==> f !in levels[l]
    ensures ((f in levels[l] || f in added[l]) && number(f) !in deleted[l]) <==> Remains(number, base, edits[..i + 1], l, f)
  {
    AddedSnoc(edits, i, l, f);
    DeletedSnoc(edits, i, l, number(f));
    assert forall j | 0 <= j < i :: edits[..i][j] == edits[j];
    if k :| 0 <= k < |edits[i].newFiles| && edits[i].newFiles[k].0 == l && number(edits[i].newFiles[k].1) == number(f) {
      assert (l, edits[i].newFiles[k].1) in edits[i].newFiles;
    }
  }

  /** Running: each edit into a new builder over the version the last one made. */
  method ApplyOneByOne<F(==, !new)>(less: (F, F) -> bool, number: F -> nat, base: seq<seq<F>>, edits: seq<FileEdit<F>>, ghost known: iset<F>)
      returns (levels: seq<seq<F>>)
    requires OrderOn(less, known) && (forall l | 0 <= l < |base| :: StrictlySorted(less, base[l]) && AllKnown(known, base[l]))
    requires CleanHistory(known, number, base, edits)
    ensures IsResult(less, number, base, edits, levels)
  {
    hide OrderOn, CleanHistory, IsResult, Applied, Remains, AllKnown, StrictlySorted;
    levels := base;
    assert edits[..0] == [];
    NoEdits(less, number, base);
    for i := 0 to |edits|
      invariant IsResult(less, number, base, edits[..i], levels)
    {
      ResultKnown(known, less, number, base, edits, i, levels);
      var builder := new Builder(less, number, levels, known);
      ghost var deleted0, added0 := builder.deleted, builder.added;
      builder.Apply(edits[i]);
      ghost var before, deleted, added := levels, builder.deleted, builder.added;
      forall l, f | 0 <= l < |base| && f in added[l] ensures f !in before[l] {
        ResultStep(known, less, number, base, edits, i, before, deleted0, added0, deleted, added, l, f);
      }
      levels := builder.SaveTo();
      forall l, f | 0 <= l < |base| ensures f in levels[l] <==> Remains(number, base, edits[..i + 1], l, f) {
        assert f in levels[l] <==> builder.Saved(l, f);
        ResultStep(known, less, number, base, edits, i, before, deleted0, added0, deleted, added, l, f);
      }
      IsResultIs(less, number, base, edits[..i + 1], levels);
    }
    assert edits[..|edits|] == edits;
  }

  lemma NoEdits<F(!new)>(less: (F, F) -> bool, number: F -> nat, base: seq<seq<F>>)
    requires forall l | 0 <= l < |base| :: StrictlySorted(less, base[l])
    ensures IsResult(less, number, base, [], base)
  {
  }

  lemma IsResultIs<F(!new)>(less: (F, F) -> bool, number: F -> nat, base: seq<seq<F>>, edits: seq<FileEdit<F>>, levels: seq<seq<F>>)
    requires |levels| == |base| && forall l | 0 <= l < |base| :: StrictlySorted(less, levels[l])
    requires forall l, f | 0 <= l < |base| :: f in levels[l] <==> Remains(number, base, edits, l, f)
    ensures IsResult(less, number, base, edits, levels)
  {
    hide Remains, StrictlySorted;
  }

  /** What is left after some edits is known and in order. */
  lemma ResultKnown<F(!new)>(
      known: iset<F>, less: (F, F) -> bool, number: F -> nat, base: seq<seq<F>>, edits: seq<FileEdit<F>>, i: nat, levels: seq<seq<F>>)
    requires CleanHistory(known, number, base, edits) && i < |edits| && IsResult(less, number, base, edits[..i], levels)
    requires forall l | 0 <= l < |base| :: AllKnown(known, base[l])
    ensures |levels| == |base| && InRange(known, |base|, edits[i])
    ensures forall l | 0 <= l < |levels| :: StrictlySorted(less, levels[l]) && AllKnown(known, levels[l])
  {
    hide StrictlySorted;
    forall l, f | 0 <= l < |base| && f in levels[l] ensures f in known {
      if f !in base[l] {
        var j :| 0 <= j < i && (l, f) in edits[..i][j].newFiles;
        assert edits[..i][j] == edits[j];
      }
    }
  }

  /** Recovering the manifest gives the levels that were current when it was written. */
  lemma RecoverAgrees<F(!new)>(known: iset<F>, less: (F, F) -> bool, number: F -> nat, base: seq<seq<F>>, edits: seq<FileEdit<F>>, a: seq<seq<F>>, b: seq<seq<F>>)
    requires OrderOn(less, known) && IsResult(less, number, base, edits, a) && IsResult(less, number, base, edits, b)
    requires forall l | 0 <= l < |a| :: AllKnown(known, a[l])
    ensures a == b
  {
    forall l | 0 <= l < |base| ensures a[l] == b[l] {
      SortedUnique(less, known, a[l], b[l]);
    }
  }
}
