/** The merging iterator (table/merger.cc) over children that hold no key twice between them. */
module Merger {
  import opened Keys
  import opened Cursors

  /** `merged` interleaves the runs: `place[i][j]` is where entry `j` of run `i` went, and `owner` maps
      every place back, so no key occurs in two runs. */
  ghost predicate Interleaves<K(!new), V(!new)>(
      lt: (K, K) -> bool, runs: seq<seq<Entry<K, V>>>, merged: seq<Entry<K, V>>, place: seq<seq<nat>>, owner: seq<(nat, nat)>) {
    && Sorted(lt, merged) && |place| == |runs| && |owner| == |merged|
    && (forall i | 0 <= i < |runs| :: |place[i]| == |runs[i]|)
    && (forall i, j | 0 <= i < |runs| && 0 <= j < |place[i]| :: place[i][j] < |merged|)
    && (forall i, j {:trigger merged[place[i][j]]} | 0 <= i < |runs| && 0 <= j < |place[i]| ::
          merged[place[i][j]] == runs[i][j])
    && (forall i, j {:trigger owner[place[i][j]]} | 0 <= i < |runs| && 0 <= j < |place[i]| :: owner[place[i][j]] == (i, j))
    && (forall m {:trigger owner[m]} | 0 <= m < |merged| ::
          owner[m].0 < |runs| && owner[m].1 < |place[owner[m].0]| && place[owner[m].0][owner[m].1] == m)
  }

  ghost predicate Disjoint<K(!new), V(!new)>(runs: seq<seq<Entry<K, V>>>) {
    forall i, k, j, l | 0 <= i < k < |runs| && 0 <= j < |runs[i]| && 0 <= l < |runs[k]| :: runs[i][j].key != runs[k][l].key
  }

  ghost function Total<T>(runs: seq<seq<T>>): nat {
    if runs == [] then 0 else |runs[0]| + Total(runs[1..])
  }

  lemma {:induction false} TotalDecreases<T>(runs: seq<seq<T>>, c: nat)
    requires c < |runs| && runs[c] != []
    ensures Total(runs[c := runs[c][..|runs[c]| - 1]]) < Total(runs)
  {
    if c > 0 {
      TotalDecreases(runs[1..], c - 1);
      assert runs[c := runs[c][..|runs[c]| - 1]][1..] == runs[1..][c - 1 := runs[c][..|runs[c]| - 1]];
    }
  }

  lemma GreatestLast<K(!new), V(!new)>(lt: (K, K) -> bool, runs: seq<seq<Entry<K, V>>>, some: nat) returns (c: nat)
    requires TotalOrder(lt) && some < |runs| && runs[some] != []
    ensures c < |runs| && runs[c] != []
    ensures forall i | 0 <= i < |runs| && runs[i] != [] :: !InternalLess(lt, runs[c][|runs[c]| - 1].key, runs[i][|runs[i]| - 1].key)
  {
    c := some;
    for i := 0 to |runs|
      invariant c < |runs| && runs[c] != []
      invariant forall k | 0 <= k < i && runs[k] != [] ::
        !InternalLess(lt, runs[c][|runs[c]| - 1].key, runs[k][|runs[k]| - 1].key)
    {
      if runs[i] != [] && InternalLess(lt, runs[c][|runs[c]| - 1].key, runs[i][|runs[i]| - 1].key) {
        c := i;
      }
    }
  }

  /** Every entry is below the greatest of the runs' last entries, save that one itself. */
  lemma BelowGreatest<K(!new), V(!new)>(lt: (K, K) -> bool, runs: seq<seq<Entry<K, V>>>, c: nat, i: nat, j: nat)
    requires TotalOrder(lt) && Disjoint(runs) && c < |runs| && runs[c] != []
    requires forall k | 0 <= k < |runs| && runs[k] != [] :: !InternalLess(lt, runs[c][|runs[c]| - 1].key, runs[k][|runs[k]| - 1].key)
    requires i < |runs| && j < |runs[i]| && Sorted(lt, runs[i]) && (i, j) != (c, |runs[c]| - 1)
    ensures InternalLess(lt, runs[i][j].key, runs[c][|runs[c]| - 1].key)
  {
    var mine, greatest := runs[i][|runs[i]| - 1].key, runs[c][|runs[c]| - 1].key;
    if i != c {
      assert mine != greatest;
      assert InternalLess(lt, mine, greatest);
    }
    if j < |runs[i]| - 1 {
      assert InternalLess(lt, runs[i][j].key, mine);
    }
  }

  /** Appending the greatest entry to an interleaving of the others interleaves them all. */
  lemma AppendGreatest<K(!new), V(!new)>(
      lt: (K, K) -> bool, runs: seq<seq<Entry<K, V>>>, c: nat, m: seq<Entry<K, V>>, p: seq<seq<nat>>, o: seq<(nat, nat)>)
    requires c < |runs| && runs[c] != []
    requires Interleaves(lt, runs[c := runs[c][..|runs[c]| - 1]], m, p, o)
    requires forall k | 0 <= k < |m| :: InternalLess(lt, m[k].key, runs[c][|runs[c]| - 1].key)
    ensures Interleaves(lt, runs, m + [runs[c][|runs[c]| - 1]], p[c := p[c] + [|m|]], o + [(c, |runs[c]| - 1)])
  {
    var rest := runs[c := runs[c][..|runs[c]| - 1]];
    var merged, place, owner := m + [runs[c][|runs[c]| - 1]], p[c := p[c] + [|m|]], o + [(c, |runs[c]| - 1)];
    forall i, j | 0 <= i < |runs| && 0 <= j < |place[i]|
      ensures place[i][j] < |merged| && merged[place[i][j]] == runs[i][j] && owner[place[i][j]] == (i, j)
    {
      if (i, j) != (c, |runs[c]| - 1) {
        assert place[i][j] == p[i][j] && runs[i][j] == rest[i][j];
        assert m[p[i][j]] == rest[i][j] && o[p[i][j]] == (i, j);
      }
    }
  }

  /** Sorted runs that share no key do have a merged order. */
  lemma {:induction false} InterleavingExists<K(!new), V(!new)>(lt: (K, K) -> bool, runs: seq<seq<Entry<K, V>>>)
      returns (merged: seq<Entry<K, V>>, place: seq<seq<nat>>, owner: seq<(nat, nat)>)
    requires TotalOrder(lt) && Disjoint(runs) && forall i | 0 <= i < |runs| :: Sorted(lt, runs[i])
    ensures Interleaves(lt, runs, merged, place, owner)
    decreases Total(runs)
  {
    if some: nat :| some < |runs| && runs[some] != [] {
      var c := GreatestLast(lt, runs, some);
      var rest := runs[c := runs[c][..|runs[c]| - 1]];
      TotalDecreases(runs, c);
      var m, p, o := InterleavingExists(lt, rest);
      forall k | 0 <= k < |m| ensures InternalLess(lt, m[k].key, runs[c][|runs[c]| - 1].key) {
        var (i, j) := o[k];
        assert m[p[i][j]] == rest[i][j];
        BelowGreatest(lt, runs, c, i, j);
      }
      AppendGreatest(lt, runs, c, m, p, o);
      merged, place, owner := m + [runs[c][|runs[c]| - 1]], p[c := p[c] + [|m|]], o + [(c, |runs[c]| - 1)];
    } else {
      merged, place, owner := [], seq(|runs|, i => []), [];
    }
  }

  datatype Direction = Forward | Reverse

  class MergingIterator<K(==, !new), V(!new)> {
    const lt: (K, K) -> bool
    const children: seq<Cursor<K, V>>
    var current: Option<nat>
    var direction: Direction
    ghost const entries: seq<Entry<K, V>>
    ghost const runs: seq<seq<Entry<K, V>>>
    ghost const place: seq<seq<nat>>
    ghost const owner: seq<(nat, nat)>
    ghost var pos: nat

    constructor (lt: (K, K) -> bool, children: seq<Cursor<K, V>>, ghost merged: seq<Entry<K, V>>,
        ghost place: seq<seq<nat>>, ghost owner: seq<(nat, nat)>)
      requires TotalOrder(lt)
      requires forall i | 0 <= i < |children| :: children[i].Inv() && children[i].lt == lt && Sorted(lt, children[i].entries)
      requires forall i, j | 0 <= i < j < |children| :: children[i] != children[j]
      requires Interleaves(lt, RunsOf(children), merged, place, owner)
      ensures Inv() && Ordered() && !Valid() && entries == merged && this.children == children && this.lt == lt
    {
      this.lt, this.children := lt, children;
      this.runs, this.entries, this.place, this.owner := RunsOf(children), merged, place, owner;
      current, direction, pos := None, Forward, |merged|;
    }

    static ghost function RunsOf(children: seq<Cursor<K, V>>): seq<seq<Entry<K, V>>> {
      seq(|children|, i requires 0 <= i < |children| => children[i].entries)
    }

    /** The children are sorted runs by one comparator, and `entries` interleaves them. */
    ghost predicate Ordered()
      ensures Ordered() ==> TotalOrder(lt) && Sorted(lt, entries)
    {
      && TotalOrder(lt) && |runs| == |children| && Interleaves(lt, runs, entries, place, owner)
      && forall i | 0 <= i < |children| :: Run(i)
    }

    ghost predicate Run(i: nat)
      requires i < |children| == |runs|
    {
      children[i].lt == lt && children[i].entries == runs[i] && Sorted(lt, children[i].entries)
    }

    /** The order of two entries of the children is the order of their places. */
    lemma PlaceOrder(i: nat, j: nat, k: nat, l: nat)
      requires Ordered() && i < |children| && j < |place[i]| && k < |children| && l < |place[k]|
      ensures j < |children[i].entries| && l < |children[k].entries|
      ensures InternalLess(lt, children[i].entries[j].key, children[k].entries[l].key) <==> place[i][j] < place[k][l]
    {
      assert Run(i) && Run(k);
      var a, b := place[i][j], place[k][l];
      assert a < b ==> InternalLess(lt, entries[a].key, entries[b].key);
      assert b < a ==> InternalLess(lt, entries[b].key, entries[a].key);
    }

    lemma EntryAt(i: nat, j: nat)
      requires Ordered() && i < |children| && j < |place[i]|
      ensures j < |children[i].entries| && entries[place[i][j]] == children[i].entries[j]
    {
      assert Run(i) && entries[place[i][j]] == runs[i][j];
    }

    /** No other entry shares the place of entry `l` of child `c`. */
    lemma PlaceUnique(c: nat, l: nat)
      requires Ordered() && c < |children| && l < |place[c]|
      ensures forall i, j | 0 <= i < |children| && 0 <= j < |place[i]| && place[i][j] == place[c][l] :: i == c && j == l
    {
      forall i, j | 0 <= i < |children| && 0 <= j < |place[i]| && place[i][j] == place[c][l] ensures i == c && j == l {
        assert owner[place[i][j]] == (i, j) && owner[place[c][l]] == (c, l);
      }
    }

    /** Within a child places increase. */
    lemma PlaceMonotone(i: nat, j: nat, l: nat)
      requires Ordered() && i < |children| && j <= l < |place[i]|
      ensures place[i][j] <= place[i][l]
    {
      if j < l {
        assert Run(i);
        PlaceOrder(i, j, i, l);
      }
    }

    ghost predicate Frame()
      reads this, children
    {
      && |place| == |children|
      && (forall i | 0 <= i < |children| :: children[i].Inv() && |place[i]| == |children[i].entries|)
      && (forall i, j | 0 <= i < j < |children| :: children[i] != children[j])
    }

    /** Each child stands at its first entry from `cut` on. */
    ghost predicate AheadOf(cut: int)
      reads this, children
      requires Frame()
    {
      forall i, j | 0 <= i < |children| && 0 <= j < |place[i]| :: j < children[i].pos <==> place[i][j] < cut
    }

    /** Each child stands at its last entry before `cut`, or nowhere. */
    ghost predicate Behind(cut: int)
      reads this, children
      requires Frame()
    {
      forall i, j | 0 <= i < |children| && 0 <= j < |place[i]| ::
        (children[i].Valid() && j <= children[i].pos) <==> place[i][j] < cut
    }

    /** The current child stands at the merged position. */
    ghost predicate Stands()
      reads this, children
      requires Frame()
    {
      && current.Some? && current.value < |children| && children[current.value].Valid()
      && place[current.value][children[current.value].pos] == pos
      && pos < |entries| && entries[pos] == children[current.value].entries[children[current.value].pos]
    }

    ghost predicate Inv()
      reads this, children
      ensures Inv() ==> pos <= |entries| && (Valid() <==> pos < |entries|)
    {
      && Frame() && pos <= |entries|
      && (current == None ==> pos == |entries|)
      && (current.Some? ==> Stands() && if direction == Forward then AheadOf(pos) else Behind(pos + 1))
    }

    predicate Valid()
      reads this
    {
      current.Some?
    }

    function Key(): InternalKey<K>
      reads this, children
      requires Inv() && Valid()
      ensures Key() == entries[pos].key
    {
      children[current.value].Key()
    }

    function Value(): V
      reads this, children
      requires Inv() && Valid()
      ensures Value() == entries[pos].value
    {
      children[current.value].Value()
    }

    method FindSmallest(ghost cut: nat)
      requires Frame() && Ordered() && AheadOf(cut) && cut <= |entries|
      modifies this
      ensures Frame() && AheadOf(cut) && direction == old(direction) && pos == cut
      ensures if current == None then cut == |entries| else Stands()
    {
      var smallest: Option<nat> := None;
      for i := 0 to |children|
        invariant smallest.Some? ==> smallest.value < |children| && children[smallest.value].Valid()
        invariant forall k | 0 <= k < i && children[k].Valid() ::
          smallest.Some? && place[smallest.value][children[smallest.value].pos] <= place[k][children[k].pos]
        modifies {}
      {
        var child := children[i];
        if child.Valid() {
          if smallest == None {
            smallest := Some(i);
          } else {
            var s := smallest.value;
            PlaceOrder(i, child.pos, s, children[s].pos);
            if InternalLess(lt, child.Key(), children[s].Key()) {
              smallest := Some(i);
            }
          }
        }
      }
      if cut < |entries| {
        var (i, j) := owner[cut];
        PlaceMonotone(i, children[i].pos, j);
        EntryAt(smallest.value, children[smallest.value].pos);
      }
      current := smallest;
      pos := cut;
    }

    method FindLargest(ghost cut: nat)
      requires Frame() && Ordered() && Behind(cut) && cut <= |entries|
      modifies this
      ensures Frame() && Behind(cut) && direction == old(direction)
      ensures if current == None then cut == 0 && pos == |entries| else Stands() && pos == cut - 1
    {
      var largest: Option<nat> := None;
      for i := |children| downto 0
        invariant largest.Some? ==> largest.value < |children| && children[largest.value].Valid()
        invariant forall k | i <= k < |children| && children[k].Valid() ::
          largest.Some? && place[k][children[k].pos] <= place[largest.value][children[largest.value].pos]
        modifies {}
      {
        var child := children[i];
        if child.Valid() {
          if largest == None {
            largest := Some(i);
          } else {
            var s := largest.value;
            PlaceOrder(s, children[s].pos, i, child.pos);
            if InternalLess(lt, children[s].Key(), child.Key()) {
              largest := Some(i);
            }
          }
        }
      }
      if cut > 0 {
        var (i, j) := owner[cut - 1];
        PlaceMonotone(i, j, children[i].pos);
        EntryAt(largest.value, children[largest.value].pos);
      }
      current := largest;
      pos := if cut == 0 then |entries| else cut - 1;
    }

    /** Put a child at its first entry after `key`. */
    static method SeekAfter(child: Cursor<K, V>, key: InternalKey<K>)
      requires child.Inv() && TotalOrder(child.lt) && Sorted(child.lt, child.entries)
      modifies child
      ensures child.Inv()
      ensures forall j | 0 <= j < |child.entries| :: j < child.pos <==> !InternalLess(child.lt, key, child.entries[j].key)
    {
      child.Seek(key);
      if child.Valid() && child.Key() == key {
        child.Next();
      }
    }

    /** Put child `i` at its first entry after the current key. */
    method SeekAfterCurrent(i: nat)
      requires Frame() && Ordered() && Stands() && i < |children| && i != current.value
      modifies children[i]
      ensures children[i].Inv()
      ensures forall j | 0 <= j < |place[i]| :: j < children[i].pos <==> place[i][j] < pos
    {
      assert Run(i);
      SeekAfter(children[i], children[current.value].Key());
      var c := current.value;
      PlaceUnique(c, children[c].pos);
      forall j: nat | j < |place[i]| ensures j < children[i].pos <==> place[i][j] < pos {
        PlaceOrder(c, children[c].pos, i, j);
      }
    }

    /** Put child `i` at its last entry before the current key. */
    method SeekBeforeCurrent(i: nat)
      requires Frame() && Ordered() && Stands() && i < |children| && i != current.value
      modifies children[i]
      ensures children[i].Inv()
      ensures forall j | 0 <= j < |place[i]| :: (children[i].Valid() && j <= children[i].pos) <==> place[i][j] < pos
    {
      var child := children[i];
      assert Run(i);
      child.Seek(children[current.value].Key());
      forall j: nat | j < |place[i]| ensures j < child.pos <==> place[i][j] < pos {
        PlaceOrder(i, j, current.value, children[current.value].pos);
      }
      if child.Valid() {
        child.Prev();
      } else {
        child.SeekToLast();
      }
    }

    method Next()
      requires Inv() && Ordered() && Valid()
      modifies this, children
      ensures Inv() && direction == Forward && pos == old(pos) + 1
    {
      var c := current.value;
      if direction != Forward {
        for i := 0 to |children|
          invariant Frame() && current == old(current) && pos == old(pos) && Stands()
          invariant children[c].pos == old(children[c].pos)
          invariant forall k, j | 0 <= k < i && k != c && 0 <= j < |place[k]| :: j < children[k].pos <==> place[k][j] < pos
        {
          if i != c {
            SeekAfterCurrent(i);
          }
        }
        direction := Forward;
      }
      PlaceUnique(c, children[c].pos);
      children[c].Next();
      forall j: nat | j < |place[c]| ensures j < children[c].pos <==> place[c][j] < pos + 1 {
        PlaceOrder(c, j, c, children[c].pos - 1);
      }
      FindSmallest(pos + 1);
    }

    method Prev()
      requires Inv() && Ordered() && Valid()
      modifies this, children
      ensures Inv() && direction == Reverse && pos == if old(pos) == 0 then |entries| else old(pos) - 1
    {
      var c := current.value;
      if direction != Reverse {
        for i := 0 to |children|
          invariant Frame() && current == old(current) && pos == old(pos) && Stands()
          invariant children[c].pos == old(children[c].pos)
          invariant forall k, j | 0 <= k < i && k != c && 0 <= j < |place[k]| ::
            (children[k].Valid() && j <= children[k].pos) <==> place[k][j] < pos
        {
          if i != c {
            SeekBeforeCurrent(i);
          }
        }
        direction := Reverse;
      }
      ghost var at := children[c].pos;
      PlaceUnique(c, at);
      children[c].Prev();
      forall j: nat | j < |place[c]| ensures (children[c].Valid() && j <= children[c].pos) <==> place[c][j] < pos {
        PlaceOrder(c, j, c, at);
      }
      FindLargest(pos);
    }

    method SeekToFirst()
      requires Inv() && Ordered()
      modifies this, children
      ensures Inv() && direction == Forward && pos == 0
    {
      for i := 0 to |children|
        invariant Frame() && forall k | 0 <= k < i :: children[k].pos == 0
      {
        children[i].SeekToFirst();
      }
      FindSmallest(0);
      direction := Forward;
    }

    method SeekToLast()
      requires Inv() && Ordered()
      modifies this, children
      ensures Inv() && direction == Reverse && pos == if |entries| == 0 then 0 else |entries| - 1
    {
      for i := 0 to |children|
        invariant Frame()
        invariant forall k | 0 <= k < i && |place[k]| > 0 :: children[k].pos == |place[k]| - 1
      {
        children[i].SeekToLast();
      }
      FindLargest(|entries|);
      direction := Reverse;
    }

    method Seek(target: InternalKey<K>)
      requires Inv() && Ordered()
      modifies this, children
      ensures Inv() && direction == Forward && LowerBound(lt, entries, target, pos)
    {
      for i := 0 to |children|
        invariant Frame()
        invariant forall k | 0 <= k < i :: LowerBound(lt, children[k].entries, target, children[k].pos)
      {
        assert Run(i);
        children[i].Seek(target);
      }
      ghost var cut := LowerBoundExists(lt, entries, target);
      forall i, j | 0 <= i < |children| && 0 <= j < |place[i]| ensures j < children[i].pos <==> place[i][j] < cut {
        EntryAt(i, j);
      }
      FindSmallest(cut);
      direction := Forward;
    }
  }
}
