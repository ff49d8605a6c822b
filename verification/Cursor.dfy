/** An iterator over one sorted run, as Version::LevelFileNumIterator walks the sorted file list of a
    level (db/version_set.cc). Running off either end leaves `pos` at the length of the run. */
module Cursors {
  import opened Keys

  /** `i` splits the run: keys before it are below `target`, keys from it on are not. */
  ghost predicate LowerBound<K(!new), V(!new)>(lt: (K, K) -> bool, es: seq<Entry<K, V>>, target: InternalKey<K>, i: nat) {
    && i <= |es|
    && (forall j | 0 <= j < i :: InternalLess(lt, es[j].key, target))
    && (forall j | i <= j < |es| :: !InternalLess(lt, es[j].key, target))
  }

  lemma LowerBoundExists<K(!new), V(!new)>(lt: (K, K) -> bool, es: seq<Entry<K, V>>, target: InternalKey<K>) returns (i: nat)
    requires TotalOrder(lt) && Sorted(lt, es)
    ensures LowerBound(lt, es, target, i)
  {
    i := |es|;
    while i > 0 && !InternalLess(lt, es[i - 1].key, target)
      invariant i <= |es| && forall j | i <= j < |es| :: !InternalLess(lt, es[j].key, target)
    {
      i := i - 1;
    }
  }

  class Cursor<K(==, !new), V(!new)> {
    const lt: (K, K) -> bool
    const entries: seq<Entry<K, V>>
    var pos: nat

    constructor (lt: (K, K) -> bool, entries: seq<Entry<K, V>>)
      ensures this.lt == lt && this.entries == entries && Inv() && !Valid()
    {
      this.lt := lt;
      this.entries := entries;
      pos := |entries|;
    }

    ghost predicate Inv()
      reads this
    {
      pos <= |entries|
    }

    predicate Valid()
      reads this
    {
      pos < |entries|
    }

    function Key(): InternalKey<K>
      reads this
      requires Valid()
    {
      entries[pos].key
    }

    function Value(): V
      reads this
      requires Valid()
    {
      entries[pos].value
    }

    method Seek(target: InternalKey<K>)
      requires Inv() && TotalOrder(lt) && Sorted(lt, entries)
      modifies this
      ensures Inv() && LowerBound(lt, entries, target, pos)
    {
      var left, right := 0, |entries|;
      while left < right
        invariant 0 <= left <= right <= |entries|
        invariant forall i | 0 <= i < left :: InternalLess(lt, entries[i].key, target)
        invariant forall i | right <= i < |entries| :: !InternalLess(lt, entries[i].key, target)
      {
        var mid := (left + right) / 2;
        if InternalLess(lt, entries[mid].key, target) {
          left := mid + 1;
        } else {
          right := mid;
        }
      }
      pos := right;
    }

    method SeekToFirst()
      requires Inv()
      modifies this
      ensures Inv() && pos == 0
    {
      pos := 0;
    }

    method SeekToLast()
      requires Inv()
      modifies this
      ensures Inv() && pos == if |entries| == 0 then 0 else |entries| - 1
    {
      pos := if |entries| == 0 then 0 else |entries| - 1;
    }

    method Next()
      requires Inv() && Valid()
      modifies this
      ensures Inv() && pos == old(pos) + 1
    {
      pos := pos + 1;
    }

    method Prev()
      requires Inv() && Valid()
      modifies this
      ensures Inv() && pos == if old(pos) == 0 then |entries| else old(pos) - 1
    {
      pos := if pos == 0 then |entries| else pos - 1;
    }
  }
}
