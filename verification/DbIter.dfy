/** The user-facing iterator (db/db_iter.cc): one live value per user key, at a snapshot. */
module DbIter {
  import opened Keys
  import opened Merger

  /** Entry `i` is the one a read at `snapshot` yields for its user key. */
  ghost predicate Shown<K, V>(es: seq<Entry<K, V>>, snapshot: nat, i: nat)
    ensures Shown(es, snapshot, i) ==> i < |es| && Readable(es[i], snapshot) && es[i].key.typ == TYPE_VALUE
  {
    && i < |es| && Readable(es[i], snapshot) && es[i].key.typ == TYPE_VALUE
    && forall j | 0 <= j < i && es[j].key.user == es[i].key.user :: !Readable(es[j], snapshot)
  }

  lemma LookupShown<K(!new), V(!new)>(lt: (K, K) -> bool, es: seq<Entry<K, V>>, snapshot: nat, i: nat)
    requires TotalOrder(lt) && Sorted(lt, es) && Shown(es, snapshot, i)
    ensures Lookup(Elements(es), es[i].key.user, snapshot) == Some(es[i].value)
  {
    SortedIsDistinct(lt, es);
    LookupNewest(Elements(es), es[i].key.user, snapshot, es[i]);
  }

  lemma NewestValueIsShown<K(!new), V(!new)>(lt: (K, K) -> bool, es: seq<Entry<K, V>>, snapshot: nat, i: nat)
    requires TotalOrder(lt) && Sorted(lt, es) && i < |es|
    requires Newest(Elements(es), es[i].key.user, snapshot, es[i]) && es[i].key.typ == TYPE_VALUE
    ensures Shown(es, snapshot, i)
  {
    forall j | 0 <= j < i && es[j].key.user == es[i].key.user ensures !Readable(es[j], snapshot) {
      assert InternalLess(lt, es[j].key, es[i].key);
    }
  }

  lemma LookupNotShown<K(!new), V(!new)>(lt: (K, K) -> bool, es: seq<Entry<K, V>>, snapshot: nat, k: K)
    requires TotalOrder(lt) && Sorted(lt, es)
    requires forall i: nat | i < |es| && es[i].key.user == k :: !Shown(es, snapshot, i)
    ensures Lookup(Elements(es), k, snapshot) == None
  {
    forall i: nat | i < |es| && Newest(Elements(es), k, snapshot, es[i]) ensures es[i].key.typ != TYPE_VALUE {
      if es[i].key.typ == TYPE_VALUE {
        NewestValueIsShown(lt, es, snapshot, i);
      }
    }
  }

  class DBIter<K(==, !new), V(!new)> {
    const lt: (K, K) -> bool
    const iter: MergingIterator<K, V>
    const sequence: nat
    // None stands for a string that was cleared or is in use as scratch space.
    var savedKey: Option<K>
    var savedValue: Option<V>
    var direction: Direction
    var valid: bool

    constructor (iter: MergingIterator<K, V>, sequence: nat)
      requires iter.Inv() && iter.Ordered()
      ensures Inv() && Ordered() && !valid && this.iter == iter && this.sequence == sequence
    {
      this.lt, this.iter, this.sequence := iter.lt, iter, sequence;
      savedKey, savedValue := None, None;
      direction := Forward;
      valid := false;
    }

    ghost predicate Ordered() {
      lt == iter.lt && iter.Ordered()
    }

    ghost predicate ShownAt(i: nat) {
      Shown(iter.entries, sequence, i)
    }

    /** The position of the internal iterator, -1 when it has run off the front. */
    ghost function At(): int
      reads iter
    {
      if iter.pos < |iter.entries| then iter.pos else -1
    }

    /** Forward, the internal iterator is at the entry shown. In reverse, it is before every readable entry
        of the current key, and what lies between cannot be read. */
    ghost predicate Inv()
      reads this, iter, iter.children
    {
      && iter.Inv()
      && (valid && direction == Forward ==> ShownAt(iter.pos))
      && (valid && direction == Reverse ==>
            && savedKey.Some? && savedValue.Some?
            && (exists q: nat :: ShownAt(q) && iter.entries[q].key.user == savedKey.value && iter.entries[q].value == savedValue.value)
            && (iter.pos < |iter.entries| ==> lt(iter.entries[iter.pos].key.user, savedKey.value))
            && forall j | At() < j < |iter.entries| && lt(iter.entries[j].key.user, savedKey.value) :: !Readable(iter.entries[j], sequence))
    }

    function Key(): K
      reads this, iter, iter.children
      requires Inv() && valid
    {
      if direction == Forward then iter.Key().user else savedKey.value
    }

    function Value(): V
      reads this, iter, iter.children
      requires Inv() && valid
    {
      if direction == Forward then iter.Value() else savedValue.value
    }

    /** Entries from `start` up to `p` have been passed without showing one. Keys up to `key` are hidden
        when `skip` is set; before the first step that is `from` when `skipping`. */
    ghost predicate Passed(start: int, p: int, skipping: bool, from: Option<K>, skip: bool, key: Option<K>)
      ensures Passed(start, p, skipping, from, skip, key) && skip ==> key.Some?
    {
      && 0 <= start <= p && (skipping ==> skip && from.Some?) && (skip ==> key.Some?)
      && (skipping ==> !lt(key.value, from.value))
      && (forall i | skipping && start <= i < |iter.entries| && Readable(iter.entries[i], sequence) :: !lt(iter.entries[i].key.user, from.value))
      && (forall i, j | 0 <= j < p <= i < |iter.entries| && iter.entries[i].key.user == iter.entries[j].key.user && Readable(iter.entries[j], sequence) ::
            skip && !lt(key.value, iter.entries[i].key.user))
      && (forall i: nat | p <= i < |iter.entries| && skip && !lt(key.value, iter.entries[i].key.user) && ShownAt(i) ::
            skipping && iter.entries[i].key.user == from.value)
      && (forall q: nat | start <= q < p && ShownAt(q) :: skipping && iter.entries[q].key.user == from.value)
    }

    /** Stepping over an entry that is unreadable, hidden, or a deletion. */
    lemma PassStep(start: int, p: int, skipping: bool, from: Option<K>, skip: bool, key: Option<K>)
      requires Ordered() && Passed(start, p, skipping, from, skip, key) && p < |iter.entries|
      ensures !Readable(iter.entries[p], sequence) || (skip && !lt(key.value, iter.entries[p].key.user)) ==>
        Passed(start, p + 1, skipping, from, skip, key)
      ensures Readable(iter.entries[p], sequence) && iter.entries[p].key.typ == TYPE_DELETION ==>
        Passed(start, p + 1, skipping, from, true, Some(iter.entries[p].key.user))
    {
      hide MergingIterator.Ordered;
      var user := iter.entries[p].key.user;
      assert forall i | p < i < |iter.entries| :: InternalLess(lt, iter.entries[p].key, iter.entries[i].key);
      if Readable(iter.entries[p], sequence) && iter.entries[p].key.typ == TYPE_DELETION {
        forall i: nat | p < i < |iter.entries| && !lt(user, iter.entries[i].key.user) ensures !ShownAt(i) {
          assert iter.entries[i].key.user == user;
        }
        forall i, j | 0 <= j < p < i < |iter.entries| && iter.entries[i].key.user == iter.entries[j].key.user && Readable(iter.entries[j], sequence)
          ensures !lt(user, iter.entries[i].key.user)
        {
          assert InternalLess(lt, iter.entries[j].key, iter.entries[p].key);
        }
      }
    }

    /** A readable value that is not hidden is the one to show. */
    lemma PassDone(start: int, p: int, skipping: bool, from: Option<K>, skip: bool, key: Option<K>)
      requires Passed(start, p, skipping, from, skip, key) && TotalOrder(lt)
      ensures (p < |iter.entries| && Readable(iter.entries[p], sequence) && iter.entries[p].key.typ == TYPE_VALUE
               && (skip ==> lt(key.value, iter.entries[p].key.user))) ==>
        ShownAt(p) && (skipping ==> lt(from.value, iter.entries[p].key.user))
      ensures forall q: nat | start <= q < p && ShownAt(q) :: skipping && iter.entries[q].key.user == from.value
    {
    }

    method FindNextUserEntry(skipping: bool)
      requires iter.Inv() && Ordered() && iter.Valid() && direction == Forward
      requires Passed(iter.pos, iter.pos, skipping, savedKey, skipping, savedKey)
      modifies this, iter, iter.children
      ensures Inv() && direction == Forward
      ensures valid ==> old(iter.pos) <= iter.pos && (skipping ==> lt(old(savedKey).value, iter.entries[iter.pos].key.user))
      ensures forall q: nat | old(iter.pos) <= q < (if valid then iter.pos else |iter.entries|) && ShownAt(q) ::
        skipping && iter.entries[q].key.user == old(savedKey).value
    {
      hide MergingIterator.Inv, MergingIterator.Ordered, TotalOrder, Sorted, Shown, Passed;
      ghost var start, from := iter.pos, savedKey;
      var skip := skipping;
      while true
        invariant iter.Inv() && iter.Valid() && direction == Forward
        invariant Passed(start, iter.pos, skipping, from, skip, savedKey)
        decreases |iter.entries| - iter.pos
      {
        var ikey := iter.Key();
        PassStep(start, iter.pos, skipping, from, skip, savedKey);
        PassDone(start, iter.pos, skipping, from, skip, savedKey);
        if ikey.typ <= TYPE_VALUE && ikey.seqno <= sequence {
          if ikey.typ == TYPE_DELETION {
            savedKey := Some(ikey.user);
            skip := true;
          } else if skip && !lt(savedKey.value, ikey.user) {
            // Entry hidden
          } else {
            valid := true;
            savedKey := None;
            return;
          }
        }
        iter.Next();
        if !iter.Valid() {
          break;
        }
      }
      PassDone(start, iter.pos, skipping, from, skip, savedKey);
      savedKey := None;
      valid := false;
    }

    /** Entries above `p` up to `top` have been scanned backwards; `r` is the first readable one among them
        in key order, past `top` when there is none, and the rest hold nothing shown. */
    ghost predicate Scanned(p: int, top: int, r: int, valueType: Byte, key: Option<K>, value: Option<V>)
      ensures Scanned(p, top, r, valueType, key, value) && valueType != TYPE_DELETION ==> key.Some? && value.Some?
    {
      && -1 <= p < r <= top + 1 <= |iter.entries|
      && (forall j | p < j < r :: !Readable(iter.entries[j], sequence))
      && (forall q: nat | r < q <= top :: !ShownAt(q))
      && (if r == top + 1 then valueType == TYPE_DELETION else
            && Readable(iter.entries[r], sequence) && iter.entries[r].key.typ == valueType
            && (valueType != TYPE_DELETION ==> key == Some(iter.entries[r].key.user) && value == Some(iter.entries[r].value)))
    }

    lemma ScanStep(p: int, top: int, r: int, valueType: Byte, key: Option<K>, value: Option<V>)
      requires Ordered() && 0 <= p && Scanned(p, top, r, valueType, key, value)
      ensures !Readable(iter.entries[p], sequence) ==> Scanned(p - 1, top, r, valueType, key, value)
      ensures Readable(iter.entries[p], sequence) && (valueType != TYPE_DELETION ==> !lt(iter.entries[p].key.user, key.value)) ==>
        var e := iter.entries[p];
        if e.key.typ == TYPE_DELETION then Scanned(p - 1, top, p, e.key.typ, None, None)
        else Scanned(p - 1, top, p, e.key.typ, Some(e.key.user), Some(e.value))
    {
      hide MergingIterator.Ordered;
      assert r <= top ==> InternalLess(lt, iter.entries[p].key, iter.entries[r].key);
    }

    /** When the scan ends before an older key, `r` is what a read of its key shows, and nothing shown is
        above it. */
    lemma ScanDone(p: int, top: int, r: int, valueType: Byte, key: Option<K>, value: Option<V>)
      requires Ordered() && Scanned(p, top, r, valueType, key, value)
      requires 0 <= p ==> valueType != TYPE_DELETION && lt(iter.entries[p].key.user, key.value)
      ensures valueType == TYPE_DELETION ==> forall q: nat | q <= top :: !ShownAt(q)
      ensures valueType != TYPE_DELETION ==>
        && 0 <= r <= top && ShownAt(r) && iter.entries[r].key.user == key.value && iter.entries[r].value == value.value
        && (forall j | p < j < |iter.entries| && lt(iter.entries[j].key.user, key.value) :: !Readable(iter.entries[j], sequence))
        && (forall q: nat | q <= top && ShownAt(q) :: !lt(key.value, iter.entries[q].key.user))
    {
      hide MergingIterator.Ordered;
      if valueType != TYPE_DELETION {
        forall j | 0 <= j < r && iter.entries[j].key.user == iter.entries[r].key.user ensures !Readable(iter.entries[j], sequence) {
          assert j < p ==> InternalLess(lt, iter.entries[j].key, iter.entries[p].key);
        }
        forall j | p < j < |iter.entries| && lt(iter.entries[j].key.user, key.value) ensures !Readable(iter.entries[j], sequence) {
          assert j > r ==> InternalLess(lt, iter.entries[r].key, iter.entries[j].key);
        }
        forall q: nat | q <= top && ShownAt(q) ensures !lt(key.value, iter.entries[q].key.user) {
          assert q < r ==> InternalLess(lt, iter.entries[q].key, iter.entries[r].key);
        }
      }
    }

    method FindPrevUserEntry()
      requires iter.Inv() && Ordered() && direction == Reverse
      modifies this, iter, iter.children
      ensures Inv()
      ensures valid ==> direction == Reverse
      ensures valid ==> exists q: nat :: q <= old(At()) && ShownAt(q) && iter.entries[q].key.user == savedKey.value
      ensures forall q: nat | q <= old(At()) && ShownAt(q) :: valid && !lt(savedKey.value, iter.entries[q].key.user)
    {
      hide MergingIterator.Inv, MergingIterator.Ordered, TotalOrder, Sorted, Shown, Scanned;
      var valueType := TYPE_DELETION;
      ghost var top := At();
      ghost var r: int := top + 1;
      ScanStart(top, savedKey, savedValue);
      if iter.Valid() {
        while true
          invariant iter.Inv() && iter.Valid() && iter.pos <= top && direction == Reverse
          invariant Scanned(iter.pos, top, r, valueType, savedKey, savedValue)
          decreases iter.pos
        {
          var ikey := iter.Key();
          ScanStep(iter.pos, top, r, valueType, savedKey, savedValue);
          if ikey.typ <= TYPE_VALUE && ikey.seqno <= sequence {
            if valueType != TYPE_DELETION && lt(ikey.user, savedKey.value) {
              break;
            }
            valueType := ikey.typ;
            if valueType == TYPE_DELETION {
              savedKey := None;
              savedValue := None;
            } else {
              savedKey := Some(ikey.user);
              savedValue := Some(iter.Value());
            }
            r := iter.pos;
          }
          iter.Prev();
          if !iter.Valid() {
            break;
          }
        }
      }
      ScanDone(At(), top, r, valueType, savedKey, savedValue);
      if valueType == TYPE_DELETION {
        valid := false;
        savedKey, savedValue := None, None;
        direction := Forward;
      } else {
        valid := true;
      }
    }

    lemma ScanStart(top: int, key: Option<K>, value: Option<V>)
      requires -1 <= top < |iter.entries|
      ensures Scanned(top, top, top + 1, TYPE_DELETION, key, value)
    {
    }

    /** The current pair is what a read of the current key returns. */
    ghost predicate AtLive()
      reads this, iter, iter.children
      requires Inv()
    {
      valid ==> Read(Key()) == Some(Value())
    }

    /** The map the iterator walks. */
    ghost function Read(k: K): Option<V> {
      Lookup(Elements(iter.entries), k, sequence)
    }

    lemma CurrentIsLive()
      requires Inv() && Ordered()
      ensures AtLive()
    {
      hide MergingIterator.Inv, MergingIterator.Key, MergingIterator.Value, MergingIterator.Valid, MergingIterator.Ordered;
      if valid {
        if direction == Forward {
          LookupShown(lt, iter.entries, sequence, iter.pos);
        } else {
          var q: nat :| ShownAt(q) && iter.entries[q].key.user == savedKey.value && iter.entries[q].value == savedValue.value;
          LookupShown(lt, iter.entries, sequence, q);
        }
      }
    }

    method Next()
      requires Inv() && Ordered() && valid
      modifies this, iter, iter.children
      ensures Inv() && AtLive()
      ensures valid ==> lt(old(Key()), Key())
      ensures forall k | lt(old(Key()), k) && (valid ==> lt(k, Key())) :: Read(k) == None
    {
      hide MergingIterator.Inv, MergingIterator.Key, MergingIterator.Value, MergingIterator.Valid, MergingIterator.Ordered;
      ghost var from := Key();
      if direction == Reverse {
        direction := Forward;
        if !iter.Valid() {
          iter.SeekToFirst();
        } else {
          iter.Next();
        }
        if !iter.Valid() {
          // The entries of the saved key lie ahead, so the source never returns here.
          assert false;
        }
      } else {
        savedKey := Some(iter.Key().user);
      }
      FindNextUserEntry(true);
      CurrentIsLive();
      forall k | lt(from, k) && (valid ==> lt(k, Key())) ensures Read(k) == None {
        LookupNotShown(lt, iter.entries, sequence, k);
      }
    }

    method Prev()
      requires Inv() && Ordered() && valid
      modifies this, iter, iter.children
      ensures Inv() && AtLive()
      ensures valid ==> lt(Key(), old(Key()))
      ensures forall k | lt(k, old(Key())) && (valid ==> lt(Key(), k)) :: Read(k) == None
    {
      hide MergingIterator.Inv, MergingIterator.Key, MergingIterator.Value, MergingIterator.Valid, MergingIterator.Ordered;
      ghost var from := Key();
      if direction == Forward {
        savedKey := Some(iter.Key().user);
        while true
          invariant iter.Inv() && iter.Valid() && iter.pos <= old(iter.pos)
          invariant savedKey == Some(from) && direction == Forward
          invariant forall i | iter.pos <= i <= old(iter.pos) :: iter.entries[i].key.user == from
          decreases iter.pos
        {
          iter.Prev();
          if !iter.Valid() {
            valid := false;
            savedKey, savedValue := None, None;
            forall k | lt(k, from) ensures Read(k) == None {
              LookupNotShown(lt, iter.entries, sequence, k);
            }
            return;
          }
          if lt(iter.Key().user, savedKey.value) {
            break;
          }
        }
        direction := Reverse;
      }
      FindPrevUserEntry();
      CurrentIsLive();
      forall k | lt(k, from) && (valid ==> lt(Key(), k)) ensures Read(k) == None {
        LookupNotShown(lt, iter.entries, sequence, k);
      }
    }

    method Seek(target: K)
      requires Inv() && Ordered()
      modifies this, iter, iter.children
      ensures Inv() && AtLive()
      ensures valid ==> !lt(Key(), target)
      ensures forall k | !lt(k, target) && (valid ==> lt(k, Key())) :: Read(k) == None
    {
      hide MergingIterator.Inv, MergingIterator.Key, MergingIterator.Value, MergingIterator.Valid, MergingIterator.Ordered;
      direction := Forward;
      savedValue := None;
      savedKey := None;
      iter.Seek(InternalKey(target, sequence, TYPE_VALUE));
      if iter.Valid() {
        FindNextUserEntry(false);
      } else {
        valid := false;
      }
      CurrentIsLive();
      forall k | !lt(k, target) && (valid ==> lt(k, Key())) ensures Read(k) == None {
        LookupNotShown(lt, iter.entries, sequence, k);
      }
    }

    method SeekToFirst()
      requires Inv() && Ordered()
      modifies this, iter, iter.children
      ensures Inv() && AtLive()
      ensures forall k | valid ==> lt(k, Key()) :: Read(k) == None
    {
      hide MergingIterator.Inv, MergingIterator.Key, MergingIterator.Value, MergingIterator.Valid, MergingIterator.Ordered;
      direction := Forward;
      savedValue := None;
      iter.SeekToFirst();
      if iter.Valid() {
        FindNextUserEntry(false);
      } else {
        valid := false;
      }
      CurrentIsLive();
      forall k | valid ==> lt(k, Key()) ensures Read(k) == None {
        LookupNotShown(lt, iter.entries, sequence, k);
      }
    }

    method SeekToLast()
      requires Inv() && Ordered()
      modifies this, iter, iter.children
      ensures Inv() && AtLive()
      ensures forall k | valid ==> lt(Key(), k) :: Read(k) == None
    {
      hide MergingIterator.Inv, MergingIterator.Key, MergingIterator.Value, MergingIterator.Valid, MergingIterator.Ordered;
      direction := Reverse;
      savedValue := None;
      iter.SeekToLast();
      FindPrevUserEntry();
      CurrentIsLive();
      forall k | valid ==> lt(Key(), k) ensures Read(k) == None {
        LookupNotShown(lt, iter.entries, sequence, k);
      }
    }
  }
}
