/** Internal keys and what a read at a snapshot sees (db/dbformat.h, db/dbformat.cc).

    User keys are a type parameter `K`, ordered by a comparator `lt` that the caller supplies,
    as `Options::comparator` does; module Comparators holds the default, bytewise one. */
module Keys {
  datatype Option<+T> = None | Some(value: T)

  type Byte = b: int | 0 <= b < 256

  /** The comparator is a strict total order. */
  ghost predicate TotalOrder<K(!new)>(lt: (K, K) -> bool) {
    && (forall a :: !lt(a, a))
    && (forall a, b, c :: lt(a, b) && lt(b, c) ==> lt(a, c))
    && (forall a, b :: lt(a, b) || lt(b, a) || a == b)
  }

  /** A strict order in which being neither before nor after is an equivalence: a total one on what the
      comparator looks at. */
  ghost predicate WeakOrder<K(!new)>(lt: (K, K) -> bool) {
    && (forall a :: !lt(a, a))
    && (forall a, b, c :: lt(a, b) && lt(b, c) ==> lt(a, c))
    && (forall a, b, c :: lt(a, c) ==> lt(a, b) || lt(b, c))
  }

  const TYPE_DELETION: Byte := 0
  const TYPE_VALUE: Byte := 1
  const MAX_SEQUENCE: nat := 0x100_0000_0000_0000 - 1

  /** A parsed internal key. `typ` is the low byte of the trailer; a byte above TYPE_VALUE is one that
      ParseInternalKey rejects. */
  datatype InternalKey<+K> = InternalKey(user: K, seqno: nat, typ: Byte) {
    /** The packed 64-bit trailer. */
    function Tag(): nat {
      seqno * 256 + typ
    }
  }

  /** Increasing user key, then decreasing trailer. */
  predicate InternalLess<K(==)>(lt: (K, K) -> bool, a: InternalKey<K>, b: InternalKey<K>) {
    lt(a.user, b.user) || (a.user == b.user && a.Tag() > b.Tag())
  }

  datatype Entry<+K, +V> = Entry(key: InternalKey<K>, value: V)

  ghost predicate Sorted<K(!new), V(!new)>(lt: (K, K) -> bool, es: seq<Entry<K, V>>) {
    forall i, j | 0 <= i < j < |es| :: InternalLess(lt, es[i].key, es[j].key)
  }

  /** The entry parses and is not newer than the snapshot. */
  predicate Readable<K, V>(e: Entry<K, V>, snapshot: nat) {
    e.key.typ <= TYPE_VALUE && e.key.seqno <= snapshot
  }

  /** `e` is the newest entry of `k` that a read at `snapshot` may use. */
  ghost predicate Newest<K, V>(es: set<Entry<K, V>>, k: K, snapshot: nat, e: Entry<K, V>) {
    && e in es && e.key.user == k && Readable(e, snapshot)
    && forall f | f in es && f.key.user == k && Readable(f, snapshot) :: f.key.Tag() <= e.key.Tag()
  }

  /** No two entries share an internal key. */
  ghost predicate Distinct<K(!new), V(!new)>(es: set<Entry<K, V>>) {
    forall e, f | e in es && f in es && e.key.user == f.key.user && e.key.Tag() == f.key.Tag() :: e == f
  }

  /** What a read of `k` at `snapshot` must return: the value of the newest readable entry, or nothing
      when there is none or it is a deletion. */
  ghost function Lookup<K(!new), V(!new)>(es: set<Entry<K, V>>, k: K, snapshot: nat): Option<V> {
    if exists e :: Newest(es, k, snapshot, e) && e.key.typ == TYPE_VALUE then
      var e :| Newest(es, k, snapshot, e) && e.key.typ == TYPE_VALUE;
      Some(e.value)
    else
      None
  }

  lemma LookupNewest<K(!new), V(!new)>(es: set<Entry<K, V>>, k: K, snapshot: nat, e: Entry<K, V>)
    requires Distinct(es) && Newest(es, k, snapshot, e)
    ensures Lookup(es, k, snapshot) == if e.key.typ == TYPE_VALUE then Some(e.value) else None
  {
    forall f | Newest(es, k, snapshot, f) ensures f == e {
      assert f.key.Tag() == e.key.Tag();
    }
  }

  /** Among finitely many readable entries of a key one is the newest. */
  lemma {:induction false} NewestExists<K(!new), V(!new)>(es: set<Entry<K, V>>, k: K, snapshot: nat, some: Entry<K, V>) returns (e: Entry<K, V>)
    requires some in es && some.key.user == k && Readable(some, snapshot)
    ensures Newest(es, k, snapshot, e)
    decreases es
  {
    e := some;
    if other :| other in es && other.key.user == k && Readable(other, snapshot) && other.key.Tag() > some.key.Tag() {
      e := NewestExists(es - {some}, k, snapshot, other);
      assert other in es - {some};
    }
  }

  ghost function Elements<T>(s: seq<T>): set<T> {
    set x | x in s
  }

  lemma SortedIsDistinct<K(!new), V(!new)>(lt: (K, K) -> bool, es: seq<Entry<K, V>>)
    requires TotalOrder(lt) && Sorted(lt, es)
    ensures Distinct(Elements(es))
  {
    forall e, f | e in es && f in es && e.key.user == f.key.user && e.key.Tag() == f.key.Tag() ensures e == f {
      var i :| 0 <= i < |es| && es[i] == e;
      var j :| 0 <= j < |es| && es[j] == f;
      assert !InternalLess(lt, es[i].key, es[j].key) && !InternalLess(lt, es[j].key, es[i].key);
    }
  }
}
