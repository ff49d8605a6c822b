/** One shard of the block cache (util/cache.cc, LRUCache). Handles are records known by their address; the
    two lists are sequences of addresses, oldest first. */
module Caches {
  import opened Keys
  import opened Coding
  import opened HandleTables

  datatype LRUHandle<+V> = LRUHandle(key: Bytes, hash: Word, value: V, charge: nat, inCache: bool, refs: nat)

  ghost predicate NoDuplicates(s: seq<nat>) {
    forall i, j | 0 <= i < j < |s| :: s[i] != s[j]
  }

  /** The list without a handle. */
  function Without(s: seq<nat>, e: nat): seq<nat> {
    if s == [] then [] else if s[0] == e then s[1..] else [s[0]] + Without(s[1..], e)
  }

  lemma {:induction false} WithoutHolds(s: seq<nat>, e: nat)
    requires NoDuplicates(s)
    ensures NoDuplicates(Without(s, e)) && forall x :: x in Without(s, e) <==> x in s && x != e
  {
    if s != [] {
      var rest := s[1..];
      assert forall i | 0 <= i < |rest| :: rest[i] == s[i + 1];
      assert forall x :: x in s <==> x == s[0] || x in rest;
      assert s[0] !in rest;
      WithoutHolds(rest, e);
      if s[0] != e {
        FrontNew(s[0], Without(rest, e));
      }
    }
  }

  lemma FrontNew(x: nat, s: seq<nat>)
    requires NoDuplicates(s) && x !in s
    ensures NoDuplicates([x] + s)
  {
  }

  /** The charge of the handles on a list. */
  ghost function Charge<V>(handles: map<nat, LRUHandle<V>>, s: seq<nat>): nat {
    if s == [] then 0 else (if s[0] in handles then handles[s[0]].charge else 0) + Charge(handles, s[1..])
  }

  lemma {:induction false} ChargeWithout<V>(handles: map<nat, LRUHandle<V>>, s: seq<nat>, e: nat)
    requires e in s && e in handles
    ensures Charge(handles, s) == Charge(handles, Without(s, e)) + handles[e].charge
  {
    if s[0] != e {
      ChargeWithout(handles, s[1..], e);
    }
  }

  lemma {:induction false} ChargeAppend<V>(handles: map<nat, LRUHandle<V>>, s: seq<nat>, e: nat)
    requires e in handles
    ensures Charge(handles, s + [e]) == Charge(handles, s) + handles[e].charge
  {
    if s != [] {
      assert (s + [e])[1..] == s[1..] + [e];
      ChargeAppend(handles, s[1..], e);
    }
  }

  /** Charges depend only on the handles of the list. */
  lemma {:induction false} ChargeSame<V>(a: map<nat, LRUHandle<V>>, b: map<nat, LRUHandle<V>>, s: seq<nat>)
    requires forall x | x in s :: x in a && x in b && a[x].charge == b[x].charge
    ensures Charge(a, s) == Charge(b, s)
  {
    if s != [] {
      ChargeSame(a, b, s[1..]);
    }
  }

  lemma WithoutNothing(s: seq<nat>, e: nat)
    requires e !in s
    ensures Without(s, e) == s
  {
    if s != [] {
      WithoutNothing(s[1..], e);
    }
  }

  predicate OnLru<V>(h: LRUHandle<V>) {
    h.inCache && h.refs == 1
  }

  predicate OnInUse<V>(h: LRUHandle<V>) {
    h.inCache && h.refs >= 2
  }

  /** Each cached handle is on exactly one list, according to its reference count; others are on none. */
  ghost predicate Lists<V>(handles: map<nat, LRUHandle<V>>, lru: seq<nat>, inUse: seq<nat>) {
    && NoDuplicates(lru) && NoDuplicates(inUse)
    && (forall x :: x in lru <==> x in handles && OnLru(handles[x]))
    && (forall x :: x in inUse <==> x in handles && OnInUse(handles[x]))
  }

  /** References are those of clients and that of the cache, and there is at least one. */
  ghost predicate Counts<V>(handles: map<nat, LRUHandle<V>>, held: multiset<nat>) {
    && (forall x | x in handles :: handles[x].refs == held[x] + (if handles[x].inCache then 1 else 0) && handles[x].refs > 0)
    && (forall x | x in held :: x in handles)
  }

  /** The table maps exactly the keys of cached handles, but for one that is leaving. */
  ghost predicate Tabled<V>(handles: map<nat, LRUHandle<V>>, slots: map<Bytes, Slot>, leaving: Option<nat>) {
    && (forall k | k in slots :: var x := slots[k].handle; x in handles && handles[x].inCache && handles[x].key == k && Some(x) != leaving)
    && (forall x | x in handles && handles[x].inCache && Some(x) != leaving :: handles[x].key in slots && slots[handles[x].key].handle == x)
  }

  /** Every handle ever made is there or has been passed to its deleter, once. */
  ghost predicate Accounted<V>(handles: map<nat, LRUHandle<V>>, deleted: seq<nat>, next: nat) {
    && NoDuplicates(deleted)
    && (forall x: nat :: x < next <==> x in handles || x in deleted)
    && (forall x | x in deleted :: x !in handles)
  }

  ghost predicate Balanced<V>(handles: map<nat, LRUHandle<V>>, lru: seq<nat>, inUse: seq<nat>, usage: nat) {
    usage == Charge(handles, lru) + Charge(handles, inUse)
  }

  /** All but the table. */
  ghost predicate Sound<V>(
      handles: map<nat, LRUHandle<V>>, lru: seq<nat>, inUse: seq<nat>, usage: nat, held: multiset<nat>, deleted: seq<nat>, next: nat) {
    && Lists(handles, lru, inUse) && Counts(handles, held) && Accounted(handles, deleted, next) && Balanced(handles, lru, inUse, usage)
  }

  /** Taking a reference, which moves a handle off the LRU list. */
  lemma RefLists<V>(handles: map<nat, LRUHandle<V>>, lru: seq<nat>, inUse: seq<nat>, e: nat)
    requires Lists(handles, lru, inUse) && e in handles && handles[e].refs > 0
    ensures var h := handles[e];
      Lists(handles[e := h.(refs := h.refs + 1)], if OnLru(h) then Without(lru, e) else lru, if OnLru(h) then inUse + [e] else inUse)
  {
    WithoutHolds(lru, e);
  }

  /** The charges on both lists after a handle goes from one to the other. */
  lemma MoveBalanced<V>(handles: map<nat, LRUHandle<V>>, from: seq<nat>, to: seq<nat>, e: nat, after: map<nat, LRUHandle<V>>)
    requires e in from && e in handles && forall x | x in from || x in to :: x in handles && x in after && handles[x].charge == after[x].charge
    requires NoDuplicates(from)
    ensures Charge(after, Without(from, e)) + Charge(after, to + [e]) == Charge(handles, from) + Charge(handles, to)
  {
    WithoutHolds(from, e);
    ChargeSame(handles, after, Without(from, e));
    ChargeSame(handles, after, to);
    ChargeWithout(handles, from, e);
    ChargeAppend(after, to, e);
  }

  lemma StayBalanced<V>(handles: map<nat, LRUHandle<V>>, lru: seq<nat>, inUse: seq<nat>, usage: nat, after: map<nat, LRUHandle<V>>)
    requires Balanced(handles, lru, inUse, usage)
    requires forall x | x in lru || x in inUse :: x in handles && x in after && handles[x].charge == after[x].charge
    ensures Balanced(after, lru, inUse, usage)
  {
    ChargeSame(handles, after, lru);
    ChargeSame(handles, after, inUse);
  }

  lemma OnLists<V>(handles: map<nat, LRUHandle<V>>, lru: seq<nat>, inUse: seq<nat>)
    requires Lists(handles, lru, inUse)
    ensures NoDuplicates(lru) && NoDuplicates(inUse) && forall x | x in lru || x in inUse :: x in handles
    ensures forall x | x in handles && OnLru(handles[x]) :: x in lru
    ensures forall x | x in handles && OnInUse(handles[x]) :: x in inUse
  {
  }

  lemma RefSound<V>(
      handles: map<nat, LRUHandle<V>>, lru: seq<nat>, inUse: seq<nat>, usage: nat, held: multiset<nat>, deleted: seq<nat>, next: nat, e: nat)
    requires Sound(handles, lru, inUse, usage, held, deleted, next) && e in handles
    ensures var h := handles[e];
      Sound(handles[e := h.(refs := h.refs + 1)], if OnLru(h) then Without(lru, e) else lru, if OnLru(h) then inUse + [e] else inUse, usage,
        held + multiset{e}, deleted, next)
  {
    hide Lists, NoDuplicates;
    var h := handles[e];
    var after := handles[e := h.(refs := h.refs + 1)];
    RefLists(handles, lru, inUse, e);
    OnLists(handles, lru, inUse);
    if OnLru(h) {
      MoveBalanced(handles, lru, inUse, e, after);
    } else {
      StayBalanced(handles, lru, inUse, usage, after);
    }
  }

  lemma UnrefLists<V>(handles: map<nat, LRUHandle<V>>, lru: seq<nat>, inUse: seq<nat>, e: nat)
    requires Lists(handles, lru, inUse) && e in handles && handles[e].refs > 1
    ensures var h := handles[e];
      var moved := h.inCache && h.refs == 2;
      Lists(handles[e := h.(refs := h.refs - 1)], if moved then lru + [e] else lru, if moved then Without(inUse, e) else inUse)
  {
    WithoutHolds(inUse, e);
  }

  /** Giving a reference back, when it is not the last. */
  lemma UnrefSound<V>(
      handles: map<nat, LRUHandle<V>>, lru: seq<nat>, inUse: seq<nat>, usage: nat, held: multiset<nat>, deleted: seq<nat>, next: nat, e: nat)
    requires Sound(handles, lru, inUse, usage, held, deleted, next) && e in held && handles[e].refs > 1
    ensures var h := handles[e];
      var moved := h.inCache && h.refs == 2;
      Sound(handles[e := h.(refs := h.refs - 1)], if moved then lru + [e] else lru, if moved then Without(inUse, e) else inUse, usage,
        held - multiset{e}, deleted, next)
  {
    hide Lists, NoDuplicates;
    var h := handles[e];
    var after := handles[e := h.(refs := h.refs - 1)];
    UnrefLists(handles, lru, inUse, e);
    OnLists(handles, lru, inUse);
    if h.inCache && h.refs == 2 {
      MoveBalanced(handles, inUse, lru, e, after);
    } else {
      StayBalanced(handles, lru, inUse, usage, after);
    }
  }

  lemma DeleteLists<V>(handles: map<nat, LRUHandle<V>>, lru: seq<nat>, inUse: seq<nat>, e: nat)
    requires Lists(handles, lru, inUse) && e in handles && !handles[e].inCache
    ensures Lists(handles - {e}, lru, inUse) && e !in lru && e !in inUse
  {
  }

  /** Giving the last reference back: the handle goes to its deleter. */
  lemma DeleteSound<V>(
      handles: map<nat, LRUHandle<V>>, lru: seq<nat>, inUse: seq<nat>, usage: nat, held: multiset<nat>, deleted: seq<nat>, next: nat, e: nat)
    requires Sound(handles, lru, inUse, usage, held, deleted, next) && e in held && handles[e].refs == 1
    ensures !handles[e].inCache
    ensures Sound(handles - {e}, lru, inUse, usage, held - multiset{e}, deleted + [e], next)
  {
    hide Lists;
    DeleteLists(handles, lru, inUse, e);
    OnLists(handles, lru, inUse);
    StayBalanced(handles, lru, inUse, usage, handles - {e});
  }

  lemma LeaveLists<V>(handles: map<nat, LRUHandle<V>>, lru: seq<nat>, inUse: seq<nat>, e: nat)
    requires Lists(handles, lru, inUse) && e in handles && handles[e].inCache && handles[e].refs > 0
    ensures Lists(handles[e := handles[e].(inCache := false)], Without(lru, e), Without(inUse, e))
    ensures if e in lru then e !in inUse else e in inUse
  {
    hide Without, NoDuplicates;
    WithoutHolds(lru, e);
    WithoutHolds(inUse, e);
  }

  lemma LeaveBalanced<V>(handles: map<nat, LRUHandle<V>>, from: seq<nat>, other: seq<nat>, e: nat, after: map<nat, LRUHandle<V>>)
    requires e in from && e !in other && NoDuplicates(from) && e in handles
    requires forall x | x in from || x in other :: x in handles && x in after && handles[x].charge == after[x].charge
    ensures Charge(after, Without(from, e)) + Charge(after, Without(other, e)) + handles[e].charge == Charge(handles, from) + Charge(handles, other)
  {
    WithoutHolds(from, e);
    WithoutNothing(other, e);
    ChargeSame(handles, after, Without(from, e));
    ChargeSame(handles, after, other);
    ChargeWithout(handles, from, e);
  }

  /** The cache gives up its own reference to a handle that has left the table: it now is one to be given back. */
  lemma LeaveSound<V>(
      handles: map<nat, LRUHandle<V>>, lru: seq<nat>, inUse: seq<nat>, usage: nat, held: multiset<nat>, deleted: seq<nat>, next: nat, e: nat)
    requires Sound(handles, lru, inUse, usage, held, deleted, next) && e in handles && handles[e].inCache
    ensures handles[e].charge <= usage
    ensures Sound(handles[e := handles[e].(inCache := false)], Without(lru, e), Without(inUse, e), usage - handles[e].charge,
      held + multiset{e}, deleted, next)
  {
    hide Lists, NoDuplicates;
    var after := handles[e := handles[e].(inCache := false)];
    LeaveLists(handles, lru, inUse, e);
    OnLists(handles, lru, inUse);
    if e in lru {
      LeaveBalanced(handles, lru, inUse, e, after);
    } else {
      LeaveBalanced(handles, inUse, lru, e, after);
    }
  }

  /** A new handle, with a reference for its client and, when it is cached, one for the cache. */
  lemma NewSound<V>(
      handles: map<nat, LRUHandle<V>>, lru: seq<nat>, inUse: seq<nat>, usage: nat, held: multiset<nat>, deleted: seq<nat>, next: nat,
      h: LRUHandle<V>)
    requires Sound(handles, lru, inUse, usage, held, deleted, next) && h.refs == if h.inCache then 2 else 1
    ensures Sound(handles[next := h], lru, if h.inCache then inUse + [next] else inUse, if h.inCache then usage + h.charge else usage,
      held + multiset{next}, deleted, next + 1)
  {
    var after := handles[next := h];
    assert next !in handles && next !in deleted;
    ChargeSame(handles, after, inUse);
    ChargeSame(handles, after, lru);
    if h.inCache {
      ChargeAppend(after, inUse, next);
    }
  }

  lemma {:induction false} WithoutFirst(s: seq<nat>)
    requires s != []
    ensures Without(s, s[0]) == s[1..]
  {
  }

  class LRUCache<V> {
    const table: HandleTable
    var capacity: nat
    var usage: nat
    var handles: map<nat, LRUHandle<V>>
    var lru: seq<nat>
    var inUse: seq<nat>
    var next: nat
    // The references that clients hold, and the handles passed to their deleters.
    ghost var held: multiset<nat>
    ghost var deleted: seq<nat>

    constructor (hashOf: Bytes -> Word, capacity: nat)
      ensures Valid() && handles == map[] && held == multiset{} && deleted == [] && usage == 0 && this.capacity == capacity
      ensures fresh(table) && table.hashOf == hashOf
    {
      table := new HandleTable(hashOf);
      this.capacity, usage, handles, lru, inUse, next, held, deleted := capacity, 0, map[], [], [], 0, multiset{}, [];
      NothingSound<V>();
    }

    ghost predicate Whole()
      reads this
    {
      Sound(handles, lru, inUse, usage, held, deleted, next)
    }

    ghost predicate Hashed()
      reads this, table
    {
      table.Valid() && AllHashed(table.hashOf, handles)
    }

    ghost predicate Valid()
      reads this, table
    {
      Whole() && Hashed() && Tabled(handles, table.slots, None)
    }

    /** Takes a reference for a client. */
    method Ref(e: nat)
      requires Whole() && e in handles
      modifies this`handles, this`lru, this`inUse, this`held
      ensures Whole() && held == old(held) + multiset{e}
      ensures handles == old(handles)[e := old(handles)[e].(refs := old(handles)[e].refs + 1)]
      ensures if OnLru(old(handles)[e]) then lru == Without(old(lru), e) else lru == old(lru)
    {
      hide Sound;
      RefSound(handles, lru, inUse, usage, held, deleted, next, e);
      var h := handles[e];
      if h.refs == 1 && h.inCache {
        lru := Without(lru, e);
        inUse := inUse + [e];
      }
      handles := handles[e := h.(refs := h.refs + 1)];
      held := held + multiset{e};
    }

    /** Gives a reference back; the last one passes the handle to its deleter. */
    method Unref(e: nat)
      requires Whole() && e in held && e in handles
      modifies this`handles, this`lru, this`inUse, this`held, this`deleted
      ensures Whole() && held == old(held) - multiset{e}
      ensures var h := old(handles)[e];
        if h.refs == 1 then !h.inCache && handles == old(handles) - {e} && deleted == old(deleted) + [e] && lru == old(lru)
        else
          && handles == old(handles)[e := h.(refs := h.refs - 1)] && deleted == old(deleted)
          && lru == if h.inCache && h.refs == 2 then old(lru) + [e] else old(lru)
    {
      hide Sound;
      var h := handles[e];
      HasReference(handles, lru, inUse, usage, held, deleted, next, e);
      if h.refs - 1 == 0 {
        DeleteSound(handles, lru, inUse, usage, held, deleted, next, e);
        deleted := deleted + [e];
        handles := handles - {e};
      } else {
        UnrefSound(handles, lru, inUse, usage, held, deleted, next, e);
        handles := handles[e := h.(refs := h.refs - 1)];
        if h.inCache && h.refs - 1 == 1 {
          inUse := Without(inUse, e);
          lru := lru + [e];
        }
      }
      held := held - multiset{e};
    }

    /** Ends the caching of a handle that has left the table. */
    method FinishErase(e: Option<nat>) returns (erased: bool)
      requires Whole() && (e.Some? ==> e.value in handles && handles[e.value].inCache)
      modifies this`handles, this`lru, this`inUse, this`held, this`deleted, this`usage
      ensures Whole() && held == old(held) && erased == e.Some?
      ensures e == None ==> handles == old(handles) && lru == old(lru) && usage == old(usage) && deleted == old(deleted)
      ensures e.Some? ==> lru == Without(old(lru), e.value) && Left(old(handles), handles, e.value)
      ensures e.Some? ==> deleted == old(deleted) + if old(handles)[e.value].refs == 1 then [e.value] else []
      ensures e.Some? ==> usage == old(usage) - old(handles)[e.value].charge
    {
      hide Sound;
      if e.Some? {
        LeaveSound(handles, lru, inUse, usage, held, deleted, next, e.value);
        lru := Without(lru, e.value);
        inUse := Without(inUse, e.value);
        var h := handles[e.value].(inCache := false);
        handles := handles[e.value := h];
        usage := usage - h.charge;
        held := held + multiset{e.value};
        Unref(e.value);
        assert held == old(held);
      }
      erased := e.Some?;
    }

    method Lookup(key: Bytes, hash: Word) returns (r: Option<nat>)
      requires Valid() && hash == table.hashOf(key)
      modifies this`handles, this`lru, this`inUse, this`held
      ensures Valid() && (r.Some? <==> key in table.slots) && (r.Some? ==> r.value == table.slots[key].handle)
      ensures r.Some? ==> r.value in handles && handles[r.value].key == key && held == old(held) + multiset{r.value}
      ensures r == None ==> held == old(held) && handles == old(handles) && lru == old(lru)
      ensures r.Some? ==> handles == old(handles)[r.value := old(handles)[r.value].(refs := old(handles)[r.value].refs + 1)]
      ensures r.Some? ==> lru == if OnLru(old(handles)[r.value]) then Without(old(lru), r.value) else old(lru)
    {
      hide Sound, HandleTable.Valid;
      r := table.Lookup(key, hash);
      if r.Some? {
        Ref(r.value);
      }
    }

    /** A client gives back what it holds. */
    method Release(handle: nat)
      requires Valid() && handle in held && handle in handles
      modifies this`handles, this`lru, this`inUse, this`held, this`deleted
      ensures Valid() && held == old(held) - multiset{handle}
      ensures var h := old(handles)[handle];
        if h.refs == 1 then handles == old(handles) - {handle} && deleted == old(deleted) + [handle] && lru == old(lru)
        else
          && handles == old(handles)[handle := h.(refs := h.refs - 1)] && deleted == old(deleted)
          && lru == if h.inCache && h.refs == 2 then old(lru) + [handle] else old(lru)
    {
      hide Sound, HandleTable.Valid;
      HasReference(handles, lru, inUse, usage, held, deleted, next, handle);
      Unref(handle);
    }

    method Erase(key: Bytes, hash: Word)
      requires Valid() && hash == table.hashOf(key)
      modifies this`handles, this`lru, this`inUse, this`held, this`deleted, this`usage, table
      ensures Valid() && held == old(held) && table.slots == old(table.slots) - {key}
      ensures key !in old(table.slots) ==> handles == old(handles) && lru == old(lru) && deleted == old(deleted)
      // Of the handles only the erased one changes: it goes to its deleter at once if no client holds it.
      ensures key in old(table.slots) ==>
        var e := old(table.slots)[key].handle;
        && lru == Without(old(lru), e) && Left(old(handles), handles, e)
        && deleted == old(deleted) + if old(handles)[e].refs == 1 then [e] else []
    {
      hide Sound, HandleTable.Valid;
      var e := table.Remove(key, hash);
      var _ := FinishErase(e);
      if e == None {
        assert table.slots == old(table.slots);
      }
    }

    /** Evicts the handle that has been unused for longest. */
    method EvictOldest()
      requires Valid() && lru != []
      modifies this`handles, this`lru, this`inUse, this`held, this`deleted, this`usage, table
      ensures Valid() && held == old(held) && lru == old(lru)[1..]
      ensures old(lru)[0] in old(handles) && table.slots == old(table.slots) - {old(handles)[old(lru)[0]].key}
      ensures deleted == old(deleted) + [old(lru)[0]] && usage == old(usage) - old(handles)[old(lru)[0]].charge
      ensures old(handles)[old(lru)[0]].key in old(table.slots) && old(table.slots)[old(handles)[old(lru)[0]].key].handle == old(lru)[0]
      ensures forall x :: x in handles <==> x in old(handles) && x != old(lru)[0]
      ensures forall x | x in handles :: handles[x] == old(handles)[x]
    {
      hide Sound, HandleTable.Valid, Without;
      OldestIs(handles, lru, inUse, usage, held, deleted, next);
      WithoutFirst(lru);
      var old' := lru[0];
      var h := handles[old'];
      var e := table.Remove(h.key, h.hash);
      var _ := FinishErase(e);
    }

    /** Evicts all that no client uses. */
    method Prune()
      requires Valid()
      modifies this`handles, this`lru, this`inUse, this`held, this`deleted, this`usage, table
      ensures Valid() && held == old(held) && lru == [] && deleted == old(deleted) + old(lru)
      ensures forall x :: x in handles <==> x in old(handles) && x !in old(lru)
      ensures forall x | x in handles :: handles[x] == old(handles)[x]
    {
      hide Sound, HandleTable.Valid;
      ghost var n := 0;
      while lru != []
        invariant Valid() && held == old(held)
        invariant 0 <= n <= |old(lru)| && lru == old(lru)[n..] && deleted == old(deleted) + old(lru)[..n]
        invariant forall x :: x in handles <==> x in old(handles) && x !in old(lru)[..n]
        invariant forall x | x in handles :: handles[x] == old(handles)[x]
        decreases |lru|
      {
        EvictOldest();
        assert old(lru)[..n + 1] == old(lru)[..n] + [old(lru)[n]];
        n := n + 1;
      }
      assert old(lru)[..n] == old(lru);
    }

    /** A new handle, cached if there is a capacity. It takes the place of another for its key, and then the
        oldest unused ones are evicted, as many as it takes for what is cached to fit and no more. */
    method Insert(key: Bytes, hash: Word, value: V, charge: nat) returns (e: nat, ghost n: nat)
      requires Valid() && hash == table.hashOf(key)
      modifies this, table
      ensures Valid() && e == old(next) && held == old(held) + multiset{e} && capacity == old(capacity) && next == old(next) + 1
      ensures e in handles && handles[e] == LRUHandle(key, hash, value, charge, capacity > 0, if capacity > 0 then 2 else 1)
      ensures var replaced := Replaced(old(table.slots), capacity, key);
        var rest := Kept(old(lru), replaced);
        var entered := EnteredUsage(old(handles), old(usage), replaced, capacity, charge);
        && n <= |rest| && lru == rest[n..]
        && deleted == old(deleted) + (if replaced.Some? && old(handles)[replaced.value].refs == 1 then [replaced.value] else []) + rest[..n]
        // No more are evicted than it takes.
        && usage == entered - Charge(old(handles), rest[..n]) && (usage <= capacity || lru == [])
        && (forall m | 0 <= m < n :: entered - Charge(old(handles), rest[..m]) > capacity)
        // All else stays as it was.
        && (forall x | x in old(handles) && Some(x) != replaced :: x in handles <==> x !in rest[..n])
        && (forall x | x in old(handles) && x in handles && Some(x) != replaced :: handles[x] == old(handles)[x])
        && (forall k | capacity == 0 || k != key :: k in table.slots <==> k in old(table.slots) && old(table.slots)[k].handle !in rest[..n])
        && (forall k | k in table.slots && (capacity == 0 || k != key) :: table.slots[k] == old(table.slots)[k])
        && (capacity > 0 ==> key in table.slots && table.slots[key] == Slot(e, key, hash))
    {
      hide Sound, HandleTable.Valid, Charge, Replaced, Kept, EnteredUsage, Entered, Evicted, Tabled, Left, NoDuplicates;
      LruKnown(handles, lru, inUse, usage, held, deleted, next);
      e := AddNew(key, hash, value, charge);
      n := 0;
      ghost var replaced := Replaced(old(table.slots), capacity, key);
      ghost var rest, there, slots, gone, entered := lru, handles, table.slots, deleted, usage;
      EvictedNone(there, slots, rest);
      while usage > capacity && lru != []
        invariant Valid() && held == old(held) + multiset{e} && capacity == old(capacity) && next == old(next) + 1
        invariant n <= |rest| && lru == rest[n..] && deleted == gone + rest[..n] && Evicted(there, slots, handles, table.slots, rest, n)
        invariant usage == entered - Charge(there, rest[..n])
        invariant forall m | 0 <= m < n :: entered - Charge(there, rest[..m]) > capacity
        invariant e in handles && handles[e] == LRUHandle(key, hash, value, charge, capacity > 0, if capacity > 0 then 2 else 1)
        decreases |lru|
      {
        HeldNotOldest(handles, lru, inUse, usage, held, deleted, next, e);
        ghost var before, mapped := handles, table.slots;
        EvictOldest();
        EvictedMore(there, slots, before, mapped, handles, table.slots, rest, n);
        n := n + 1;
      }
      EvictedOld(old(handles), old(table.slots), old(lru), old(usage), capacity, e, key, hash, charge, there, slots, rest, entered, handles, table.slots, n);
    }

    /** The handle itself, which is in use and counts if it is cached. */
    method NewHandle(h: LRUHandle<V>) returns (e: nat)
      requires Whole() && h.refs == if h.inCache then 2 else 1
      modifies this`handles, this`next, this`held, this`inUse, this`usage
      ensures Whole() && e == old(next) && e !in old(handles) && handles == old(handles)[e := h] && held == old(held) + multiset{e}
      ensures next == old(next) + 1 && usage == old(usage) + if h.inCache then h.charge else 0
    {
      hide Sound;
      e := next;
      NewSound(handles, lru, inUse, usage, held, deleted, next, h);
      FreshAddress(handles, lru, inUse, usage, held, deleted, next);
      handles := handles[e := h];
      next := next + 1;
      held := held + multiset{e};
      if h.inCache {
        inUse := inUse + [e];
        usage := usage + h.charge;
      }
    }

    /** The part of Insert that makes the handle and enters it, in the place of another for the key. */
    method AddNew(key: Bytes, hash: Word, value: V, charge: nat) returns (e: nat)
      requires Valid() && hash == table.hashOf(key)
      modifies this, table
      ensures Valid() && e == old(next) && held == old(held) + multiset{e} && capacity == old(capacity) && next == old(next) + 1
      ensures e in handles && handles[e] == LRUHandle(key, hash, value, charge, capacity > 0, if capacity > 0 then 2 else 1)
      ensures e !in old(handles)
      ensures table.slots == if capacity > 0 then old(table.slots)[key := Slot(e, key, hash)] else old(table.slots)
      ensures var replaced := Replaced(old(table.slots), capacity, key);
        && lru == Kept(old(lru), replaced) && Entered(old(handles), handles, e, replaced)
        && usage == EnteredUsage(old(handles), old(usage), replaced, capacity, charge)
        && deleted == old(deleted) + if replaced.Some? && old(handles)[replaced.value].refs == 1 then [replaced.value] else []
    {
      hide Sound, HandleTable.Valid, Without, Tabled, AllHashed, Left, Entered;
      var h := LRUHandle(key, hash, value, charge, capacity > 0, if capacity > 0 then 2 else 1);
      e := NewHandle(h);
      TabledPut(old(handles), old(table.slots), e, h);
      HashedPut(table.hashOf, old(handles), e, h);
      if capacity > 0 {
        var replaced := table.Insert(Slot(e, key, hash));
        ghost var before := handles;
        var _ := FinishErase(replaced);
        TabledLeft(before, handles, table.slots, replaced);
        HashedLeft(table.hashOf, before, handles, replaced, e);
      }
      EnteredAs(old(handles), old(table.slots), capacity, key, e, h, handles);
    }
  }

  /** A new handle enters the table, and the one it replaces leaves. */
  lemma TabledPut<V>(handles: map<nat, LRUHandle<V>>, slots: map<Bytes, Slot>, e: nat, h: LRUHandle<V>)
    requires Tabled(handles, slots, None) && e !in handles
    ensures !h.inCache ==> Tabled(handles[e := h], slots, None)
    ensures h.inCache ==>
      Tabled(handles[e := h], slots[h.key := Slot(e, h.key, h.hash)], if h.key in slots then Some(slots[h.key].handle) else None)
    ensures h.key in slots ==> slots[h.key].handle in handles && handles[slots[h.key].handle].inCache && slots[h.key].handle != e
  {
  }

  /** Once the leaving handle is no longer cached the table is exact. */
  lemma TabledLeft<V>(handles: map<nat, LRUHandle<V>>, after: map<nat, LRUHandle<V>>, slots: map<Bytes, Slot>, leaving: Option<nat>)
    requires Tabled(handles, slots, leaving)
    requires if leaving == None then after == handles else Left(handles, after, leaving.value)
    ensures Tabled(after, slots, None)
  {
  }

  /** The handle that a new one for the key takes the place of. */
  ghost function Replaced(slots: map<Bytes, Slot>, capacity: nat, key: Bytes): Option<nat> {
    if capacity > 0 && key in slots then Some(slots[key].handle) else None
  }

  /** The list without it. */
  ghost function Kept(lru: seq<nat>, replaced: Option<nat>): seq<nat> {
    if replaced.Some? then Without(lru, replaced.value) else lru
  }

  /** What is in use once a new handle has been entered. */
  ghost function EnteredUsage<V>(handles: map<nat, LRUHandle<V>>, usage: nat, replaced: Option<nat>, capacity: nat, charge: nat): int {
    usage + (if capacity > 0 then charge else 0)
    - if replaced.Some? && replaced.value in handles then handles[replaced.value].charge else 0
  }

  /** What entering a new handle does to the others. */
  ghost predicate Entered<V>(before: map<nat, LRUHandle<V>>, after: map<nat, LRUHandle<V>>, e: nat, replaced: Option<nat>) {
    && (replaced.Some? ==> replaced.value in before)
    && (forall x | x != e && Some(x) != replaced :: x in after <==> x in before)
    && (forall x | x in after && x != e && Some(x) != replaced :: after[x] == before[x])
  }

  /** The first `n` of `rest` are gone, and nothing else is. */
  ghost predicate Evicted<V>(
      before: map<nat, LRUHandle<V>>, slots: map<Bytes, Slot>, after: map<nat, LRUHandle<V>>, slots': map<Bytes, Slot>, rest: seq<nat>, n: nat) {
    && n <= |rest|
    && (forall x :: x in after <==> x in before && x !in rest[..n]) && (forall x | x in after :: after[x] == before[x])
    && (forall k :: k in slots' <==> k in slots && slots[k].handle !in rest[..n]) && (forall k | k in slots' :: slots'[k] == slots[k])
  }

  lemma EvictedNone<V>(handles: map<nat, LRUHandle<V>>, slots: map<Bytes, Slot>, rest: seq<nat>)
    ensures Evicted(handles, slots, handles, slots, rest, 0) && rest[0..] == rest && rest[..0] == [] && Charge(handles, []) == 0
  {
  }

  lemma EvictedMore<V>(
      there: map<nat, LRUHandle<V>>, slots: map<Bytes, Slot>, before: map<nat, LRUHandle<V>>, mapped: map<Bytes, Slot>,
      after: map<nat, LRUHandle<V>>, slots': map<Bytes, Slot>, rest: seq<nat>, n: nat)
    requires n < |rest| && Evicted(there, slots, before, mapped, rest, n) && Tabled(before, mapped, None)
    requires rest[n] in before && slots' == mapped - {before[rest[n]].key}
    requires before[rest[n]].key in mapped && mapped[before[rest[n]].key].handle == rest[n]
    requires (forall x :: x in after <==> x in before && x != rest[n]) && (forall x | x in after :: after[x] == before[x])
    ensures Evicted(there, slots, after, slots', rest, n + 1) && rest[n..][0] == rest[n] && rest[n..][1..] == rest[n + 1..]
    ensures rest[..n + 1] == rest[..n] + [rest[n]] && Charge(there, rest[..n + 1]) == Charge(there, rest[..n]) + before[rest[n]].charge
  {
    ChargeAppend(there, rest[..n], rest[n]);
    assert rest[..n + 1] == rest[..n] + [rest[n]];
    assert forall x :: x in rest[..n + 1] <==> x in rest[..n] || x == rest[n];
  }

  /** Evictions after a handle was entered, as seen from before. */
  lemma EvictedOld<V>(
      old': map<nat, LRUHandle<V>>, oldSlots: map<Bytes, Slot>, oldLru: seq<nat>, oldUsage: nat, capacity: nat, e: nat, key: Bytes, hash: Word,
      charge: nat, there: map<nat, LRUHandle<V>>, slots: map<Bytes, Slot>, rest: seq<nat>, entered: nat, after: map<nat, LRUHandle<V>>,
      slots': map<Bytes, Slot>, n: nat)
    requires var replaced := Replaced(oldSlots, capacity, key);
      && rest == Kept(oldLru, replaced) && Entered(old', there, e, replaced) && e !in old'
      && slots == if capacity > 0 then oldSlots[key := Slot(e, key, hash)] else oldSlots
    requires NoDuplicates(oldLru) && forall x | x in oldLru :: x in old'
    requires Evicted(there, slots, after, slots', rest, n) && e in after && e in there
    ensures var replaced := Replaced(oldSlots, capacity, key);
      && (forall m | 0 <= m <= n :: Charge(old', rest[..m]) == Charge(there, rest[..m]))
      && (forall x | x in old' && Some(x) != replaced :: x in after <==> x !in rest[..n])
      && (forall x | x in old' && x in after && Some(x) != replaced :: after[x] == old'[x])
      && (forall k | capacity == 0 || k != key :: k in slots' <==> k in oldSlots && oldSlots[k].handle !in rest[..n])
      && (forall k | k in slots' && (capacity == 0 || k != key) :: slots'[k] == oldSlots[k])
      && (capacity > 0 ==> key in slots' && slots'[key] == Slot(e, key, hash))
  {
    hide Charge, Without, NoDuplicates;
    var replaced := Replaced(oldSlots, capacity, key);
    if replaced.Some? {
      WithoutHolds(oldLru, replaced.value);
    }
    assert forall x | x in rest :: x in old' && x != e && Some(x) != replaced;
    forall m | 0 <= m <= n ensures Charge(old', rest[..m]) == Charge(there, rest[..m]) {
      ChargeSame(old', there, rest[..m]);
    }
  }

  lemma LruKnown<V>(
      handles: map<nat, LRUHandle<V>>, lru: seq<nat>, inUse: seq<nat>, usage: nat, held: multiset<nat>, deleted: seq<nat>, next: nat)
    requires Sound(handles, lru, inUse, usage, held, deleted, next)
    ensures NoDuplicates(lru) && forall x | x in lru :: x in handles
  {
  }

  /** Entering a handle, seen from before, when it replaces none and when it does. */
  lemma EnteredAs<V>(
      old': map<nat, LRUHandle<V>>, slots: map<Bytes, Slot>, capacity: nat, key: Bytes, e: nat, h: LRUHandle<V>, after: map<nat, LRUHandle<V>>)
    requires e !in old' && (key in slots ==> slots[key].handle in old')
    requires var replaced := Replaced(slots, capacity, key);
      if replaced.Some? then Left(old'[e := h], after, replaced.value) else after == old'[e := h]
    ensures Entered(old', after, e, Replaced(slots, capacity, key)) && e in after && after[e] == h
  {
  }

  lemma HeldNotOldest<V>(
      handles: map<nat, LRUHandle<V>>, lru: seq<nat>, inUse: seq<nat>, usage: nat, held: multiset<nat>, deleted: seq<nat>, next: nat, e: nat)
    requires Sound(handles, lru, inUse, usage, held, deleted, next) && lru != [] && e in held
    ensures e != lru[0]
  {
    assert lru[0] in lru;
  }

  /** What ending the caching of a handle does to the handles. */
  ghost predicate Left<V>(before: map<nat, LRUHandle<V>>, after: map<nat, LRUHandle<V>>, e: nat) {
    && e in before
    && (forall x | x != e :: x in after <==> x in before)
    && (forall x | x in after && x != e :: after[x] == before[x])
    && (if before[e].refs <= 1 then e !in after else e in after && after[e] == before[e].(inCache := false, refs := before[e].refs - 1))
  }

  ghost predicate AllHashed<V>(hashOf: Bytes -> Word, handles: map<nat, LRUHandle<V>>) {
    forall x | x in handles :: handles[x].hash == hashOf(handles[x].key)
  }

  lemma HashedPut<V>(hashOf: Bytes -> Word, handles: map<nat, LRUHandle<V>>, e: nat, h: LRUHandle<V>)
    requires AllHashed(hashOf, handles) && h.hash == hashOf(h.key)
    ensures AllHashed(hashOf, handles[e := h])
  {
  }

  lemma HashedLeft<V>(hashOf: Bytes -> Word, handles: map<nat, LRUHandle<V>>, after: map<nat, LRUHandle<V>>, leaving: Option<nat>, e: nat)
    requires AllHashed(hashOf, handles) && if leaving == None then after == handles else Left(handles, after, leaving.value)
    ensures AllHashed(hashOf, after)
    ensures e in handles && leaving != Some(e) ==> e in after && after[e] == handles[e]
  {
  }

  lemma NothingSound<V>()
    ensures Sound<V>(map[], [], [], 0, multiset{}, [], 0)
  {
    assert Charge<V>(map[], []) == 0;
  }

  lemma OldestIs<V>(
      handles: map<nat, LRUHandle<V>>, lru: seq<nat>, inUse: seq<nat>, usage: nat, held: multiset<nat>, deleted: seq<nat>, next: nat)
    requires Sound(handles, lru, inUse, usage, held, deleted, next) && lru != []
    ensures lru[0] in handles && handles[lru[0]].inCache && handles[lru[0]].refs == 1
  {
    assert lru[0] in lru;
  }

  lemma FreshAddress<V>(
      handles: map<nat, LRUHandle<V>>, lru: seq<nat>, inUse: seq<nat>, usage: nat, held: multiset<nat>, deleted: seq<nat>, next: nat)
    requires Sound(handles, lru, inUse, usage, held, deleted, next)
    ensures next !in handles
  {
  }

  lemma HasReference<V>(
      handles: map<nat, LRUHandle<V>>, lru: seq<nat>, inUse: seq<nat>, usage: nat, held: multiset<nat>, deleted: seq<nat>, next: nat, e: nat)
    requires Sound(handles, lru, inUse, usage, held, deleted, next) && e in handles
    ensures handles[e].refs > 0
  {
  }
}
