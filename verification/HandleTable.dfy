/** The hash table of the cache (util/cache.cc, HandleTable). A handle is known by its address; a chain is the
    sequence of its handles. The hash of a key is a function of it. */
module HandleTables {
  import opened Keys
  import opened Coding

  /** A handle in a chain, with its key and the key's hash. */
  datatype Slot = Slot(handle: nat, key: Bytes, hash: Word)

  /** The chains hold exactly the slots of `m`, each in the chain of its hash. */
  ghost predicate Maps(hashOf: Bytes -> Word, list: seq<seq<Slot>>, m: map<Bytes, Slot>)
    ensures Maps(hashOf, list, m) ==> |list| > 0
  {
    && |list| > 0
    && (forall k | k in m :: m[k].key == k && m[k].hash == hashOf(k) && m[k] in list[hashOf(k) % |list|])
    && (forall b | 0 <= b < |list| :: Chain(hashOf, list, b, m))
  }

  /** A chain has the slots of its remainder, no key twice. */
  ghost predicate Chain(hashOf: Bytes -> Word, list: seq<seq<Slot>>, b: nat, m: map<Bytes, Slot>)
    requires b < |list|
  {
    && (forall p | 0 <= p < |list[b]| :: list[b][p].key in m && m[list[b][p].key] == list[b][p] && hashOf(list[b][p].key) % |list| == b)
    && (forall p, q | 0 <= p < q < |list[b]| :: list[b][p].key != list[b][q].key)
  }

  ghost predicate IsPowerOfTwo(n: nat) {
    n == 1 || (n > 1 && n % 2 == 0 && IsPowerOfTwo(n / 2))
  }

  lemma EmptyMaps(hashOf: Bytes -> Word, n: nat)
    requires n > 0
    ensures Maps(hashOf, seq(n, i => []), map[])
  {
  }

  /** A slot put at the end of its chain, or in the place of the one with its key. */
  lemma PutMaps(hashOf: Bytes -> Word, list: seq<seq<Slot>>, m: map<Bytes, Slot>, s: Slot, p: nat)
    requires Maps(hashOf, list, m) && s.hash == hashOf(s.key)
    requires var b := s.hash % |list|;
      p <= |list[b]| && (p < |list[b]| ==> list[b][p].key == s.key) && (p == |list[b]| ==> s.key !in m)
    ensures var b := s.hash % |list|;
      Maps(hashOf, list[b := if p == |list[b]| then list[b] + [s] else list[b][p := s]], m[s.key := s])
  {
    var b := s.hash % |list|;
    var chain := if p == |list[b]| then list[b] + [s] else list[b][p := s];
    var next, more := list[b := chain], m[s.key := s];
    assert Chain(hashOf, list, b, m);
    assert chain[p] == s;
    forall c | 0 <= c < |next| ensures Chain(hashOf, next, c, more) {
      assert Chain(hashOf, list, c, m);
      if c == b {
        forall q | 0 <= q < |chain| ensures chain[q].key in more && more[chain[q].key] == chain[q] && hashOf(chain[q].key) % |list| == b {
        }
      }
    }
    forall k | k in more ensures more[k] in next[hashOf(k) % |next|] {
      if k != s.key && hashOf(k) % |list| == b {
        var q :| 0 <= q < |list[b]| && list[b][q] == m[k];
        assert chain[q] == m[k];
      }
    }
  }

  /** A new slot put at the front of its chain. */
  lemma PushMaps(hashOf: Bytes -> Word, list: seq<seq<Slot>>, m: map<Bytes, Slot>, s: Slot)
    requires Maps(hashOf, list, m) && s.hash == hashOf(s.key) && s.key !in m
    ensures var b := s.hash % |list|; Maps(hashOf, list[b := [s] + list[b]], m[s.key := s])
  {
    var b := s.hash % |list|;
    var chain := [s] + list[b];
    var next, more := list[b := chain], m[s.key := s];
    assert Chain(hashOf, list, b, m);
    assert chain[0] == s;
    forall c | 0 <= c < |next| ensures Chain(hashOf, next, c, more) {
      assert Chain(hashOf, list, c, m);
      if c == b {
        forall q | 0 <= q < |chain| ensures chain[q].key in more && more[chain[q].key] == chain[q] && hashOf(chain[q].key) % |list| == b {
        }
      }
    }
    forall k | k in more ensures more[k] in next[hashOf(k) % |next|] {
      if k != s.key && hashOf(k) % |list| == b {
        var q :| 0 <= q < |list[b]| && list[b][q] == m[k];
        assert chain[q + 1] == m[k];
      }
    }
  }

  /** A slot taken out of its chain. */
  lemma RemoveMaps(hashOf: Bytes -> Word, list: seq<seq<Slot>>, m: map<Bytes, Slot>, b: nat, p: nat)
    requires Maps(hashOf, list, m) && b < |list| && p < |list[b]|
    ensures Maps(hashOf, list[b := list[b][..p] + list[b][p + 1..]], m - {list[b][p].key})
  {
    var key := list[b][p].key;
    var chain := list[b][..p] + list[b][p + 1..];
    var next, less := list[b := chain], m - {key};
    assert Chain(hashOf, list, b, m);
    assert forall q | 0 <= q < |chain| :: chain[q] == list[b][if q < p then q else q + 1];
    forall c | 0 <= c < |next| ensures Chain(hashOf, next, c, less) {
      assert Chain(hashOf, list, c, m);
    }
    forall k | k in less ensures less[k] in next[hashOf(k) % |next|] {
      if hashOf(k) % |list| == b {
        var q :| 0 <= q < |list[b]| && list[b][q] == m[k];
        assert chain[if q < p then q else q - 1] == m[k];
      }
    }
  }

  class HandleTable {
    const hashOf: Bytes -> Word
    var length: nat
    var elems: nat
    var list: seq<seq<Slot>>
    // What the table maps.
    ghost var slots: map<Bytes, Slot>

    constructor (hashOf: Bytes -> Word)
      ensures Valid() && slots == map[] && this.hashOf == hashOf
    {
      this.hashOf, length, elems, slots := hashOf, 4, 0, map[];
      list := seq(4, i => []);
      EmptyMaps(hashOf, 4);
    }

    /** No more slots than chains. */
    ghost predicate Valid()
      reads this
    {
      Chained() && |slots| <= length
    }

    ghost predicate Chained()
      reads this
    {
      Maps(hashOf, list, slots) && length == |list| && IsPowerOfTwo(length) && elems == |slots|
    }

    /** The place of a key's slot in its chain, or the end of the chain. The length is a power of two, so
        that masking the hash takes its remainder. */
    method FindPointer(key: Bytes, hash: Word) returns (b: nat, p: nat)
      requires Valid() && hash == hashOf(key)
      ensures b == hash % |list| && p <= |list[b]|
      ensures p < |list[b]| ==> key in slots && list[b][p] == slots[key] && list[b][p].key == key
      ensures p == |list[b]| ==> key !in slots
    {
      b := hash % length;
      p := 0;
      assert Chain(hashOf, list, b, slots);
      while p < |list[b]| && (list[b][p].hash != hash || key != list[b][p].key)
        invariant p <= |list[b]| && forall q | 0 <= q < p :: list[b][q].key != key
      {
        assert slots[list[b][p].key] == list[b][p];
        p := p + 1;
      }
    }

    method Lookup(key: Bytes, hash: Word) returns (r: Option<nat>)
      requires Valid() && hash == hashOf(key)
      ensures r == if key in slots then Some(slots[key].handle) else None
    {
      var b, p := FindPointer(key, hash);
      r := if p < |list[b]| then Some(list[b][p].handle) else None;
    }

    method Insert(s: Slot) returns (old': Option<nat>)
      requires Valid() && s.hash == hashOf(s.key)
      modifies this
      ensures Valid() && slots == old(slots)[s.key := s]
      ensures |slots| <= old(length) ==> length == old(length)
      ensures |slots| > old(length) ==> length == 4 || length / 2 < |slots|
      ensures old' == if s.key in old(slots) then Some(old(slots)[s.key].handle) else None
    {
      hide Maps;
      var b, p := FindPointer(s.key, s.hash);
      PutMaps(hashOf, list, slots, s, p);
      old' := if p < |list[b]| then Some(list[b][p].handle) else None;
      list := list[b := if p == |list[b]| then list[b] + [s] else list[b][p := s]];
      ghost var was := slots;
      slots := slots[s.key := s];
      CountPut(was, s);
      if old' == None {
        elems := elems + 1;
        if elems > length {
          Resize();
        }
      }
    }

    method Remove(key: Bytes, hash: Word) returns (result: Option<nat>)
      requires Valid() && hash == hashOf(key)
      modifies this
      ensures Valid() && slots == old(slots) - {key}
      ensures result == if key in old(slots) then Some(old(slots)[key].handle) else None
    {
      hide Maps;
      var b, p := FindPointer(key, hash);
      result := None;
      if p < |list[b]| {
        SlotKey(key);
        RemoveMaps(hashOf, list, slots, b, p);
        result := Some(list[b][p].handle);
        list := list[b := list[b][..p] + list[b][p + 1..]];
        assert slots.Keys == (slots - {key}).Keys + {key};
        slots := slots - {key};
        elems := elems - 1;
      } else {
        assert slots - {key} == slots;
      }
    }

    lemma SlotKey(key: Bytes)
      requires Valid() && key in slots
      ensures slots[key].key == key
    {
    }

    /** Moves all slots to a table of the least power of two of chains, from 4, that is no less than the slots;
        what it maps stays. */
    method Resize()
      requires Chained()
      modifies this`list, this`length
      ensures Valid() && length >= 4 && (length == 4 || length / 2 < |slots|)
    {
      hide Maps, Chain, Moved, IsPowerOfTwo;
      MovedNone(hashOf, slots, length);
      var newLength := NewLength(elems);
      var newList: seq<seq<Slot>> := seq(newLength, i => []);
      EmptyMaps(hashOf, newLength);
      ghost var moved: map<Bytes, Slot> := map[];
      for i := 0 to length
        invariant list == old(list) && length == old(length) && Maps(hashOf, newList, moved) && |newList| == newLength
        invariant Moved(hashOf, slots, moved, length, i)
      {
        newList, moved := MoveChain(i, newList, moved);
      }
      MovedAll(hashOf, slots, moved, length);
      list, length := newList, newLength;
    }

    method MoveChain(i: nat, newList: seq<seq<Slot>>, ghost moved: map<Bytes, Slot>) returns (next: seq<seq<Slot>>, ghost all: map<Bytes, Slot>)
      requires Chained() && i < length && Maps(hashOf, newList, moved)
      requires Moved(hashOf, slots, moved, length, i)
      ensures Maps(hashOf, next, all) && |next| == |newList|
      ensures Moved(hashOf, slots, all, length, i + 1)
    {
      hide Maps, Moved, Moving, IsPowerOfTwo;
      next, all := newList, moved;
      MovingStart(hashOf, list, slots, moved, i);
      for p := 0 to |list[i]|
        invariant Maps(hashOf, next, all) && |next| == |newList| && Moving(hashOf, list, slots, all, i, p)
      {
        var h := list[i][p];
        MovingStep(hashOf, list, slots, all, i, p);
        PushMaps(hashOf, next, all, h);
        next := next[h.hash % |next| := [h] + next[h.hash % |next|]];
        all := all[h.key := h];
      }
      MovingEnd(hashOf, list, slots, all, i);
    }
  }

  /** The slots of the chains before `i` and of the first `p` in chain `i`. */
  ghost predicate Moving(hashOf: Bytes -> Word, list: seq<seq<Slot>>, slots: map<Bytes, Slot>, moved: map<Bytes, Slot>, i: nat, p: nat) {
    && i < |list| && p <= |list[i]|
    && (forall k :: k in moved <==> k in slots && (hashOf(k) % |list| < i || exists q :: 0 <= q < p && list[i][q].key == k))
    && (forall k | k in moved :: moved[k] == slots[k])
  }

  lemma MovingStart(hashOf: Bytes -> Word, list: seq<seq<Slot>>, slots: map<Bytes, Slot>, moved: map<Bytes, Slot>, i: nat)
    requires Moved(hashOf, slots, moved, |list|, i) && i < |list|
    ensures Moving(hashOf, list, slots, moved, i, 0)
  {
  }

  lemma MovingStep(hashOf: Bytes -> Word, list: seq<seq<Slot>>, slots: map<Bytes, Slot>, moved: map<Bytes, Slot>, i: nat, p: nat)
    requires Maps(hashOf, list, slots) && Moving(hashOf, list, slots, moved, i, p) && p < |list[i]|
    ensures var h := list[i][p]; h.hash == hashOf(h.key) && h.key !in moved && Moving(hashOf, list, slots, moved[h.key := h], i, p + 1)
  {
    hide Maps;
    ChainIs(hashOf, list, slots, i);
  }

  lemma MovingEnd(hashOf: Bytes -> Word, list: seq<seq<Slot>>, slots: map<Bytes, Slot>, moved: map<Bytes, Slot>, i: nat)
    requires Maps(hashOf, list, slots) && i < |list| && Moving(hashOf, list, slots, moved, i, |list[i]|)
    ensures Moved(hashOf, slots, moved, |list|, i + 1)
  {
    hide Maps;
    ChainIs(hashOf, list, slots, i);
  }

  lemma ChainIs(hashOf: Bytes -> Word, list: seq<seq<Slot>>, m: map<Bytes, Slot>, b: nat)
    requires Maps(hashOf, list, m) && b < |list|
    ensures Chain(hashOf, list, b, m)
    ensures forall p | 0 <= p < |list[b]| :: list[b][p].hash == hashOf(list[b][p].key)
    ensures forall k | k in m && hashOf(k) % |list| == b :: exists p :: 0 <= p < |list[b]| && list[b][p].key == k
  {
  }

  lemma CountPut(m: map<Bytes, Slot>, s: Slot)
    ensures |m[s.key := s]| == |m| + if s.key in m then 0 else 1
  {
    assert m[s.key := s].Keys == m.Keys + {s.key};
    assert |m[s.key := s]| == |m[s.key := s].Keys| && |m| == |m.Keys|;
  }

  /** The slots of the first `n` of `length` chains. */
  ghost predicate Moved(hashOf: Bytes -> Word, slots: map<Bytes, Slot>, moved: map<Bytes, Slot>, length: nat, n: nat) {
    && length > 0
    && (forall k :: k in moved <==> k in slots && hashOf(k) % length < n)
    && (forall k | k in moved :: moved[k] == slots[k])
  }

  lemma MovedNone(hashOf: Bytes -> Word, slots: map<Bytes, Slot>, length: nat)
    requires length > 0
    ensures Moved(hashOf, slots, map[], length, 0)
  {
  }

  lemma MovedAll(hashOf: Bytes -> Word, slots: map<Bytes, Slot>, moved: map<Bytes, Slot>, length: nat)
    requires Moved(hashOf, slots, moved, length, length)
    ensures moved == slots
  {
  }

  lemma Fours()
    ensures IsPowerOfTwo(4)
  {
  }

  lemma Doubled(n: nat)
    requires n >= 1 && IsPowerOfTwo(n)
    ensures IsPowerOfTwo(n * 2) && n * 2 / 2 == n
  {
  }

  method NewLength(elems: nat) returns (n: nat)
    ensures n >= 4 && n >= elems && IsPowerOfTwo(n) && (n == 4 || n / 2 < elems)
  {
    hide IsPowerOfTwo;
    Fours();
    n := 4;
    while n < elems
      invariant n >= 4 && IsPowerOfTwo(n) && (n == 4 || n / 2 < elems)
    {
      Doubled(n);
      n := n * 2;
    }
  }
}
