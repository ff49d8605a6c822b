/** Where a compaction cuts its outputs (db/version_set.cc, Compaction::ShouldStopBefore; db/db_impl.cc:936-1004). */
module OutputCuts {
  import opened Keys
  import opened Tables
  import opened VersionOps

  /** From `i` on, past the grandparents that end before a key. */
  function Advance<K(==), V>(lt: (K, K) -> bool, grandparents: seq<File<K, V>>, i: nat, key: InternalKey<K>): (r: nat)
    requires i <= |grandparents|
    ensures i <= r <= |grandparents|
    decreases |grandparents| - i
  {
    if i < |grandparents| && InternalLess(lt, grandparents[i].largest, key) then Advance(lt, grandparents, i + 1, key) else i
  }

  /** The grandparents passed after some keys were asked about. */
  function GrandParentIndex<K(==), V>(lt: (K, K) -> bool, grandparents: seq<File<K, V>>, keys: seq<InternalKey<K>>): (r: nat)
    ensures r <= |grandparents|
  {
    if keys == [] then 0
    else Advance(lt, grandparents, GrandParentIndex(lt, grandparents, keys[..|keys| - 1]), keys[|keys| - 1])
  }

  lemma IndexGrows<K(!new), V(!new)>(lt: (K, K) -> bool, grandparents: seq<File<K, V>>, keys: seq<InternalKey<K>>)
    requires keys != []
    ensures GrandParentIndex(lt, grandparents, keys[..|keys| - 1]) <= GrandParentIndex(lt, grandparents, keys)
  {
  }

  /** The bytes of those passed since an output was last to stop, before it is decided whether this one is. */
  function GrownBytes<K(==, !new), V(!new)>(lt: (K, K) -> bool, grandparents: seq<File<K, V>>, maxOverlap: nat, keys: seq<InternalKey<K>>): nat
    requires keys != []
    decreases |keys|, 0
  {
    IndexGrows(lt, grandparents, keys);
    var init := keys[..|keys| - 1];
    var i, j := GrandParentIndex(lt, grandparents, init), GrandParentIndex(lt, grandparents, keys);
    OverlappedBytes(lt, grandparents, maxOverlap, init) + if init == [] then 0 else TotalFileSize(grandparents[i..j])
  }

  function OverlappedBytes<K(==, !new), V(!new)>(lt: (K, K) -> bool, grandparents: seq<File<K, V>>, maxOverlap: nat, keys: seq<InternalKey<K>>): nat
    decreases |keys|, 1
  {
    if keys == [] || GrownBytes(lt, grandparents, maxOverlap, keys) > maxOverlap then 0 else GrownBytes(lt, grandparents, maxOverlap, keys)
  }

  /** Whether the last key is one to stop before. */
  predicate Stops<K(==, !new), V(!new)>(lt: (K, K) -> bool, grandparents: seq<File<K, V>>, maxOverlap: nat, keys: seq<InternalKey<K>>) {
    keys != [] && GrownBytes(lt, grandparents, maxOverlap, keys) > maxOverlap
  }

  function KeysOf<K(==), V>(es: seq<Entry<K, V>>): (r: seq<InternalKey<K>>)
    ensures |r| == |es| && forall i | 0 <= i < |es| :: r[i] == es[i].key
  {
    seq(|es|, i requires 0 <= i < |es| => es[i].key)
  }

  /** Before which of some merged entries an output is to stop. */
  function StopsOf<K(==, !new), V(!new)>(lt: (K, K) -> bool, grandparents: seq<File<K, V>>, maxOverlap: nat, es: seq<Entry<K, V>>): (r: seq<bool>)
    ensures |r| == |es|
  {
    seq(|es|, i requires 0 <= i < |es| => Stops(lt, grandparents, maxOverlap, KeysOf(es)[..i + 1]))
  }

  lemma NextKey<K(!new), V(!new)>(lt: (K, K) -> bool, grandparents: seq<File<K, V>>, maxOverlap: nat, es: seq<Entry<K, V>>, i: nat)
    requires i < |es|
    ensures KeysOf(es)[..i + 1] == KeysOf(es)[..i] + [es[i].key]
    ensures StopsOf(lt, grandparents, maxOverlap, es)[i] == Stops(lt, grandparents, maxOverlap, KeysOf(es)[..i + 1])
  {
  }

  /** What the sweep over the grandparents has counted after some keys. */
  ghost predicate Swept<K(!new), V(!new)>(
      lt: (K, K) -> bool, grandparents: seq<File<K, V>>, maxOverlap: nat, keys: seq<InternalKey<K>>, index: nat, seen: bool, bytes: nat) {
    && index == GrandParentIndex(lt, grandparents, keys) && seen == (keys != [])
    && bytes == OverlappedBytes(lt, grandparents, maxOverlap, keys)
  }

  lemma SweptMeans<K(!new), V(!new)>(
      lt: (K, K) -> bool, grandparents: seq<File<K, V>>, maxOverlap: nat, keys: seq<InternalKey<K>>, index: nat, seen: bool, bytes: nat)
    requires Swept(lt, grandparents, maxOverlap, keys, index, seen, bytes)
    ensures index <= |grandparents|
  {
  }

  /** One step of the sweep, or its end. */
  lemma OnePassed<K(!new), V(!new)>(lt: (K, K) -> bool, grandparents: seq<File<K, V>>, start: nat, i: nat, key: InternalKey<K>)
    requires start <= i <= |grandparents|
    ensures if i < |grandparents| && InternalLess(lt, grandparents[i].largest, key) then
        && Advance(lt, grandparents, i, key) == Advance(lt, grandparents, i + 1, key)
        && TotalFileSize(grandparents[start..i + 1]) == TotalFileSize(grandparents[start..i]) + grandparents[i].size
      else Advance(lt, grandparents, i, key) == i
  {
    if i < |grandparents| {
      assert grandparents[start..i + 1] == grandparents[start..i] + [grandparents[i]];
    }
  }

  lemma SweptStep<K(!new), V(!new)>(
      lt: (K, K) -> bool, grandparents: seq<File<K, V>>, maxOverlap: nat, keys: seq<InternalKey<K>>, index: nat, seen: bool, bytes: nat,
      key: InternalKey<K>, next: nat, grown: nat)
    requires Swept(lt, grandparents, maxOverlap, keys, index, seen, bytes) && index <= next <= |grandparents|
    requires next == Advance(lt, grandparents, index, key) && grown == bytes + if seen then TotalFileSize(grandparents[index..next]) else 0
    ensures Stops(lt, grandparents, maxOverlap, keys + [key]) <==> grown > maxOverlap
    ensures Swept(lt, grandparents, maxOverlap, keys + [key], next, true, if grown > maxOverlap then 0 else grown)
  {
    hide Advance, TotalFileSize;
    var all := keys + [key];
    assert all[..|all| - 1] == keys;
    assert GrandParentIndex(lt, grandparents, all) == next;
    assert GrownBytes(lt, grandparents, maxOverlap, all) == grown;
  }

  lemma TotalFileSizeConcat<K, V>(a: seq<File<K, V>>, b: seq<File<K, V>>)
    ensures TotalFileSize(a + b) == TotalFileSize(a) + TotalFileSize(b)
  {
    if b == [] {
      assert a + b == a;
    } else {
      assert (a + b)[..|a + b| - 1] == a + b[..|b| - 1];
      TotalFileSizeConcat(a, b[..|b| - 1]);
    }
  }

  lemma CountedStep<K(!new), V(!new)>(lt: (K, K) -> bool, grandparents: seq<File<K, V>>, maxOverlap: nat, keys: seq<InternalKey<K>>)
    requires |keys| > 1 && !Stops(lt, grandparents, maxOverlap, keys)
    ensures var init := keys[..|keys| - 1];
      var i, j := GrandParentIndex(lt, grandparents, init), GrandParentIndex(lt, grandparents, keys);
      i <= j && OverlappedBytes(lt, grandparents, maxOverlap, keys) == OverlappedBytes(lt, grandparents, maxOverlap, init) + TotalFileSize(grandparents[i..j])
  {
    hide GrandParentIndex, TotalFileSize;
    IndexGrows(lt, grandparents, keys);
  }

  /** As long as no key behind the `i`th is one to stop before, what they pass is counted. */
  lemma {:induction false} PassedIsCounted<K(!new), V(!new)>(
      lt: (K, K) -> bool, grandparents: seq<File<K, V>>, maxOverlap: nat, es: seq<Entry<K, V>>, i: nat, j: nat)
    requires i <= j < |es| && forall n: nat | i < n <= j :: !StopsOf(lt, grandparents, maxOverlap, es)[n]
    ensures var keys := KeysOf(es);
      var a, b := GrandParentIndex(lt, grandparents, keys[..i + 1]), GrandParentIndex(lt, grandparents, keys[..j + 1]);
      a <= b && TotalFileSize(grandparents[a..b]) <= OverlappedBytes(lt, grandparents, maxOverlap, keys[..j + 1])
    decreases j
  {
    hide GrandParentIndex, OverlappedBytes, GrownBytes, Stops, TotalFileSize, KeysOf;
    NoBytes<K, V>();
    var keys := KeysOf(es);
    var a, c := GrandParentIndex(lt, grandparents, keys[..i + 1]), GrandParentIndex(lt, grandparents, keys[..j + 1]);
    if i == j {
      assert grandparents[a..c] == [];
    } else {
      PassedIsCounted(lt, grandparents, maxOverlap, es, i, j - 1);
      assert keys[..j + 1][..j] == keys[..j];
      var b := GrandParentIndex(lt, grandparents, keys[..j]);
      NextKey(lt, grandparents, maxOverlap, es, j);
      CountedStep(lt, grandparents, maxOverlap, keys[..j + 1]);
      assert grandparents[a..c] == grandparents[a..b] + grandparents[b..c];
      TotalFileSizeConcat(grandparents[a..b], grandparents[b..c]);
    }
  }

  lemma NoBytes<K, V>()
    ensures TotalFileSize<K, V>([]) == 0
  {
  }

  lemma {:induction false} CountedIsSmall<K(!new), V(!new)>(lt: (K, K) -> bool, grandparents: seq<File<K, V>>, maxOverlap: nat, keys: seq<InternalKey<K>>)
    ensures OverlappedBytes(lt, grandparents, maxOverlap, keys) <= maxOverlap
  {
  }

  lemma {:induction false} AdvanceMeans<K(!new), V(!new)>(
      lt: (K, K) -> bool, grandparents: seq<File<K, V>>, i: nat, key: InternalKey<K>)
    requires i <= |grandparents|
    ensures var r := Advance(lt, grandparents, i, key);
      && (forall n | i <= n < r :: InternalLess(lt, grandparents[n].largest, key))
      && (r < |grandparents| ==> !InternalLess(lt, grandparents[r].largest, key))
    decreases |grandparents| - i
  {
    if i < |grandparents| && InternalLess(lt, grandparents[i].largest, key) {
      AdvanceMeans(lt, grandparents, i + 1, key);
    }
  }

  /** For ascending keys the grandparents passed are just those that end before the last key. */
  lemma {:induction false} IndexMeans<K(!new), V(!new)>(lt: (K, K) -> bool, grandparents: seq<File<K, V>>, keys: seq<InternalKey<K>>)
    requires TotalOrder(lt) && AllWellFormed(lt, grandparents) && SortedDisjoint(lt, grandparents) && keys != []
    requires forall i, j | 0 <= i < j < |keys| :: InternalLess(lt, keys[i], keys[j])
    ensures forall n | 0 <= n < |grandparents| ::
      InternalLess(lt, grandparents[n].largest, keys[|keys| - 1]) <==> n < GrandParentIndex(lt, grandparents, keys)
  {
    hide TotalOrder;
    var init, key := keys[..|keys| - 1], keys[|keys| - 1];
    var i, r := GrandParentIndex(lt, grandparents, init), GrandParentIndex(lt, grandparents, keys);
    AdvanceMeans(lt, grandparents, i, key);
    forall n | 0 <= n < |grandparents| ensures InternalLess(lt, grandparents[n].largest, key) <==> n < r {
      if n < i {
        IndexMeans(lt, grandparents, init);
        Before(lt, grandparents[n].largest, init[|init| - 1], key);
      } else if n > r {
        assert grandparents[n] in grandparents;
        LargestAscend(lt, grandparents, r, n);
        NotBefore(lt, grandparents[r].largest, grandparents[n].largest, key);
      }
    }
  }

  lemma Before<K(!new)>(lt: (K, K) -> bool, a: InternalKey<K>, b: InternalKey<K>, c: InternalKey<K>)
    requires TotalOrder(lt) && InternalLess(lt, a, b) && InternalLess(lt, b, c)
    ensures InternalLess(lt, a, c)
  {
  }

  lemma NotBefore<K(!new)>(lt: (K, K) -> bool, a: InternalKey<K>, b: InternalKey<K>, c: InternalKey<K>)
    requires TotalOrder(lt) && InternalLess(lt, a, b) && !InternalLess(lt, a, c)
    ensures !InternalLess(lt, b, c)
  {
  }

  ghost predicate NotYetFull<K(!new), V(!new)>(size: seq<Entry<K, V>> -> nat, maxSize: nat, entries: seq<Entry<K, V>>) {
    forall n | 0 < n < |entries| :: size(entries[..n]) < maxSize
  }

  /** No key to stop before lies behind the first entry of the file and not behind its last. */
  ghost predicate Unstopped<K(!new), V(!new)>(lt: (K, K) -> bool, es: seq<Entry<K, V>>, stops: seq<bool>, f: File<K, V>)
    requires |stops| == |es|
  {
    forall i | 0 <= i < |es| && stops[i] :: InternalLess(lt, f.smallest, es[i].key) ==> InternalLess(lt, f.largest, es[i].key)
  }

  /** The file is full, or one of the first `m` keys, behind its last, is one to stop before. */
  ghost predicate Ended<K(!new), V(!new)>(
      lt: (K, K) -> bool, es: seq<Entry<K, V>>, stops: seq<bool>, size: seq<Entry<K, V>> -> nat, maxSize: nat, f: File<K, V>, m: nat)
    requires |stops| == |es|
  {
    size(f.entries) >= maxSize || exists i: nat :: i < m && i < |es| && stops[i] && InternalLess(lt, f.largest, es[i].key)
  }

  /** The file is full, or some key behind its last, and not behind `next`, is one to stop before. */
  ghost predicate EndedBefore<K(!new), V(!new)>(
      lt: (K, K) -> bool, es: seq<Entry<K, V>>, stops: seq<bool>, size: seq<Entry<K, V>> -> nat, maxSize: nat, f: File<K, V>, next: InternalKey<K>)
    requires |stops| == |es|
  {
    size(f.entries) >= maxSize
    || exists i: nat :: i < |es| && stops[i] && InternalLess(lt, f.largest, es[i].key) && !InternalLess(lt, next, es[i].key)
  }

  /** Every output but the last ended because it was full or a key to stop before came, and none went on
      although it was full or such a key came. */
  ghost predicate CutWhereDue<K(!new), V(!new)>(
      lt: (K, K) -> bool, es: seq<Entry<K, V>>, stops: seq<bool>, size: seq<Entry<K, V>> -> nat, maxSize: nat, outputs: seq<File<K, V>>)
    requires |stops| == |es|
  {
    && (forall f | f in outputs :: f.size == size(f.entries) && NotYetFull(size, maxSize, f.entries) && Unstopped(lt, es, stops, f))
    && (forall k | 0 <= k < |outputs| - 1 :: EndedBefore(lt, es, stops, size, maxSize, outputs[k], outputs[k + 1].smallest))
  }

  /** All keys from the `n`th on are behind `key`. */
  ghost predicate AllBehind<K(!new), V(!new)>(lt: (K, K) -> bool, es: seq<Entry<K, V>>, n: nat, key: InternalKey<K>) {
    forall j | n <= j < |es| :: InternalLess(lt, key, es[j].key)
  }

  /** The output being built could go on: after `n` entries, with `m` keys asked about. */
  ghost predicate MayGoOn<K(!new), V(!new)>(
      lt: (K, K) -> bool, es: seq<Entry<K, V>>, stops: seq<bool>, size: seq<Entry<K, V>> -> nat, maxSize: nat, n: nat, m: nat, b: seq<Entry<K, V>>)
    requires |stops| == |es|
  {
    && b != [] && NotYetFull(size, maxSize, b) && size(b) < maxSize && AllBehind(lt, es, n, b[|b| - 1].key)
    && forall i | 0 <= i < m && i < |es| && stops[i] :: !InternalLess(lt, b[0].key, es[i].key)
  }

  /** The outputs finished and the one being built after `n` entries, with `m` keys asked about. */
  ghost predicate Cutting<K(!new), V(!new)>(
      lt: (K, K) -> bool, es: seq<Entry<K, V>>, stops: seq<bool>, size: seq<Entry<K, V>> -> nat, maxSize: nat, n: nat, m: nat,
      outputs: seq<File<K, V>>, builder: Option<seq<Entry<K, V>>>)
    requires |stops| == |es|
  {
    && CutWhereDue(lt, es, stops, size, maxSize, outputs) && (forall f | f in outputs :: AllBehind(lt, es, n, f.largest))
    && match builder
       case None => outputs != [] ==> Ended(lt, es, stops, size, maxSize, outputs[|outputs| - 1], m)
       case Some(b) =>
         && MayGoOn(lt, es, stops, size, maxSize, n, m, b)
         && (outputs != [] ==> EndedBefore(lt, es, stops, size, maxSize, outputs[|outputs| - 1], b[0].key))
  }

  lemma CuttingStart<K(!new), V(!new)>(
      lt: (K, K) -> bool, es: seq<Entry<K, V>>, stops: seq<bool>, size: seq<Entry<K, V>> -> nat, maxSize: nat)
    requires |stops| == |es|
    ensures Cutting(lt, es, stops, size, maxSize, 0, 0, [], None)
  {
  }

  /** An output is finished. */
  lemma Finished<K(!new), V(!new)>(
      lt: (K, K) -> bool, es: seq<Entry<K, V>>, stops: seq<bool>, size: seq<Entry<K, V>> -> nat, maxSize: nat, n: nat,
      outputs: seq<File<K, V>>, b: seq<Entry<K, V>>, number: nat)
    requires |stops| == |es| && CutWhereDue(lt, es, stops, size, maxSize, outputs) && (forall f | f in outputs :: AllBehind(lt, es, n, f.largest))
    requires b != [] && NotYetFull(size, maxSize, b) && AllBehind(lt, es, n, b[|b| - 1].key)
    requires forall i | 0 <= i < n && i < |es| && stops[i] :: !InternalLess(lt, b[0].key, es[i].key)
    requires outputs != [] ==> EndedBefore(lt, es, stops, size, maxSize, outputs[|outputs| - 1], b[0].key)
    ensures var all := outputs + [BuildTable(number, size(b), b)];
      CutWhereDue(lt, es, stops, size, maxSize, all) && forall f | f in all :: AllBehind(lt, es, n, f.largest)
  {
    hide NotYetFull, EndedBefore;
    var f := BuildTable(number, size(b), b);
    var all := outputs + [f];
    assert Unstopped(lt, es, stops, f);
    forall k | 0 <= k < |all| - 1 ensures EndedBefore(lt, es, stops, size, maxSize, all[k], all[k + 1].smallest) {
      assert all[k] == outputs[k];
      if k < |outputs| - 1 {
        assert all[k + 1] == outputs[k + 1];
      }
    }
  }

  /** A key that is not one to stop before, or comes while no output is being built. */
  lemma Asked<K(!new), V(!new)>(
      lt: (K, K) -> bool, es: seq<Entry<K, V>>, stops: seq<bool>, size: seq<Entry<K, V>> -> nat, maxSize: nat, n: nat,
      outputs: seq<File<K, V>>, builder: Option<seq<Entry<K, V>>>)
    requires |stops| == |es| && n < |es| && Cutting(lt, es, stops, size, maxSize, n, n, outputs, builder)
    requires !(stops[n] && builder.Some?)
    ensures Cutting(lt, es, stops, size, maxSize, n, n + 1, outputs, builder)
  {
    hide CutWhereDue, NotYetFull, EndedBefore, AllBehind;
  }

  lemma AskedToStop<K(!new), V(!new)>(
      lt: (K, K) -> bool, es: seq<Entry<K, V>>, stops: seq<bool>, size: seq<Entry<K, V>> -> nat, maxSize: nat, n: nat,
      outputs: seq<File<K, V>>, b: seq<Entry<K, V>>, number: nat)
    requires |stops| == |es| && n < |es| && Cutting(lt, es, stops, size, maxSize, n, n, outputs, Some(b)) && b != [] && stops[n]
    ensures Cutting(lt, es, stops, size, maxSize, n, n + 1, outputs + [BuildTable(number, size(b), b)], None)
  {
    hide CutWhereDue, NotYetFull, EndedBefore;
    Finished(lt, es, stops, size, maxSize, n, outputs, b, number);
  }

  lemma EntryDropped<K(!new), V(!new)>(
      lt: (K, K) -> bool, es: seq<Entry<K, V>>, stops: seq<bool>, size: seq<Entry<K, V>> -> nat, maxSize: nat, n: nat,
      outputs: seq<File<K, V>>, builder: Option<seq<Entry<K, V>>>)
    requires |stops| == |es| && n < |es| && Cutting(lt, es, stops, size, maxSize, n, n + 1, outputs, builder)
    ensures Cutting(lt, es, stops, size, maxSize, n + 1, n + 1, outputs, builder)
  {
    hide CutWhereDue, NotYetFull, EndedBefore, Ended;
  }

  function Grown<K, V>(builder: Option<seq<Entry<K, V>>>, e: Entry<K, V>): seq<Entry<K, V>> {
    (if builder.Some? then builder.value else []) + [e]
  }

  lemma GrownMayGoOn<K(!new), V(!new)>(
      lt: (K, K) -> bool, es: seq<Entry<K, V>>, stops: seq<bool>, size: seq<Entry<K, V>> -> nat, maxSize: nat, n: nat,
      outputs: seq<File<K, V>>, builder: Option<seq<Entry<K, V>>>)
    requires TotalOrder(lt) && Sorted(lt, es)
    requires |stops| == |es| && n < |es| && Cutting(lt, es, stops, size, maxSize, n, n + 1, outputs, builder)
    ensures var b := Grown(builder, es[n]);
      && NotYetFull(size, maxSize, b) && AllBehind(lt, es, n + 1, b[|b| - 1].key)
      && (forall i | 0 <= i < n + 1 && stops[i] :: !InternalLess(lt, b[0].key, es[i].key))
      && (outputs != [] ==> EndedBefore(lt, es, stops, size, maxSize, outputs[|outputs| - 1], b[0].key))
  {
    hide CutWhereDue;
    var b := Grown(builder, es[n]);
    forall k | 0 < k < |b| ensures size(b[..k]) < maxSize {
      assert b[..k] == builder.value[..k];
      if k == |builder.value| {
        assert builder.value[..k] == builder.value;
      }
    }
  }

  /** A kept entry goes into the output being built. */
  lemma EntryKept<K(!new), V(!new)>(
      lt: (K, K) -> bool, es: seq<Entry<K, V>>, stops: seq<bool>, size: seq<Entry<K, V>> -> nat, maxSize: nat, n: nat,
      outputs: seq<File<K, V>>, builder: Option<seq<Entry<K, V>>>, number: nat)
    requires TotalOrder(lt) && Sorted(lt, es)
    requires |stops| == |es| && n < |es| && Cutting(lt, es, stops, size, maxSize, n, n + 1, outputs, builder)
    ensures var b := Grown(builder, es[n]);
      if size(b) < maxSize then Cutting(lt, es, stops, size, maxSize, n + 1, n + 1, outputs, Some(b))
      else Cutting(lt, es, stops, size, maxSize, n + 1, n + 1, outputs + [BuildTable(number, size(b), b)], None)
  {
    hide TotalOrder, CutWhereDue, NotYetFull, EndedBefore;
    GrownMayGoOn(lt, es, stops, size, maxSize, n, outputs, builder);
    var b := Grown(builder, es[n]);
    if size(b) >= maxSize {
      Finished(lt, es, stops, size, maxSize, n + 1, outputs, b, number);
    }
  }

  lemma LastFinished<K(!new), V(!new)>(
      lt: (K, K) -> bool, es: seq<Entry<K, V>>, stops: seq<bool>, size: seq<Entry<K, V>> -> nat, maxSize: nat,
      outputs: seq<File<K, V>>, b: seq<Entry<K, V>>, number: nat)
    requires |stops| == |es| && Cutting(lt, es, stops, size, maxSize, |es|, |es|, outputs, Some(b)) && b != []
    ensures CutWhereDue(lt, es, stops, size, maxSize, outputs + [BuildTable(number, size(b), b)])
  {
    hide CutWhereDue, NotYetFull, EndedBefore;
    Finished(lt, es, stops, size, maxSize, |es|, outputs, b, number);
  }

  lemma CutIsDue<K(!new), V(!new)>(
      lt: (K, K) -> bool, es: seq<Entry<K, V>>, stops: seq<bool>, size: seq<Entry<K, V>> -> nat, maxSize: nat, outputs: seq<File<K, V>>)
    requires |stops| == |es| && Cutting(lt, es, stops, size, maxSize, |es|, |es|, outputs, None)
    ensures CutWhereDue(lt, es, stops, size, maxSize, outputs)
  {
  }

  /** The grandparents that end between two keys, at the first or behind it. */
  function EndingBetween<K(==), V>(lt: (K, K) -> bool, grandparents: seq<File<K, V>>, a: InternalKey<K>, b: InternalKey<K>): seq<File<K, V>> {
    if grandparents == [] then []
    else
      var f := grandparents[|grandparents| - 1];
      EndingBetween(lt, grandparents[..|grandparents| - 1], a, b) + if !InternalLess(lt, f.largest, a) && InternalLess(lt, f.largest, b) then [f] else []
  }

  lemma {:induction false} EndingIsSlice<K(!new), V(!new)>(
      lt: (K, K) -> bool, grandparents: seq<File<K, V>>, a: InternalKey<K>, b: InternalKey<K>, i: nat, j: nat)
    requires i <= j <= |grandparents|
    requires forall n | 0 <= n < |grandparents| :: InternalLess(lt, grandparents[n].largest, a) <==> n < i
    requires forall n | 0 <= n < |grandparents| :: InternalLess(lt, grandparents[n].largest, b) <==> n < j
    ensures EndingBetween(lt, grandparents, a, b) == grandparents[i..j]
  {
    hide InternalLess;
    if grandparents != [] {
      var last := |grandparents| - 1;
      var init := grandparents[..last];
      if i <= last < j {
        EndingIsSlice(lt, init, a, b, i, last);
        assert grandparents[i..j] == init[i..last] + [grandparents[last]];
      } else if j <= last {
        EndingIsSlice(lt, init, a, b, i, j);
        assert grandparents[i..j] == init[i..j];
      } else {
        EndingIsSlice(lt, init, a, b, last, last);
        assert grandparents[i..j] == init[last..last];
      }
    }
  }

  /** No output that was cut where due spans more of the grandparents than permitted, apart from those at its
      two ends. */
  lemma {:induction false} SpansFew<K(!new), V(!new)>(
      lt: (K, K) -> bool, grandparents: seq<File<K, V>>, maxOverlap: nat, es: seq<Entry<K, V>>, f: File<K, V>, i: nat, j: nat)
    requires TotalOrder(lt) && Sorted(lt, es) && AllWellFormed(lt, grandparents) && SortedDisjoint(lt, grandparents)
    requires i <= j < |es| && f.smallest == es[i].key && f.largest == es[j].key
    requires Unstopped(lt, es, StopsOf(lt, grandparents, maxOverlap, es), f)
    ensures TotalFileSize(EndingBetween(lt, grandparents, f.smallest, f.largest)) <= maxOverlap
  {
    hide TotalOrder, GrandParentIndex, OverlappedBytes, Stops, StopsOf, EndingBetween, TotalFileSize;
    var keys := KeysOf(es);
    forall n: nat | i < n <= j ensures !StopsOf(lt, grandparents, maxOverlap, es)[n] {
      assert InternalLess(lt, es[i].key, es[n].key);
      NotBehind(lt, es, n, j);
    }
    PassedIsCounted(lt, grandparents, maxOverlap, es, i, j);
    CountedIsSmall(lt, grandparents, maxOverlap, keys[..j + 1]);
    IndexMeans(lt, grandparents, keys[..i + 1]);
    IndexMeans(lt, grandparents, keys[..j + 1]);
    EndingIsSlice(lt, grandparents, f.smallest, f.largest,
      GrandParentIndex(lt, grandparents, keys[..i + 1]), GrandParentIndex(lt, grandparents, keys[..j + 1]));
  }

  lemma NotBehind<K(!new), V(!new)>(lt: (K, K) -> bool, es: seq<Entry<K, V>>, n: nat, j: nat)
    requires TotalOrder(lt) && Sorted(lt, es) && n <= j < |es|
    ensures !InternalLess(lt, es[j].key, es[n].key)
  {
  }

  lemma {:induction false} CountedSince<K(!new), V(!new)>(
      lt: (K, K) -> bool, grandparents: seq<File<K, V>>, maxOverlap: nat, es: seq<Entry<K, V>>, i: nat, j: nat)
    requires i <= j < |es| && (i == 0 || StopsOf(lt, grandparents, maxOverlap, es)[i])
    requires forall n: nat | i < n <= j :: !StopsOf(lt, grandparents, maxOverlap, es)[n]
    ensures var keys := KeysOf(es);
      var a, b := GrandParentIndex(lt, grandparents, keys[..i + 1]), GrandParentIndex(lt, grandparents, keys[..j + 1]);
      a <= b && OverlappedBytes(lt, grandparents, maxOverlap, keys[..j + 1]) == TotalFileSize(grandparents[a..b])
    decreases j
  {
    hide GrandParentIndex, OverlappedBytes, GrownBytes, Stops, TotalFileSize, KeysOf;
    NoBytes<K, V>();
    var keys := KeysOf(es);
    var a, c := GrandParentIndex(lt, grandparents, keys[..i + 1]), GrandParentIndex(lt, grandparents, keys[..j + 1]);
    NextKey(lt, grandparents, maxOverlap, es, i);
    if i == j {
      CountedNothing(lt, grandparents, maxOverlap, keys[..i + 1]);
      assert grandparents[a..c] == [];
    } else {
      CountedSince(lt, grandparents, maxOverlap, es, i, j - 1);
      assert keys[..j + 1][..j] == keys[..j];
      var b := GrandParentIndex(lt, grandparents, keys[..j]);
      NextKey(lt, grandparents, maxOverlap, es, j);
      CountedStep(lt, grandparents, maxOverlap, keys[..j + 1]);
      assert grandparents[a..c] == grandparents[a..b] + grandparents[b..c];
      TotalFileSizeConcat(grandparents[a..b], grandparents[b..c]);
    }
  }

  lemma CountedNothing<K(!new), V(!new)>(lt: (K, K) -> bool, grandparents: seq<File<K, V>>, maxOverlap: nat, keys: seq<InternalKey<K>>)
    requires |keys| == 1 || Stops(lt, grandparents, maxOverlap, keys)
    ensures OverlappedBytes(lt, grandparents, maxOverlap, keys) == 0
  {
    if |keys| == 1 {
      var none: seq<InternalKey<K>> := [];
      assert keys[..|keys| - 1] == none;
      assert OverlappedBytes(lt, grandparents, maxOverlap, none) == 0;
      assert GrownBytes(lt, grandparents, maxOverlap, keys) == 0;
    }
  }

  lemma GrownStep<K(!new), V(!new)>(lt: (K, K) -> bool, grandparents: seq<File<K, V>>, maxOverlap: nat, keys: seq<InternalKey<K>>)
    requires |keys| > 1
    ensures var init := keys[..|keys| - 1];
      var i, j := GrandParentIndex(lt, grandparents, init), GrandParentIndex(lt, grandparents, keys);
      i <= j && (Stops(lt, grandparents, maxOverlap, keys) <==>
        OverlappedBytes(lt, grandparents, maxOverlap, init) + TotalFileSize(grandparents[i..j]) > maxOverlap)
  {
    hide GrandParentIndex, TotalFileSize;
    IndexGrows(lt, grandparents, keys);
  }

  /** A key is one to stop before exactly when, since the last such key or the first of all, too many bytes of
      grandparents have ended. */
  lemma {:induction false} StopMeans<K(!new), V(!new)>(
      lt: (K, K) -> bool, grandparents: seq<File<K, V>>, maxOverlap: nat, es: seq<Entry<K, V>>, i: nat, j: nat)
    requires TotalOrder(lt) && Sorted(lt, es) && AllWellFormed(lt, grandparents) && SortedDisjoint(lt, grandparents)
    requires i < j < |es| && (i == 0 || StopsOf(lt, grandparents, maxOverlap, es)[i])
    requires forall n: nat | i < n < j :: !StopsOf(lt, grandparents, maxOverlap, es)[n]
    ensures StopsOf(lt, grandparents, maxOverlap, es)[j] <==> TotalFileSize(EndingBetween(lt, grandparents, es[i].key, es[j].key)) > maxOverlap
  {
    hide TotalOrder, GrandParentIndex, OverlappedBytes, GrownBytes, Stops, EndingBetween, TotalFileSize, KeysOf;
    var keys := KeysOf(es);
    CountedSince(lt, grandparents, maxOverlap, es, i, j - 1);
    assert keys[..j + 1][..j] == keys[..j];
    NextKey(lt, grandparents, maxOverlap, es, j);
    GrownStep(lt, grandparents, maxOverlap, keys[..j + 1]);
    var a, b, c := GrandParentIndex(lt, grandparents, keys[..i + 1]), GrandParentIndex(lt, grandparents, keys[..j]),
      GrandParentIndex(lt, grandparents, keys[..j + 1]);
    assert grandparents[a..c] == grandparents[a..b] + grandparents[b..c];
    TotalFileSizeConcat(grandparents[a..b], grandparents[b..c]);
    IndexMeans(lt, grandparents, keys[..i + 1]);
    IndexMeans(lt, grandparents, keys[..j + 1]);
    EndingIsSlice(lt, grandparents, es[i].key, es[j].key, a, c);
  }

  /** Where two cuts begin a file at the same entry they end it at the same: neither is shorter. */
  lemma {:induction false} NotShorter<K(!new), V(!new)>(
      lt: (K, K) -> bool, es: seq<Entry<K, V>>, stops: seq<bool>, size: seq<Entry<K, V>> -> nat, maxSize: nat, f: File<K, V>, next: Entry<K, V>,
      g: File<K, V>)
    requires TotalOrder(lt) && |stops| == |es| && 0 < |f.entries| < |g.entries| && next == g.entries[|f.entries|]
    requires f.entries == g.entries[..|f.entries|] && f == BuildTable(f.number, f.size, f.entries)
    requires g == BuildTable(g.number, g.size, g.entries) && Sorted(lt, g.entries)
    requires EndedBefore(lt, es, stops, size, maxSize, f, next.key)
    ensures !NotYetFull(size, maxSize, g.entries) || !Unstopped(lt, es, stops, g)
  {
  }

  lemma {:induction false} FileNotShorter<K(!new), V(!new)>(
      lt: (K, K) -> bool, es: seq<Entry<K, V>>, stops: seq<bool>, size: seq<Entry<K, V>> -> nat, maxSize: nat, xs: seq<File<K, V>>, ys: seq<File<K, V>>,
      first: nat, k: nat)
    requires TotalOrder(lt) && |stops| == |es| && Sorted(lt, Flatten(xs)) && Built(xs, first) && Built(ys, first) && Flatten(xs) == Flatten(ys)
    requires CutWhereDue(lt, es, stops, size, maxSize, xs) && CutWhereDue(lt, es, stops, size, maxSize, ys)
    requires k < |xs| && k < |ys| && xs[..k] == ys[..k]
    ensures |xs[k].entries| >= |ys[k].entries|
  {
    hide TotalOrder, Flatten, NotYetFull, Unstopped, EndedBefore;
    var f, g, n, all := xs[k], ys[k], |xs[k].entries|, Flatten(xs);
    if n < |g.entries| {
      var begin := |Flatten(xs[..k])|;
      assert xs[..|xs|] == xs && ys[..|ys|] == ys && f in xs && g in ys;
      FlattenSegment(xs, k, |xs|);
      FlattenSegment(ys, k, |ys|);
      assert forall i | 0 <= i < |g.entries| :: g.entries[i] == all[begin..begin + |g.entries|][i];
      assert f.entries == g.entries[..n];
      assert Sorted(lt, g.entries);
      if k == |xs| - 1 {
        FlattenSnoc(xs, k);
      } else {
        FlattenSegment(xs, k + 1, |xs|);
        FlattenSnoc(xs, k);
        var next := xs[k + 1].entries;
        assert all[begin + n] == all[begin + n..begin + n + |next|][0];
        NotShorter(lt, es, stops, size, maxSize, f, g.entries[n], g);
      }
    }
  }

  lemma {:induction false} CutsAgree<K(!new), V(!new)>(
      lt: (K, K) -> bool, es: seq<Entry<K, V>>, stops: seq<bool>, size: seq<Entry<K, V>> -> nat, maxSize: nat, xs: seq<File<K, V>>, ys: seq<File<K, V>>,
      first: nat, k: nat)
    requires TotalOrder(lt) && |stops| == |es| && Sorted(lt, Flatten(xs)) && Built(xs, first) && Built(ys, first) && Flatten(xs) == Flatten(ys)
    requires CutWhereDue(lt, es, stops, size, maxSize, xs) && CutWhereDue(lt, es, stops, size, maxSize, ys)
    requires k <= |xs| && k <= |ys|
    ensures xs[..k] == ys[..k]
  {
    hide TotalOrder, Flatten, NotYetFull, Unstopped, EndedBefore, Sorted;
    if k > 0 {
      var j := k - 1;
      CutsAgree(lt, es, stops, size, maxSize, xs, ys, first, j);
      FileNotShorter(lt, es, stops, size, maxSize, xs, ys, first, j);
      FileNotShorter(lt, es, stops, size, maxSize, ys, xs, first, j);
      assert xs[..|xs|] == xs && ys[..|ys|] == ys && xs[j] in xs && ys[j] in ys;
      FlattenSegment(xs, j, |xs|);
      FlattenSegment(ys, j, |ys|);
      assert xs[j].entries == ys[j].entries;
      assert xs[..k] == xs[..j] + [xs[j]] && ys[..k] == ys[..j] + [ys[j]];
    }
  }

  /** Two ways to cut the same entries where due are the same. */
  lemma {:induction false} CutsDetermined<K(!new), V(!new)>(
      lt: (K, K) -> bool, es: seq<Entry<K, V>>, stops: seq<bool>, size: seq<Entry<K, V>> -> nat, maxSize: nat, xs: seq<File<K, V>>, ys: seq<File<K, V>>,
      first: nat)
    requires TotalOrder(lt) && |stops| == |es| && Sorted(lt, Flatten(xs)) && Built(xs, first) && Built(ys, first) && Flatten(xs) == Flatten(ys)
    requires CutWhereDue(lt, es, stops, size, maxSize, xs) && CutWhereDue(lt, es, stops, size, maxSize, ys)
    ensures xs == ys
  {
    hide CutWhereDue, Flatten, Sorted, TotalOrder;
    var k := if |xs| <= |ys| then |xs| else |ys|;
    CutsAgree(lt, es, stops, size, maxSize, xs, ys, first, k);
    assert xs[..|xs|] == xs && ys[..|ys|] == ys;
    if k < |xs| {
      FlattenSegment(xs, k, |xs|);
    }
    if k < |ys| {
      FlattenSegment(ys, k, |ys|);
    }
  }
}
