/** Iterators over the skip list, and a search by a reader whose steps interleave with the stores of an insert
    (db/skiplist.h). */
module SkipListRuns {
  import opened Keys
  import opened SkipLists

  class Iterator<K(==, !new)> {
    const list: SkipList<K>
    var node: Option<nat>
    // The place among the list's keys, their number when there is no node.
    ghost var pos: nat

    constructor (list: SkipList<K>)
      requires list.Valid()
      ensures Inv() && this.list == list && pos == |list.Keys()|
    {
      this.list, node, pos := list, None, |list.Keys()|;
    }

    ghost predicate Inv()
      reads this, list
    {
      list.Valid() && pos <= |list.Keys()| && node == NextIn(list.levels[0], pos)
    }

    predicate Valid()
      reads this
    {
      node.Some?
    }

    method Key() returns (key: K)
      requires Inv() && Valid()
      ensures pos < |list.Keys()| && key == list.Keys()[pos]
    {
      list.LevelIs(0);
      key := list.nodes[node.value].key;
    }

    method Next()
      requires Inv() && Valid()
      modifies this
      ensures Inv() && pos == old(pos) + 1
    {
      list.LevelIs(0);
      node := list.nodes[node.value].next[0];
      pos := pos + 1;
    }

    /** One back, or off the list from its front. */
    method Prev()
      requires Inv() && Valid()
      modifies this
      ensures Inv() && pos == if old(pos) == 0 then |list.Keys()| else old(pos) - 1
    {
      list.LevelIs(0);
      var x, p := list.FindLessThan(list.nodes[node.value].key);
      SplitAt(list.lt, list.nodes, list.levels[0], pos, p);
      if x == 0 {
        node := None;
        pos := |list.Keys()|;
      } else {
        node := Some(x);
        pos := pos - 1;
      }
    }

    /** The first key at or after the target. */
    method Seek(target: K)
      requires Inv()
      modifies this
      ensures Inv() && (forall i | 0 <= i < pos :: list.lt(list.Keys()[i], target))
      ensures forall i | pos <= i < |list.Keys()| :: !list.lt(list.Keys()[i], target)
    {
      list.LevelIs(0);
      var prev;
      node, prev, pos := list.FindGreaterOrEqual(target);
    }

    method SeekToFirst()
      requires Inv()
      modifies this
      ensures Inv() && pos == 0
    {
      list.LevelIs(0);
      node := list.nodes[0].next[0];
      pos := 0;
    }

    method SeekToLast()
      requires Inv()
      modifies this
      ensures Inv() && pos == if |list.Keys()| == 0 then 0 else |list.Keys()| - 1
    {
      list.LevelIs(0);
      var x := list.FindLast();
      if x == 0 {
        node := None;
        pos := |list.Keys()|;
      } else {
        node := Some(x);
        pos := |list.Keys()| - 1;
      }
    }
  }

  /** The place before a key of the level is just in front of it. */
  lemma SplitAt<K(!new)>(lt: (K, K) -> bool, nodes: seq<Node<K>>, r: seq<nat>, pos: nat, p: nat)
    requires WeakOrder(lt) && IsLevel(lt, nodes, r, 0) && pos + 1 < |r| && Splits(lt, nodes, r, Some(nodes[r[pos + 1]].key), p)
    ensures p == pos && (r[p] == 0 <==> p == 0)
  {
    hide NextIn;
    var key := nodes[r[pos + 1]].key;
    assert !lt(key, key);
    assert 0 < pos ==> lt(nodes[r[pos]].key, nodes[r[pos + 1]].key);
  }

  method Contains<K(==, !new)>(list: SkipList<K>, key: K) returns (r: bool)
    requires list.Valid()
    ensures r <==> exists k :: k in list.Keys() && Same(list.lt, k, key)
  {
    list.LevelIs(0);
    var x, _, p := list.FindGreaterOrEqual(key);
    HoldsKey(list.lt, list.nodes, list.levels[0], key, p);
    r := x.Some? && Same(list.lt, list.nodes[x.value].key, key);
  }

  lemma HoldsKey<K(!new)>(lt: (K, K) -> bool, nodes: seq<Node<K>>, r: seq<nat>, key: K, p: nat)
    requires WeakOrder(lt) && IsLevel(lt, nodes, r, 0) && Splits(lt, nodes, r, Some(key), p)
    ensures (exists k :: k in KeysOf(nodes, r) && Same(lt, k, key)) <==> p + 1 < |r| && Same(lt, nodes[r[p + 1]].key, key)
  {
    hide NextIn;
    var keys := KeysOf(nodes, r);
    assert !lt(key, key);
    if k :| k in keys && Same(lt, k, key) {
      var i :| 0 <= i < |keys| && keys[i] == k;
      assert nodes[r[i + 1]].key == k;
    }
    if p + 1 < |r| {
      assert keys[p] == nodes[r[p + 1]].key;
    }
  }

  /** A search by a reader. It is looking for the place of `target`, or of the end of the list; once it has
      stayed at a node of the bottom level, that node and the one after it are what it found. */
  datatype Reader<+K> =
    | Resting
    | Searching(target: Option<K>, x: nat, level: nat)
    | Found(target: Option<K>, x: nat, next: Option<nat>)

  /** The memory of the list, the insert and the search under way, and, for the proof, the nodes of each level
      in order and the nodes that were in the list when the search began. */
  datatype State<+K> = State(
    nodes: seq<Node<K>>, maxHeight: nat, writer: Option<Insertion>, reader: Reader<K>, levels: seq<seq<nat>>, began: set<nat>)

  datatype Step<+K> =
    | Begin(key: K, height: nat, prev: seq<nat>)
    | SetOwn
    | Publish(p: nat)
    | End
    | StartSearch(target: Option<K>)
    | SearchOn

  /** The writer's search has found `prev`, with no other writer about, and it stores the height. */
  ghost predicate BeginStep<K(!new)>(lt: (K, K) -> bool, s: State<K>, key: K, height: nat, prev: seq<nat>, s': State<K>)
    requires |s.levels| == MAX_HEIGHT
  {
    && s.writer == None && 0 < height <= MAX_HEIGHT && |prev| >= height
    && (forall l | 0 <= l < height :: if l < s.maxHeight then IsPlace(lt, s.nodes, s.levels[l], key, prev[l]) else prev[l] == 0)
    && (forall n | n in s.levels[0] && n != 0 :: n < |s.nodes| && !Same(lt, s.nodes[n].key, key))
    && s' == s.(
      nodes := s.nodes + [Node(key, seq(height, i => None))], maxHeight := if s.maxHeight < height then height else s.maxHeight,
      writer := Some(Insertion(|s.nodes|, height, prev, 0, false)))
  }

  /** One load by the reader. */
  ghost predicate SearchStep<K(!new)>(lt: (K, K) -> bool, s: State<K>, s': State<K>) {
    && s.reader.Searching? && s.reader.x < |s.nodes| && s.reader.level < |s.nodes[s.reader.x].next|
    && var next := s.nodes[s.reader.x].next[s.reader.level];
    && var target := s.reader.target;
    s' == s.(reader :=
      if next.Some? && next.value < |s.nodes| && (target == None || lt(s.nodes[next.value].key, target.value)) then
        Searching(target, next.value, s.reader.level)
      else if s.reader.level == 0 then
        Found(target, s.reader.x, next)
      else
        Searching(target, s.reader.x, s.reader.level - 1))
  }

  ghost predicate Next<K(!new)>(lt: (K, K) -> bool, s: State<K>, step: Step<K>, s': State<K>) {
    && |s.levels| == MAX_HEIGHT
    && match step
      case Begin(key, height, prev) => BeginStep(lt, s, key, height, prev, s')
      case SetOwn =>
        && s.writer.Some? && var w := s.writer.value;
        && w.i < w.height && w.x < |s.nodes| && w.i < |s.nodes[w.x].next| && w.i < |w.prev|
        && w.prev[w.i] < |s.nodes| && w.i < |s.nodes[w.prev[w.i]].next| && !w.own
        && s' == s.(nodes := SetNext(s.nodes, w.x, w.i, s.nodes[w.prev[w.i]].next[w.i]), writer := Some(w.(own := true)))
      case Publish(p) =>
        && s.writer.Some? && var w := s.writer.value;
        && w.i < w.height <= MAX_HEIGHT && w.i < |w.prev| && w.prev[w.i] < |s.nodes| && w.i < |s.nodes[w.prev[w.i]].next| && w.own
        // Where this is in the order of the level is noted for the proof.
        && w.x < |s.nodes| && Splits(lt, s.nodes, s.levels[w.i], Some(s.nodes[w.x].key), p) && s.levels[w.i][p] == w.prev[w.i]
        && s' == s.(
          nodes := SetNext(s.nodes, w.prev[w.i], w.i, Some(w.x)), writer := Some(w.(i := w.i + 1, own := false)),
          levels := s.levels[w.i := Linked(s.levels[w.i], p, w.x)])
      case End =>
        && s.writer.Some? && s.writer.value.i == s.writer.value.height && s' == s.(writer := None)
      case StartSearch(target) =>
        && s.maxHeight > 0
        && s' == s.(reader := Searching(target, 0, s.maxHeight - 1), began := set n | n in s.levels[0])
      case SearchOn => SearchStep(lt, s, s')
  }

  /** A node found is the one that a reader must find among those of `known`: nothing of it at or after the
      target is before `next`, and nothing before the target is after `x`. */
  ghost predicate Skipped<K(!new)>(lt: (K, K) -> bool, nodes: seq<Node<K>>, known: set<nat>, target: Option<K>, x: nat, next: Option<nat>) {
    exists m :: m in known && m != 0 && m < |nodes| &&
      if target.Some? && !lt(nodes[m].key, target.value)
      then next == None || next.value >= |nodes| || lt(nodes[m].key, nodes[next.value].key)
      else x == 0 || x >= |nodes| || lt(nodes[x].key, nodes[m].key)
  }

  ghost predicate GoodReader<K(!new)>(lt: (K, K) -> bool, nodes: seq<Node<K>>, levels: seq<seq<nat>>, reader: Reader<K>, began: set<nat>)
    requires |levels| == MAX_HEIGHT
  {
    match reader
    case Resting => true
    case Searching(target, x, level) => level < MAX_HEIGHT && Before(lt, nodes, levels[level], x, target)
    case Found(target, x, next) =>
      && Before(lt, nodes, levels[0], x, target)
      && (next.Some? ==>
            (next.value in levels[0] && next.value != 0 && next.value < |nodes| && target.Some? && !lt(nodes[next.value].key, target.value)))
      && !Skipped(lt, nodes, began, target, x, next)
  }

  ghost predicate Inv<K(!new)>(lt: (K, K) -> bool, s: State<K>)
    ensures Inv(lt, s) ==> |s.levels| == MAX_HEIGHT && IsList(lt, s.nodes, s.maxHeight, s.levels)
  {
    && IsList(lt, s.nodes, s.maxHeight, s.levels)
    && (s.writer.Some? ==>
          (Inserting(lt, s.nodes, s.maxHeight, s.levels, s.writer.value) && (s.writer.value.own ==> OwnIsSet(s.nodes, s.writer.value))))
    && (s.reader.Resting? || forall n | n in s.began :: n in s.levels[0])
    && GoodReader(lt, s.nodes, s.levels, s.reader, s.began)
  }

  ghost predicate Within<K>(nodes: seq<Node<K>>, r: seq<nat>) {
    forall n | n in r :: n < |nodes|
  }

  ghost predicate Grows(r: seq<nat>, up: seq<nat>) {
    forall n | n in r :: n in up
  }

  /** Nodes keep their keys and levels only grow, so what a reader knows stays true. */
  lemma ReaderKeeps<K(!new)>(
      lt: (K, K) -> bool, nodes: seq<Node<K>>, levels: seq<seq<nat>>, after: seq<Node<K>>, up: seq<seq<nat>>, reader: Reader<K>, began: set<nat>)
    requires |levels| == |up| == MAX_HEIGHT && GoodReader(lt, nodes, levels, reader, began)
    requires |nodes| <= |after| && forall m | 0 <= m < |nodes| :: after[m].key == nodes[m].key
    requires forall l | 0 <= l < MAX_HEIGHT :: Within(nodes, levels[l]) && Grows(levels[l], up[l])
    requires forall n | n in began :: n in levels[0]
    ensures GoodReader(lt, after, up, reader, began)
  {
  }

  /** Staying at a node of the bottom level finds the place of the target in the list as it is then. */
  lemma FoundIsPlace<K(!new)>(
      lt: (K, K) -> bool, nodes: seq<Node<K>>, r: seq<nat>, target: Option<K>, x: nat, began: set<nat>)
    requires WeakOrder(lt) && IsLevel(lt, nodes, r, 0) && Before(lt, nodes, r, x, target) && (forall n | n in began :: n in r)
    requires x < |nodes| && 0 < |nodes[x].next| && Stays(lt, nodes, x, 0, target)
    ensures exists p: nat :: Splits(lt, nodes, r, target, p) && r[p] == x && nodes[x].next[0] == NextIn(r, p)
    ensures !Skipped(lt, nodes, began, target, x, nodes[x].next[0])
  {
    hide NextIn;
    var p := StayedAtSplit(lt, nodes, r, 0, x, target);
    NextIs(r, p);
    forall m | m in began && m != 0 && m < |nodes|
      ensures if target.Some? && !lt(nodes[m].key, target.value)
        then p + 1 < |r| && !lt(nodes[m].key, nodes[r[p + 1]].key)
        else x != 0 && !lt(nodes[x].key, nodes[m].key)
    {
      var i :| 0 <= i < |r| && r[i] == m;
      assert i < p ==> lt(nodes[r[i]].key, nodes[r[p]].key);
      assert p + 1 < i ==> lt(nodes[r[p + 1]].key, nodes[r[i]].key);
    }
  }

  lemma LevelsOf<K(!new)>(lt: (K, K) -> bool, nodes: seq<Node<K>>, maxHeight: nat, levels: seq<seq<nat>>)
    requires IsList(lt, nodes, maxHeight, levels)
    ensures forall l | 0 <= l < MAX_HEIGHT :: Within(nodes, levels[l])
    ensures forall l | 0 <= l < MAX_HEIGHT :: |levels[l]| > 0 && levels[l][0] == 0
  {
    hide NextIn;
    forall l | 0 <= l < MAX_HEIGHT ensures Within(nodes, levels[l]) && |levels[l]| > 0 && levels[l][0] == 0 {
      NotHead(lt, nodes, levels[l], l);
      assert IsLevel(lt, nodes, levels[l], l);
    }
  }

  lemma BeginStepKeeps<K(!new)>(lt: (K, K) -> bool, s: State<K>, key: K, height: nat, prev: seq<nat>, s': State<K>)
    requires WeakOrder(lt) && Inv(lt, s) && Next(lt, s, Begin(key, height, prev), s')
    ensures Inv(lt, s')
  {
    hide WeakOrder, IsList, IsPlace, Inserting, OwnIsSet, GoodReader;
    LevelsOf(lt, s.nodes, s.maxHeight, s.levels);
    BeginKeeps(lt, s.nodes, s.maxHeight, s.levels, Node(key, seq(height, i => None)), height, s'.maxHeight, prev);
    if !s.reader.Resting? {
      ReaderKeeps(lt, s.nodes, s.levels, s'.nodes, s.levels, s.reader, s.began);
    } else {
      RestingIsGood(lt, s'.nodes, s.levels, s.reader, s.began);
    }
  }

  lemma RestingIsGood<K(!new)>(lt: (K, K) -> bool, nodes: seq<Node<K>>, levels: seq<seq<nat>>, reader: Reader<K>, began: set<nat>)
    requires |levels| == MAX_HEIGHT && reader.Resting?
    ensures GoodReader(lt, nodes, levels, reader, began)
  {
  }

  lemma SetOwnStepKeeps<K(!new)>(lt: (K, K) -> bool, s: State<K>, s': State<K>)
    requires WeakOrder(lt) && Inv(lt, s) && Next(lt, s, SetOwn, s')
    ensures Inv(lt, s')
  {
    hide WeakOrder, IsList, IsPlace, Inserting, GoodReader;
    var w := s.writer.value;
    var to := s.nodes[w.prev[w.i]].next[w.i];
    LevelsOf(lt, s.nodes, s.maxHeight, s.levels);
    SetOwnKeeps(lt, s.nodes, s.maxHeight, s.levels, w, to);
    SetNextOnlyLinks(s.nodes, w.x, w.i, to);
    OwnFlag(lt, s'.nodes, s.maxHeight, s.levels, w);
    var p := PlaceInLevel(lt, s.nodes, s.maxHeight, s.levels, w);
    NotItself(lt, s.nodes, s.maxHeight, s.levels, w, p);
    if !s.reader.Resting? {
      ReaderKeeps(lt, s.nodes, s.levels, s'.nodes, s.levels, s.reader, s.began);
    } else {
      RestingIsGood(lt, s'.nodes, s.levels, s.reader, s.began);
    }
  }

  lemma OwnFlag<K(!new)>(lt: (K, K) -> bool, nodes: seq<Node<K>>, maxHeight: nat, levels: seq<seq<nat>>, w: Insertion)
    requires |levels| == MAX_HEIGHT && Inserting(lt, nodes, maxHeight, levels, w)
    ensures Inserting(lt, nodes, maxHeight, levels, w.(own := true))
  {
  }

  lemma NotItself<K(!new)>(lt: (K, K) -> bool, nodes: seq<Node<K>>, maxHeight: nat, levels: seq<seq<nat>>, w: Insertion, p: nat)
    requires |levels| == MAX_HEIGHT && Inserting(lt, nodes, maxHeight, levels, w) && w.i < w.height
    requires p < |levels[w.i]| && levels[w.i][p] == w.prev[w.i]
    ensures w.prev[w.i] != w.x
  {
  }

  lemma PublishStepKeeps<K(!new)>(lt: (K, K) -> bool, s: State<K>, p: nat, s': State<K>)
    requires WeakOrder(lt) && Inv(lt, s) && Next(lt, s, Publish(p), s')
    ensures Inv(lt, s')
  {
    hide WeakOrder, IsList, IsPlace, Inserting, GoodReader, Splits, Linked;
    var w := s.writer.value;
    LevelsOf(lt, s.nodes, s.maxHeight, s.levels);
    PublishKeeps(lt, s.nodes, s.maxHeight, s.levels, w, p);
    SetNextOnlyLinks(s.nodes, w.prev[w.i], w.i, Some(w.x));
    LinkedHolds(s.levels[w.i], p, w.x);
    if !s.reader.Resting? {
      ReaderKeeps(lt, s.nodes, s.levels, s'.nodes, s'.levels, s.reader, s.began);
    } else {
      RestingIsGood(lt, s'.nodes, s'.levels, s.reader, s.began);
    }
  }

  lemma StartStepKeeps<K(!new)>(lt: (K, K) -> bool, s: State<K>, target: Option<K>, s': State<K>)
    requires Inv(lt, s) && Next(lt, s, StartSearch(target), s')
    ensures Inv(lt, s')
  {
    hide IsLevel, Inserting, OwnIsSet, IsPlace;
    LevelsOf(lt, s.nodes, s.maxHeight, s.levels);
    assert s.levels[s.maxHeight - 1][0] == 0;
  }

  lemma SearchStepKeeps<K(!new)>(lt: (K, K) -> bool, s: State<K>, s': State<K>)
    requires WeakOrder(lt) && Inv(lt, s) && Next(lt, s, SearchOn, s')
    ensures Inv(lt, s')
  {
    hide WeakOrder, Inserting, OwnIsSet, IsPlace, NextIn, Skipped;
    var x, l, target := s.reader.x, s.reader.level, s.reader.target;
    var r := s.levels[l];
    assert IsLevel(lt, s.nodes, r, l);
    var q: nat :| q < |r| && r[q] == x;
    NextIs(r, q);
    LinkIsAhead(lt, s.nodes, r, l, q);
    if Stays(lt, s.nodes, x, l, target) {
      if l == 0 {
        FoundIsPlace(lt, s.nodes, r, target, x, s.began);
      } else {
        assert x in s.levels[l - 1];
      }
    }
  }

  /** A link in a level leads to another node of it. */
  lemma LinkIsAhead<K(!new)>(lt: (K, K) -> bool, nodes: seq<Node<K>>, r: seq<nat>, l: nat, q: nat)
    requires IsLevel(lt, nodes, r, l) && q < |r|
    ensures var next := nodes[r[q]].next[l]; next.Some? ==> next.value in r && next.value != 0 && next.value < |nodes|
  {
    hide NextIn;
    NextIs(r, q);
  }

  lemma EndStepKeeps<K(!new)>(lt: (K, K) -> bool, s: State<K>, s': State<K>)
    requires Inv(lt, s) && Next(lt, s, End, s')
    ensures Inv(lt, s')
  {
    hide IsList, Inserting, GoodReader;
  }

  lemma StepKeeps<K(!new)>(lt: (K, K) -> bool, s: State<K>, step: Step<K>, s': State<K>)
    requires WeakOrder(lt) && Inv(lt, s) && Next(lt, s, step, s')
    ensures Inv(lt, s')
  {
    hide WeakOrder, Inv, Next;
    match step
    case Begin(key, height, prev) => BeginStepKeeps(lt, s, key, height, prev, s');
    case SetOwn => SetOwnStepKeeps(lt, s, s');
    case Publish(p) => PublishStepKeeps(lt, s, p, s');
    case End => EndStepKeeps(lt, s, s');
    case StartSearch(target) => StartStepKeeps(lt, s, target, s');
    case SearchOn => SearchStepKeeps(lt, s, s');
  }

  ghost predicate Init<K(!new)>(s: State<K>) {
    |s.nodes| == 1
    && s == State([Node(s.nodes[0].key, seq(MAX_HEIGHT, i => None))], 1, None, Resting, seq(MAX_HEIGHT, i => [0]), {})
  }

  lemma InitInv<K(!new)>(lt: (K, K) -> bool, s: State<K>)
    requires Init(s)
    ensures Inv(lt, s)
  {
  }

  ghost predicate IsRun<K(!new)>(lt: (K, K) -> bool, states: seq<State<K>>, steps: seq<Step<K>>) {
    && |states| == |steps| + 1 && Init(states[0])
    && forall i | 0 <= i < |steps| :: Next(lt, states[i], steps[i], states[i + 1])
  }

  /** In every run of stores and loads, every level is sorted and part of the one below, and a search that has
      ended skipped no node that was in the list when it began. */
  lemma {:induction false} RunsKeep<K(!new)>(lt: (K, K) -> bool, states: seq<State<K>>, steps: seq<Step<K>>, n: nat)
    requires WeakOrder(lt) && IsRun(lt, states, steps) && n <= |steps|
    ensures Inv(lt, states[n])
    ensures IsList(lt, states[n].nodes, states[n].maxHeight, states[n].levels)
    ensures var s := states[n]; s.reader.Found? ==> !Skipped(lt, s.nodes, s.began, s.reader.target, s.reader.x, s.reader.next)
  {
    hide WeakOrder, Next, Init, IsList, Inserting, Skipped;
    if n == 0 {
      InitInv(lt, states[0]);
    } else {
      RunsKeep(lt, states, steps, n - 1);
      var i := n - 1;
      StepKeeps(lt, states[i], steps[i], states[i + 1]);
    }
  }
}
