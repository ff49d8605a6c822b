/** The skip list (db/skiplist.h). Nodes lie in an arena and are known by their index in it; the head is node
    0. Single-word stores are sequentially consistent. */
module SkipLists {
  import opened Keys

  const MAX_HEIGHT: nat := 12

  datatype Node<+K> = Node(key: K, next: seq<Option<nat>>)

  /** The comparator finds no difference. */
  predicate Same<K>(lt: (K, K) -> bool, a: K, b: K) {
    !lt(a, b) && !lt(b, a)
  }

  /** The store of one link. */
  function SetNext<K>(nodes: seq<Node<K>>, n: nat, l: nat, to: Option<nat>): (r: seq<Node<K>>)
    requires n < |nodes| && l < |nodes[n].next|
    ensures |r| == |nodes|
  {
    nodes[n := nodes[n].(next := nodes[n].next[l := to])]
  }

  lemma SetNextOnlyLinks<K>(nodes: seq<Node<K>>, n: nat, l: nat, to: Option<nat>)
    requires n < |nodes| && l < |nodes[n].next|
    ensures var r := SetNext(nodes, n, l, to);
      forall m | 0 <= m < |nodes| :: r[m].key == nodes[m].key && |r[m].next| == |nodes[m].next|
  {
  }

  function NextIn(r: seq<nat>, p: nat): Option<nat>
    requires p < |r|
  {
    if p + 1 < |r| then Some(r[p + 1]) else None
  }

  lemma NextIs(r: seq<nat>, p: nat)
    requires p < |r|
    ensures NextIn(r, p) == if p + 1 < |r| then Some(r[p + 1]) else None
  {
  }

  /** `r` lists the nodes of level `l`, from the head, by strictly increasing key, each linked to the next. */
  ghost predicate IsLevel<K(!new)>(lt: (K, K) -> bool, nodes: seq<Node<K>>, r: seq<nat>, l: nat) {
    && |r| > 0 && r[0] == 0
    && (forall i | 0 <= i < |r| :: r[i] < |nodes| && l < |nodes[r[i]].next|)
    && (forall i | 0 < i < |r| :: r[i] != 0)
    && (forall i, j | 0 < i < j < |r| :: lt(nodes[r[i]].key, nodes[r[j]].key))
    && (forall i | 0 <= i < |r| :: nodes[r[i]].next[l] == NextIn(r, i))
  }

  /** Every level is sorted and part of the one below; those from the list's height up are empty. */
  ghost predicate IsList<K(!new)>(lt: (K, K) -> bool, nodes: seq<Node<K>>, maxHeight: nat, levels: seq<seq<nat>>) {
    && |levels| == MAX_HEIGHT && 0 < maxHeight <= MAX_HEIGHT
    && (forall l | 0 <= l < MAX_HEIGHT :: IsLevel(lt, nodes, levels[l], l))
    && (forall l | 0 < l < MAX_HEIGHT :: forall n | n in levels[l] :: n in levels[l - 1])
    && (forall l | maxHeight <= l < MAX_HEIGHT :: levels[l] == [0])
  }

  /** The place in a level of the last node before the target; without a target, of the last node. */
  ghost predicate Splits<K(!new)>(lt: (K, K) -> bool, nodes: seq<Node<K>>, r: seq<nat>, target: Option<K>, p: nat)
    ensures Splits(lt, nodes, r, target, p) ==> p < |r|
  {
    && p < |r| && (forall i | 0 <= i < |r| :: r[i] < |nodes|)
    && (forall i | 0 < i <= p :: target.Some? ==> lt(nodes[r[i]].key, target.value))
    && (forall i | p < i < |r| :: target.Some? && !lt(nodes[r[i]].key, target.value))
  }

  /** A store of another level's link, or to a node not in the level, leaves the level as it is. */
  lemma StoreElsewhere<K(!new)>(lt: (K, K) -> bool, nodes: seq<Node<K>>, r: seq<nat>, l: nat, n: nat, m: nat, to: Option<nat>)
    requires IsLevel(lt, nodes, r, l) && n < |nodes| && m < |nodes[n].next| && (m != l || n !in r)
    ensures IsLevel(lt, SetNext(nodes, n, m, to), r, l)
  {
  }

  /** The level with a node put in behind place `p`. */
  function Linked(r: seq<nat>, p: nat, x: nat): seq<nat>
    requires p < |r|
  {
    r[..p + 1] + [x] + r[p + 1..]
  }

  /** Linking a node that already points to what follows its place keeps the level sorted. */
  lemma StoreLinks<K(!new)>(lt: (K, K) -> bool, nodes: seq<Node<K>>, r: seq<nat>, l: nat, p: nat, x: nat)
    requires WeakOrder(lt) && IsLevel(lt, nodes, r, l) && 0 < x < |nodes| && x !in r && l < |nodes[x].next|
    requires Splits(lt, nodes, r, Some(nodes[x].key), p)
    requires forall i | 0 < i < |r| :: !Same(lt, nodes[r[i]].key, nodes[x].key)
    requires nodes[x].next[l] == nodes[r[p]].next[l]
    ensures IsLevel(lt, SetNext(nodes, r[p], l, Some(x)), Linked(r, p, x), l)
  {
    hide NextIn, WeakOrder;
    var s, after := Linked(r, p, x), SetNext(nodes, r[p], l, Some(x));
    LinkedPlaces(r, p, x);
    DistinctInLevel(lt, nodes, r, l);
    forall i | 0 <= i < |s| ensures s[i] < |after| && l < |after[s[i]].next| && after[s[i]].next[l] == NextIn(s, i) {
      LinkedNext(r, p, x, i);
      if i < p {
        assert after[r[i]] == nodes[r[i]];
      } else if i > p + 1 {
        assert after[r[i - 1]] == nodes[r[i - 1]];
      }
    }
    LinkedAscends(lt, nodes, r, p, x);
    SetNextOnlyLinks(nodes, r[p], l, Some(x));
  }

  /** What follows each place once the node is linked in. */
  lemma LinkedNext(r: seq<nat>, p: nat, x: nat, i: nat)
    requires p < |r| && i <= |r|
    ensures var s := Linked(r, p, x);
      NextIn(s, i) == if i < p then NextIn(r, i) else if i == p then Some(x) else NextIn(r, i - 1)
  {
    LinkedPlaces(r, p, x);
  }

  lemma LinkedPlaces(r: seq<nat>, p: nat, x: nat)
    requires p < |r|
    ensures var s := Linked(r, p, x);
      |s| == |r| + 1 && forall i | 0 <= i < |s| :: s[i] == if i <= p then r[i] else if i == p + 1 then x else r[i - 1]
  {
  }

  lemma LinkedAscends<K(!new)>(lt: (K, K) -> bool, nodes: seq<Node<K>>, r: seq<nat>, p: nat, x: nat)
    requires WeakOrder(lt) && x < |nodes| && Splits(lt, nodes, r, Some(nodes[x].key), p)
    requires forall i | 0 < i < |r| :: !Same(lt, nodes[r[i]].key, nodes[x].key)
    requires forall i, j | 0 < i < j < |r| :: lt(nodes[r[i]].key, nodes[r[j]].key)
    ensures var s := Linked(r, p, x);
      (forall i | 0 <= i < |s| :: s[i] < |nodes|) && forall i, j | 0 < i < j < |s| :: lt(nodes[s[i]].key, nodes[s[j]].key)
  {
    var s := Linked(r, p, x);
    LinkedPlaces(r, p, x);
    forall i, j | 0 < i < j < |s| ensures lt(nodes[s[i]].key, nodes[s[j]].key) {
      var a, b := if i <= p then i else i - 1, if j <= p then j else j - 1;
      assert i != p + 1 ==> s[i] == r[a];
      assert j != p + 1 ==> s[j] == r[b];
    }
  }

  lemma DistinctInLevel<K(!new)>(lt: (K, K) -> bool, nodes: seq<Node<K>>, r: seq<nat>, l: nat)
    requires WeakOrder(lt) && IsLevel(lt, nodes, r, l)
    ensures forall i, j | 0 <= i < j < |r| :: r[i] != r[j]
  {
  }

  /** An unlinked node more in the arena changes no level. */
  lemma NewNodeElsewhere<K(!new)>(lt: (K, K) -> bool, nodes: seq<Node<K>>, r: seq<nat>, l: nat, node: Node<K>)
    requires IsLevel(lt, nodes, r, l)
    ensures IsLevel(lt, nodes + [node], r, l)
  {
  }

  /** What a search of a level does from one of its nodes: go to the next node, or stop before it. */
  ghost predicate Stays<K(!new)>(lt: (K, K) -> bool, nodes: seq<Node<K>>, x: nat, l: nat, target: Option<K>)
    requires x < |nodes| && l < |nodes[x].next|
  {
    match nodes[x].next[l]
    case None => true
    case Some(n) => n < |nodes| && target.Some? && !lt(nodes[n].key, target.value)
  }

  /** The node is in the level and before the target. */
  ghost predicate Before<K(!new)>(lt: (K, K) -> bool, nodes: seq<Node<K>>, r: seq<nat>, x: nat, target: Option<K>)
    ensures Before(lt, nodes, r, x, target) ==> x in r
  {
    x in r && (x == 0 || (x < |nodes| && (target.Some? ==> lt(nodes[x].key, target.value))))
  }

  /** A search that stays at a node has found the place of the target in the level. */
  lemma StayedAtSplit<K(!new)>(lt: (K, K) -> bool, nodes: seq<Node<K>>, r: seq<nat>, l: nat, x: nat, target: Option<K>) returns (p: nat)
    requires WeakOrder(lt) && IsLevel(lt, nodes, r, l) && Before(lt, nodes, r, x, target)
    requires x < |nodes| && l < |nodes[x].next| && Stays(lt, nodes, x, l, target)
    ensures Splits(lt, nodes, r, target, p) && r[p] == x
  {
    hide NextIn;
    p :| 0 <= p < |r| && r[p] == x;
    NextIs(r, p);
    if target.Some? {
      forall i | 0 < i <= p ensures lt(nodes[r[i]].key, target.value) {
      }
      forall i | p < i < |r| ensures !lt(nodes[r[i]].key, target.value) {
        assert nodes[r[p]].next[l] == Some(r[p + 1]);
        assert p + 1 < i ==> lt(nodes[r[p + 1]].key, nodes[r[i]].key);
      }
    }
  }

  /** An insertion under way: the new node `x` is linked in the levels below `i`; `own` says that its link at
      level `i` is set already. `prev` holds the node before its place in each level. */
  datatype Insertion = Insertion(x: nat, height: nat, prev: seq<nat>, i: nat, own: bool)

  ghost predicate IsPlace<K(!new)>(lt: (K, K) -> bool, nodes: seq<Node<K>>, r: seq<nat>, key: K, n: nat) {
    exists p: nat :: Splits(lt, nodes, r, Some(key), p) && r[p] == n
  }

  /** No other node of the level has the key of `x`. */
  ghost predicate NoOther<K(!new)>(lt: (K, K) -> bool, nodes: seq<Node<K>>, r: seq<nat>, x: nat)
    requires x < |nodes|
  {
    forall n | n in r && n != 0 && n != x :: n < |nodes| && !Same(lt, nodes[n].key, nodes[x].key)
  }

  ghost predicate Inserting<K(!new)>(lt: (K, K) -> bool, nodes: seq<Node<K>>, maxHeight: nat, levels: seq<seq<nat>>, w: Insertion)
    requires |levels| == MAX_HEIGHT
    ensures Inserting(lt, nodes, maxHeight, levels, w) ==>
      0 < w.x < |nodes| && w.i <= w.height <= |w.prev| && |nodes[w.x].next| == w.height <= MAX_HEIGHT
  {
    && 0 < w.x < |nodes| && 0 < w.height <= maxHeight <= MAX_HEIGHT && |nodes[w.x].next| == w.height <= |w.prev| && w.i <= w.height
    && (forall l | w.i <= l < w.height :: IsPlace(lt, nodes, levels[l], nodes[w.x].key, w.prev[l]))
    && (forall l | w.i <= l < MAX_HEIGHT :: w.x !in levels[l])
    && (forall l | 0 <= l < w.i :: w.x in levels[l])
    && (forall l | 0 <= l < MAX_HEIGHT :: NoOther(lt, nodes, levels[l], w.x))
  }

  ghost predicate OwnIsSet<K(!new)>(nodes: seq<Node<K>>, w: Insertion)
    requires w.x < |nodes| && w.i <= |nodes[w.x].next| && w.i <= |w.prev|
  {
    w.i < |nodes[w.x].next| && w.i < |w.prev| && w.prev[w.i] < |nodes| && w.i < |nodes[w.prev[w.i]].next|
    && nodes[w.x].next[w.i] == nodes[w.prev[w.i]].next[w.i]
  }

  /** The place for the next link is a node of the level. */
  lemma PlaceInLevel<K(!new)>(lt: (K, K) -> bool, nodes: seq<Node<K>>, maxHeight: nat, levels: seq<seq<nat>>, w: Insertion) returns (p: nat)
    requires IsList(lt, nodes, maxHeight, levels) && Inserting(lt, nodes, maxHeight, levels, w) && w.i < w.height
    ensures Splits(lt, nodes, levels[w.i], Some(nodes[w.x].key), p) && levels[w.i][p] == w.prev[w.i]
    ensures w.prev[w.i] < |nodes| && w.i < |nodes[w.prev[w.i]].next|
  {
    assert IsPlace(lt, nodes, levels[w.i], nodes[w.x].key, w.prev[w.i]);
    p :| Splits(lt, nodes, levels[w.i], Some(nodes[w.x].key), p) && levels[w.i][p] == w.prev[w.i];
    assert IsLevel(lt, nodes, levels[w.i], w.i);
  }

  lemma SamePlaces<K(!new)>(lt: (K, K) -> bool, nodes: seq<Node<K>>, after: seq<Node<K>>, r: seq<nat>, key: K, n: nat)
    requires IsPlace(lt, nodes, r, key, n) && |after| == |nodes| && forall m | 0 <= m < |nodes| :: after[m].key == nodes[m].key
    ensures IsPlace(lt, after, r, key, n)
  {
    var p: nat :| Splits(lt, nodes, r, Some(key), p) && r[p] == n;
    assert Splits(lt, after, r, Some(key), p);
  }

  /** The new node's own link is set: no level changes. */
  lemma SetOwnKeeps<K(!new)>(lt: (K, K) -> bool, nodes: seq<Node<K>>, maxHeight: nat, levels: seq<seq<nat>>, w: Insertion, to: Option<nat>)
    requires WeakOrder(lt) && IsList(lt, nodes, maxHeight, levels) && Inserting(lt, nodes, maxHeight, levels, w) && w.i < w.height
    ensures var after := SetNext(nodes, w.x, w.i, to);
      IsList(lt, after, maxHeight, levels) && Inserting(lt, after, maxHeight, levels, w)
  {
    hide IsLevel, IsPlace, WeakOrder;
    var after := SetNext(nodes, w.x, w.i, to);
    SetNextOnlyLinks(nodes, w.x, w.i, to);
    forall l | 0 <= l < MAX_HEIGHT ensures IsLevel(lt, after, levels[l], l) && forall n | n in levels[l] :: n < |nodes| {
      NotHead(lt, nodes, levels[l], l);
      StoreElsewhere(lt, nodes, levels[l], l, w.x, w.i, to);
    }
    forall l | w.i <= l < w.height ensures IsPlace(lt, after, levels[l], after[w.x].key, w.prev[l]) {
      SamePlaces(lt, nodes, after, levels[l], nodes[w.x].key, w.prev[l]);
    }
  }

  lemma NotHead<K(!new)>(lt: (K, K) -> bool, nodes: seq<Node<K>>, r: seq<nat>, l: nat)
    requires IsLevel(lt, nodes, r, l)
    ensures |nodes| > 0 && forall i | 0 < i < |r| :: r[i] != 0 && r[i] in r
    ensures forall n | n in r :: n < |nodes| && l < |nodes[n].next|
  {
  }

  lemma LinkedHolds(r: seq<nat>, p: nat, x: nat)
    requires p < |r|
    ensures forall n :: n in Linked(r, p, x) <==> n in r || n == x
  {
    LinkedPlaces(r, p, x);
    var s := Linked(r, p, x);
    forall n | n in r ensures n in s {
      var i :| 0 <= i < |r| && r[i] == n;
      assert s[if i <= p then i else i + 1] == n;
    }
    assert s[p + 1] == x;
  }

  /** The store that publishes the new node in a level puts it in its place there. */
  lemma PublishKeeps<K(!new)>(lt: (K, K) -> bool, nodes: seq<Node<K>>, maxHeight: nat, levels: seq<seq<nat>>, w: Insertion, p: nat)
    requires WeakOrder(lt) && IsList(lt, nodes, maxHeight, levels) && Inserting(lt, nodes, maxHeight, levels, w) && w.i < w.height
    requires Splits(lt, nodes, levels[w.i], Some(nodes[w.x].key), p) && levels[w.i][p] == w.prev[w.i]
    requires OwnIsSet(nodes, w)
    ensures var after, up := SetNext(nodes, w.prev[w.i], w.i, Some(w.x)), levels[w.i := Linked(levels[w.i], p, w.x)];
      IsList(lt, after, maxHeight, up) && Inserting(lt, after, maxHeight, up, w.(i := w.i + 1, own := false))
  {
    hide IsLevel, IsPlace, WeakOrder, Splits, Linked;
    var after, up := SetNext(nodes, w.prev[w.i], w.i, Some(w.x)), levels[w.i := Linked(levels[w.i], p, w.x)];
    SetNextOnlyLinks(nodes, w.prev[w.i], w.i, Some(w.x));
    LinkedHolds(levels[w.i], p, w.x);
    NotHead(lt, nodes, levels[w.i], w.i);
    StoreLinks(lt, nodes, levels[w.i], w.i, p, w.x);
    forall l | 0 <= l < MAX_HEIGHT ensures IsLevel(lt, after, up[l], l) && forall n | n in levels[l] :: n < |nodes| {
      NotHead(lt, nodes, levels[l], l);
      if l != w.i {
        StoreElsewhere(lt, nodes, levels[l], l, w.prev[w.i], w.i, Some(w.x));
      }
    }
    forall l | w.i < l < w.height ensures IsPlace(lt, after, up[l], after[w.x].key, w.prev[l]) {
      SamePlaces(lt, nodes, after, levels[l], nodes[w.x].key, w.prev[l]);
    }
  }

  /** A new node with a key of its own, in no level yet. */
  lemma BeginKeeps<K(!new)>(
      lt: (K, K) -> bool, nodes: seq<Node<K>>, maxHeight: nat, levels: seq<seq<nat>>, node: Node<K>, height: nat, raised: nat, prev: seq<nat>)
    requires WeakOrder(lt) && IsList(lt, nodes, maxHeight, levels) && 0 < height <= MAX_HEIGHT && |node.next| == height && |prev| >= height
    requires raised == if maxHeight < height then height else maxHeight
    requires forall l | 0 <= l < height :: if l < maxHeight then IsPlace(lt, nodes, levels[l], node.key, prev[l]) else prev[l] == 0
    requires forall n | n in levels[0] && n != 0 :: n < |nodes| && !Same(lt, nodes[n].key, node.key)
    ensures IsList(lt, nodes + [node], raised, levels)
    ensures Inserting(lt, nodes + [node], raised, levels, Insertion(|nodes|, height, prev, 0, false))
  {
    hide IsLevel, IsPlace, WeakOrder;
    var after := nodes + [node];
    forall l | 0 <= l < MAX_HEIGHT ensures IsLevel(lt, after, levels[l], l) {
      NewNodeElsewhere(lt, nodes, levels[l], l, node);
    }
    forall l | 0 <= l < MAX_HEIGHT
      ensures forall n | n in levels[l] :: n < |nodes| && n in levels[0]
    {
      InBottom(lt, nodes, maxHeight, levels, l);
    }
    assert after[|nodes|] == node && forall n | 0 <= n < |nodes| :: after[n] == nodes[n];
    forall l | 0 <= l < height ensures IsPlace(lt, after, levels[l], node.key, prev[l]) {
      PlaceWithMore(lt, nodes, levels[l], l, node, prev[l]);
    }
    NotHead(lt, nodes, levels[0], 0);
  }

  lemma PlaceWithMore<K(!new)>(lt: (K, K) -> bool, nodes: seq<Node<K>>, r: seq<nat>, l: nat, node: Node<K>, n: nat)
    requires IsLevel(lt, nodes, r, l) && (IsPlace(lt, nodes, r, node.key, n) || (r == [0] && n == 0))
    ensures IsPlace(lt, nodes + [node], r, node.key, n)
  {
    if r == [0] && n == 0 {
      assert Splits(lt, nodes + [node], r, Some(node.key), 0);
    } else {
      var p: nat :| Splits(lt, nodes, r, Some(node.key), p) && r[p] == n;
      assert Splits(lt, nodes + [node], r, Some(node.key), p);
    }
  }

  /** The nodes of every level are in the bottom one. */
  lemma {:induction false} InBottom<K(!new)>(lt: (K, K) -> bool, nodes: seq<Node<K>>, maxHeight: nat, levels: seq<seq<nat>>, l: nat)
    requires IsList(lt, nodes, maxHeight, levels) && l < MAX_HEIGHT
    ensures forall n | n in levels[l] :: n in levels[0] && n < |nodes|
  {
    assert IsLevel(lt, nodes, levels[l], l);
    if l > 0 {
      InBottom(lt, nodes, maxHeight, levels, l - 1);
    }
  }

  /** A place in the level with a node before the target. */
  ghost predicate AtPlace<K(!new)>(lt: (K, K) -> bool, nodes: seq<Node<K>>, r: seq<nat>, l: nat, q: nat, target: Option<K>)
    ensures AtPlace(lt, nodes, r, l, q, target) ==> q < |r| && r[q] < |nodes| && l < |nodes[r[q]].next| && nodes[r[q]].next[l] == NextIn(r, q)
    ensures AtPlace(lt, nodes, r, l, q, target) && q + 1 < |r| ==> r[q + 1] < |nodes|
  {
    IsLevel(lt, nodes, r, l) && q < |r| && Before(lt, nodes, r, r[q], target)
  }

  lemma AtHead<K(!new)>(lt: (K, K) -> bool, nodes: seq<Node<K>>, r: seq<nat>, l: nat, target: Option<K>)
    requires IsLevel(lt, nodes, r, l)
    ensures AtPlace(lt, nodes, r, l, 0, target) && r[0] == 0
  {
  }

  /** Going to the next node when it is before the target. */
  lemma PlaceForward<K(!new)>(lt: (K, K) -> bool, nodes: seq<Node<K>>, r: seq<nat>, l: nat, q: nat, target: Option<K>)
    requires AtPlace(lt, nodes, r, l, q, target) && !Stays(lt, nodes, r[q], l, target)
    ensures q + 1 < |r| && AtPlace(lt, nodes, r, l, q + 1, target)
  {
  }

  /** Going down a level from where the search stayed. */
  lemma PlaceDown<K(!new)>(
      lt: (K, K) -> bool, nodes: seq<Node<K>>, maxHeight: nat, levels: seq<seq<nat>>, l: nat, q: nat, target: Option<K>) returns (below: nat)
    requires IsList(lt, nodes, maxHeight, levels) && 0 < l < MAX_HEIGHT && AtPlace(lt, nodes, levels[l], l, q, target)
    ensures below < |levels[l - 1]| && levels[l - 1][below] == levels[l][q] && AtPlace(lt, nodes, levels[l - 1], l - 1, below, target)
  {
    assert levels[l][q] in levels[l - 1];
    below :| 0 <= below < |levels[l - 1]| && levels[l - 1][below] == levels[l][q];
  }

  /** Staying means that the place is that of the target. */
  lemma PlaceSplits<K(!new)>(lt: (K, K) -> bool, nodes: seq<Node<K>>, r: seq<nat>, l: nat, q: nat, target: Option<K>)
    requires WeakOrder(lt) && AtPlace(lt, nodes, r, l, q, target) && Stays(lt, nodes, r[q], l, target)
    ensures Splits(lt, nodes, r, target, q)
  {
    var p := StayedAtSplit(lt, nodes, r, l, r[q], target);
    DistinctInLevel(lt, nodes, r, l);
  }

  /** The keys of a level in order, without the head's. */
  ghost function KeysOf<K>(nodes: seq<Node<K>>, r: seq<nat>): (s: seq<K>)
    requires |r| > 0 && forall i | 0 < i < |r| :: r[i] < |nodes|
    ensures |s| == |r| - 1 && forall i | 0 < i < |r| :: nodes[r[i]].key == s[i - 1]
  {
    seq(|r| - 1, i requires 0 <= i < |r| - 1 => nodes[r[i + 1]].key)
  }

  class SkipList<K(==, !new)> {
    const lt: (K, K) -> bool
    var nodes: seq<Node<K>>
    var maxHeight: nat
    // The nodes of each level in order, from the head.
    ghost var levels: seq<seq<nat>>

    constructor (lt: (K, K) -> bool, any: K)
      requires WeakOrder(lt)
      ensures Valid() && this.lt == lt && Keys() == []
    {
      this.lt, maxHeight := lt, 1;
      nodes := [Node(any, seq(MAX_HEIGHT, i => None))];
      levels := seq(MAX_HEIGHT, i => [0]);
    }

    ghost predicate Valid()
      reads this
      ensures Valid() ==> WeakOrder(lt) && |levels| == MAX_HEIGHT && 0 < maxHeight <= MAX_HEIGHT
    {
      WeakOrder(lt) && IsList(lt, nodes, maxHeight, levels)
    }

    /** The keys of the list in order. */
    ghost function Keys(): seq<K>
      reads this
      requires Valid()
    {
      assert IsLevel(lt, nodes, levels[0], 0);
      KeysOf(nodes, levels[0])
    }

    lemma LevelIs(l: nat)
      requires Valid() && l < MAX_HEIGHT
      ensures IsLevel(lt, nodes, levels[l], l)
    {
    }

    lemma KeysAscend()
      requires Valid()
      ensures forall i, j | 0 <= i < j < |Keys()| :: lt(Keys()[i], Keys()[j])
    {
      LevelIs(0);
    }

    method FindGreaterOrEqual(key: K) returns (next: Option<nat>, prev: seq<nat>, ghost p: nat)
      requires Valid()
      ensures Splits(lt, nodes, levels[0], Some(key), p) && next == NextIn(levels[0], p)
      ensures |prev| == MAX_HEIGHT && forall l | 0 <= l < maxHeight :: IsPlace(lt, nodes, levels[l], key, prev[l])
    {
      hide WeakOrder, IsList, IsLevel, Splits, IsPlace, AtPlace, Stays;
      var x := 0;
      var level := maxHeight - 1;
      prev := seq(MAX_HEIGHT, i => 0);
      LevelIs(level);
      AtHead(lt, nodes, levels[level], level, Some(key));
      ghost var q: nat := 0;
      while true
        invariant 0 <= level < maxHeight && q < |levels[level]| && levels[level][q] == x
        invariant AtPlace(lt, nodes, levels[level], level, q, Some(key))
        invariant |prev| == MAX_HEIGHT && forall l | level < l < maxHeight :: IsPlace(lt, nodes, levels[l], key, prev[l])
        decreases level, |levels[level]| - q
      {
        next := nodes[x].next[level];
        StaysIf(lt, nodes, x, level, Some(key));
        if next.Some? && lt(nodes[next.value].key, key) {
          PlaceForward(lt, nodes, levels[level], level, q, Some(key));
          x := next.value;
          q := q + 1;
        } else {
          prev := prev[level := x];
          PlaceSplits(lt, nodes, levels[level], level, q, Some(key));
          IsPlaceAt(lt, nodes, levels[level], key, q);
          if level == 0 {
            p := q;
            return;
          } else {
            q := PlaceDown(lt, nodes, maxHeight, levels, level, q, Some(key));
            level := level - 1;
          }
        }
      }
    }

    method FindLessThan(key: K) returns (x: nat, ghost p: nat)
      requires Valid()
      ensures Splits(lt, nodes, levels[0], Some(key), p) && x == levels[0][p]
    {
      hide WeakOrder, IsList, IsLevel, Splits, AtPlace, Stays;
      x := 0;
      var level := maxHeight - 1;
      LevelIs(level);
      AtHead(lt, nodes, levels[level], level, Some(key));
      p := 0;
      while true
        invariant 0 <= level < maxHeight && p < |levels[level]| && levels[level][p] == x
        invariant AtPlace(lt, nodes, levels[level], level, p, Some(key))
        decreases level, |levels[level]| - p
      {
        var next := nodes[x].next[level];
        StaysIf(lt, nodes, x, level, Some(key));
        if next == None || !lt(nodes[next.value].key, key) {
          if level == 0 {
            PlaceSplits(lt, nodes, levels[level], level, p, Some(key));
            return;
          } else {
            p := PlaceDown(lt, nodes, maxHeight, levels, level, p, Some(key));
            level := level - 1;
          }
        } else {
          PlaceForward(lt, nodes, levels[level], level, p, Some(key));
          x := next.value;
          p := p + 1;
        }
      }
    }

    method FindLast() returns (x: nat)
      requires Valid()
      ensures levels[0] != [] && x == levels[0][|levels[0]| - 1]
    {
      hide WeakOrder, IsList, IsLevel, AtPlace, Stays;
      x := 0;
      var level := maxHeight - 1;
      LevelIs(level);
      AtHead(lt, nodes, levels[level], level, None);
      ghost var p: nat := 0;
      while true
        invariant 0 <= level < maxHeight && p < |levels[level]| && levels[level][p] == x
        invariant AtPlace(lt, nodes, levels[level], level, p, None)
        decreases level, |levels[level]| - p
      {
        var next := nodes[x].next[level];
        StaysIf(lt, nodes, x, level, None);
        if next == None {
          if level == 0 {
            return;
          } else {
            p := PlaceDown(lt, nodes, maxHeight, levels, level, p, None);
            level := level - 1;
          }
        } else {
          PlaceForward(lt, nodes, levels[level], level, p, None);
          x := next.value;
          p := p + 1;
        }
      }
    }

    /** Puts a new key in its place; `height` is what RandomHeight draws. */
    method Insert(key: K, height: nat)
      requires Valid() && (forall k | k in Keys() :: !Same(lt, k, key)) && 0 < height <= MAX_HEIGHT
      modifies this
      ensures Valid() && exists p :: 0 <= p <= |old(Keys())| && Keys() == old(Keys())[..p] + [key] + old(Keys())[p..]
    {
      hide WeakOrder, IsList, IsLevel, Splits, IsPlace, Inserting, OwnIsSet, Linked;
      KeysAreNodes();
      ghost var was, keys := levels, Keys();
      var x, prev, p := FindGreaterOrEqual(key);
      var raised := maxHeight;
      if height > maxHeight {
        for i := maxHeight to height
          invariant |prev| == MAX_HEIGHT
          invariant forall l | maxHeight <= l < i :: prev[l] == 0
          invariant forall l | 0 <= l < maxHeight :: IsPlace(lt, nodes, levels[l], key, prev[l])
        {
          prev := prev[i := 0];
        }
        raised := height;
      }
      var node := Node(key, seq(height, i => None));
      BeginKeeps(lt, nodes, maxHeight, levels, node, height, raised, prev);
      var n := |nodes|;
      ghost var start, place: nat := nodes + [node], 0;
      maxHeight := raised;
      nodes := nodes + [node];
      for i := 0 to height
        invariant |levels| == MAX_HEIGHT && IsList(lt, nodes, maxHeight, levels)
        invariant Inserting(lt, nodes, maxHeight, levels, Insertion(n, height, prev, i, false))
        invariant place < |was[0]| && levels[0] == if i == 0 then was[0] else Linked(was[0], place, n)
        invariant SameKeys(start, nodes)
      {
        ghost var at := LinkLevel(n, height, prev, i);
        place := if i == 0 then at else place;
      }
      KeysAfter(was[0], place, n, keys);
    }

    /** The two stores of one turn of Insert's loop. After each of them every level is sorted and part of the
        one below. */
    method LinkLevel(x: nat, height: nat, prev: seq<nat>, i: nat) returns (ghost p: nat)
      requires WeakOrder(lt) && |levels| == MAX_HEIGHT && IsList(lt, nodes, maxHeight, levels) && i < height
      requires Inserting(lt, nodes, maxHeight, levels, Insertion(x, height, prev, i, false))
      modifies this`nodes, this`levels
      ensures |levels| == MAX_HEIGHT && IsList(lt, nodes, maxHeight, levels)
      ensures Inserting(lt, nodes, maxHeight, levels, Insertion(x, height, prev, i + 1, false))
      ensures p < |old(levels)[i]| && levels == old(levels)[i := Linked(old(levels)[i], p, x)]
      ensures SameKeys(old(nodes), nodes)
    {
      hide WeakOrder, IsList, IsLevel, Splits, IsPlace, Inserting, Linked;
      ghost var w := Insertion(x, height, prev, i, false);
      p := PlaceInLevel(lt, nodes, maxHeight, levels, w);
      ghost var key := nodes[x].key;
      var next := nodes[prev[i]].next[i];
      SetOwnKeeps(lt, nodes, maxHeight, levels, w, next);
      SetNextOnlyLinks(nodes, x, i, next);
      nodes := SetNext(nodes, x, i, next);
      assert IsList(lt, nodes, maxHeight, levels);
      p := PlaceInLevel(lt, nodes, maxHeight, levels, w);
      assert OwnIsSet(nodes, w);
      PublishKeeps(lt, nodes, maxHeight, levels, w, p);
      SetNextOnlyLinks(nodes, prev[i], i, Some(x));
      nodes := SetNext(nodes, prev[i], i, Some(x));
      levels := levels[i := Linked(levels[i], p, x)];
    }

    /** The keys with a new one linked in. */
    lemma KeysAfter(r: seq<nat>, p: nat, x: nat, keys: seq<K>)
      requires Valid() && p < |r| && levels[0] == Linked(r, p, x) && |keys| == |r| - 1
      requires forall i | 0 < i < |r| :: r[i] < |nodes| && nodes[r[i]].key == keys[i - 1]
      ensures x < |nodes| && Keys() == keys[..p] + [nodes[x].key] + keys[p..]
    {
      hide NextIn, WeakOrder;
      LinkedPlaces(r, p, x);
      assert IsLevel(lt, nodes, levels[0], 0);
      assert levels[0][p + 1] == x;
    }

    lemma KeysAreNodes()
      requires Valid()
      ensures forall m | m in levels[0] && m != 0 :: m < |nodes| && nodes[m].key in Keys()
    {
      forall m | m in levels[0] && m != 0 ensures m < |nodes| && nodes[m].key in Keys() {
        assert IsLevel(lt, nodes, levels[0], 0);
        var i :| 0 <= i < |levels[0]| && levels[0][i] == m;
        assert Keys()[i - 1] == nodes[m].key;
      }
    }
  }

  lemma StaysIf<K(!new)>(lt: (K, K) -> bool, nodes: seq<Node<K>>, x: nat, l: nat, target: Option<K>)
    requires x < |nodes| && l < |nodes[x].next| && (nodes[x].next[l].Some? ==> nodes[x].next[l].value < |nodes|)
    ensures Stays(lt, nodes, x, l, target) <==>
      var next := nodes[x].next[l]; next == None || (target.Some? && !lt(nodes[next.value].key, target.value))
  {
  }

  lemma IsPlaceAt<K(!new)>(lt: (K, K) -> bool, nodes: seq<Node<K>>, r: seq<nat>, key: K, p: nat)
    requires Splits(lt, nodes, r, Some(key), p)
    ensures IsPlace(lt, nodes, r, key, r[p])
  {
  }

  /** The arena holds the same keys. */
  ghost predicate SameKeys<K(!new)>(a: seq<Node<K>>, b: seq<Node<K>>) {
    |a| == |b| && forall m | 0 <= m < |a| :: b[m].key == a[m].key
  }
}
