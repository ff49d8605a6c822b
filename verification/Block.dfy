/** Blocks of prefix-compressed entries (table/block_builder.cc, table/block.cc). */
module Blocks {
  import opened Keys
  import opened Coding
  import Comparators

  datatype Pair = Pair(key: Bytes, value: Bytes)

  ghost predicate SortedPairs(lt: (Bytes, Bytes) -> bool, es: seq<Pair>) {
    forall i, j | 0 <= i < j < |es| :: lt(es[i].key, es[j].key)
  }

  /** One entry, of whose key the first `shared` bytes are left out. */
  function EncodeEntry(shared: nat, e: Pair): (r: Bytes)
    requires shared <= |e.key|
    ensures |r| >= 3
  {
    Varint(shared) + (Varint(|e.key| - shared) + (Varint(|e.value|) + (e.key[shared..] + e.value)))
  }

  /** The lengths at the front of an entry: of the shared part and the rest of its key and of its value, and
      of themselves. */
  datatype Header = Header(shared: nat, nonShared: nat, valueLength: nat, size: nat)

  function DecodeEntry(s: Bytes): Option<Header> {
    if |s| < 3 then None
    else if s[0] < 128 && s[1] < 128 && s[2] < 128 then
      CheckedHeader(s, s[0], s[1], s[2], s[3..])
    else
      match GetVarint32(s)
      case None => None
      case Some(a) =>
        match GetVarint32(a.rest)
        case None => None
        case Some(b) =>
          match GetVarint32(b.rest)
          case None => None
          case Some(c) => CheckedHeader(s, a.value, b.value, c.value, c.rest)
  }

  /** The sum of the lengths is taken in 32 bits. */
  function CheckedHeader(s: Bytes, shared: nat, nonShared: nat, valueLength: nat, rest: Bytes): Option<Header> {
    if |rest| > |s| || |rest| < (nonShared + valueLength) % TWO_32 then None
    else Some(Header(shared, nonShared, valueLength, |s| - |rest|))
  }

  lemma SmallVarint(v: nat, rest: Bytes)
    ensures v < 128 ==> Varint(v) == [v]
    ensures v >= 128 ==> Varint(v)[0] >= 128
  {
  }

  /** An entry at the front of the bytes is decoded. */
  lemma {:induction false} EntryRoundTrip(shared: nat, e: Pair, rest: Bytes)
    requires shared <= |e.key| && |e.key| + |e.value| < TWO_32
    ensures var s := EncodeEntry(shared, e) + rest;
      var size := |EncodeEntry(shared, e)| - (|e.key| - shared) - |e.value|;
      && size >= 3
      && DecodeEntry(s) == Some(Header(shared, |e.key| - shared, |e.value|, size))
      && s[size..size + |e.key| - shared] == e.key[shared..]
      && s[size + |e.key| - shared..|EncodeEntry(shared, e)|] == e.value
  {
    hide Varint, GetVarint32;
    var tail := e.key[shared..] + e.value + rest;
    var n, v := |e.key| - shared, |e.value|;
    var s := EncodeEntry(shared, e) + rest;
    var head := Varint(shared) + Varint(n) + Varint(v);
    assert s == head + tail;
    assert s == Varint(shared) + (Varint(n) + (Varint(v) + tail));
    assert s[|head|..] == tail;
    assert tail[..n] == e.key[shared..] && tail[n..n + v] == e.value;
    Slices(s, head, tail, n, v);
    SmallVarint(shared, []);
    SmallVarint(n, []);
    SmallVarint(v, []);
    if s[0] < 128 && s[1] < 128 && s[2] < 128 {
      FastPath(shared, n, v, tail);
    } else {
      Varint32RoundTrip(shared, Varint(n) + (Varint(v) + tail));
      Varint32RoundTrip(n, Varint(v) + tail);
      Varint32RoundTrip(v, tail);
    }
  }

  lemma Slices(s: Bytes, head: Bytes, tail: Bytes, n: nat, v: nat)
    requires s == head + tail && n + v <= |tail|
    ensures s[|head|..|head| + n] == tail[..n] && s[|head| + n..|head| + n + v] == tail[n..n + v]
  {
  }

  /** Three bytes below 128 are the three lengths. */
  lemma FastPath(a: nat, b: nat, c: nat, tail: Bytes)
    requires var s := Varint(a) + (Varint(b) + (Varint(c) + tail)); s[0] < 128 && s[1] < 128 && s[2] < 128
    ensures a < 128 && b < 128 && c < 128
    ensures var s := Varint(a) + (Varint(b) + (Varint(c) + tail)); s[0] == a && s[1] == b && s[2] == c && s[3..] == tail
  {
    hide Varint;
    var s := Varint(a) + (Varint(b) + (Varint(c) + tail));
    SmallVarint(a, []);
    assert s[0] == Varint(a)[0];
    assert s[1..] == Varint(b) + (Varint(c) + tail);
    SmallVarint(b, []);
    assert s[1] == Varint(b)[0];
    assert s[2..] == Varint(c) + tail;
    SmallVarint(c, []);
    assert s[2] == Varint(c)[0];
    assert s[3..] == tail;
  }

  /** How entries lie in a buffer: the shared length of each, where each begins and the last ends, and which of
      them are restart points. */
  datatype Layout = Layout(entries: seq<Pair>, shared: seq<nat>, offsets: seq<nat>, points: seq<nat>) {
    ghost predicate Shaped()
      ensures Shaped() ==> |shared| == |entries| && |offsets| == |entries| + 1
      ensures Shaped() ==> forall i | 0 <= i < |entries| :: shared[i] <= |entries[i].key|
    {
      && |shared| == |entries| && |offsets| == |entries| + 1 && offsets[0] == 0
      && forall i | 0 <= i < |entries| ::
        shared[i] <= |entries[i].key| && offsets[i + 1] == offsets[i] + |EncodeEntry(shared[i], entries[i])|
    }

    /** An entry shares no more than its key has in common with the one before. */
    ghost predicate Shares()
      requires Shaped()
    {
      && (|entries| > 0 ==> shared[0] == 0)
      && forall i | 0 < i < |entries| :: shared[i] <= |entries[i - 1].key| && entries[i].key[..shared[i]] == entries[i - 1].key[..shared[i]]
    }

    /** Restart points ascend from the first entry and share nothing. */
    ghost predicate Restarts()
      requires Shaped()
    {
      && |points| > 0 && points[0] == 0
      && (forall r, q | 0 <= r < q < |points| :: points[r] < points[q])
      && (forall r | 0 <= r < |points| :: points[r] <= |entries|)
      && (forall r | 0 < r < |points| :: points[r] < |entries|)
      && (forall r | 0 <= r < |points| && points[r] < |entries| :: shared[points[r]] == 0)
    }

    /** The bytes of the entries are in the buffer. */
    ghost predicate In(buffer: Bytes)
      requires Shaped()
    {
      && offsets[|entries|] == |buffer|
      && (forall i | 0 <= i <= |entries| :: offsets[i] <= |buffer|)
      && forall i | 0 <= i < |entries| :: buffer[offsets[i]..offsets[i + 1]] == EncodeEntry(shared[i], entries[i])
    }

    /** Where the restart points lie. */
    ghost function RestartOffsets(): (r: seq<nat>)
      requires Shaped() && Restarts()
      ensures |r| == |points| && forall i | 0 <= i < |points| :: r[i] == offsets[points[i]]
    {
      seq(|points|, i requires 0 <= i < |points| => offsets[points[i]])
    }
  }

  ghost predicate Laid(layout: Layout, buffer: Bytes)
    ensures Laid(layout, buffer) ==> layout.Shaped() && layout.Restarts()
  {
    layout.Shaped() && layout.Shares() && layout.Restarts() && layout.In(buffer)
  }

  lemma {:induction false} OffsetsAscend(layout: Layout, i: nat, j: nat)
    requires layout.Shaped() && i <= j <= |layout.entries|
    ensures layout.offsets[i] + 3 * (j - i) <= layout.offsets[j]
  {
    if i < j {
      OffsetsAscend(layout, i, j - 1);
    }
  }

  /** The layout with one more entry at its end, as a restart point or not. */
  ghost function Grown(layout: Layout, shared: nat, e: Pair, restart: bool): Layout
    requires layout.Shaped() && shared <= |e.key|
  {
    var n := |layout.entries|;
    Layout(layout.entries + [e], layout.shared + [shared], layout.offsets + [layout.offsets[n] + |EncodeEntry(shared, e)|],
      if restart then layout.points + [n] else layout.points)
  }

  lemma ShapedGrows(layout: Layout, shared: nat, e: Pair, restart: bool)
    requires layout.Shaped() && shared <= |e.key|
    ensures Grown(layout, shared, e, restart).Shaped()
  {
    hide EncodeEntry;
  }

  lemma SharesGrows(layout: Layout, shared: nat, e: Pair, restart: bool)
    requires layout.Shaped() && layout.Shares() && shared <= |e.key| && Grown(layout, shared, e, restart).Shaped()
    requires layout.entries == [] ==> shared == 0
    requires layout.entries != [] ==>
      var last := layout.entries[|layout.entries| - 1].key; shared <= |last| && e.key[..shared] == last[..shared]
    ensures Grown(layout, shared, e, restart).Shares()
  {
    hide EncodeEntry, Layout.Shaped;
    var n, next := |layout.entries|, Grown(layout, shared, e, restart);
    forall i | 0 < i < n + 1
      ensures next.shared[i] <= |next.entries[i - 1].key| && next.entries[i].key[..next.shared[i]] == next.entries[i - 1].key[..next.shared[i]]
    {
      assert next.entries[i - 1] == layout.entries[i - 1];
    }
  }

  lemma RestartsGrows(layout: Layout, shared: nat, e: Pair, restart: bool)
    requires layout.Shaped() && layout.Restarts() && shared <= |e.key| && Grown(layout, shared, e, restart).Shaped()
    requires restart || layout.entries == [] ==> shared == 0
    requires restart ==> layout.points[|layout.points| - 1] < |layout.entries|
    ensures Grown(layout, shared, e, restart).Restarts()
  {
    hide EncodeEntry;
  }

  lemma InGrows(layout: Layout, buffer: Bytes, shared: nat, e: Pair, restart: bool)
    requires layout.Shaped() && layout.In(buffer) && shared <= |e.key| && Grown(layout, shared, e, restart).Shaped()
    ensures Grown(layout, shared, e, restart).In(buffer + EncodeEntry(shared, e))
  {
    hide EncodeEntry, Layout.Shaped;
    var n := |layout.entries|;
    var bytes := EncodeEntry(shared, e);
    var next, more := Grown(layout, shared, e, restart), buffer + bytes;
    forall i | 0 <= i <= n + 1 ensures next.offsets[i] <= |more| {
    }
    forall i | 0 <= i < n + 1
      ensures next.offsets[i] <= next.offsets[i + 1] && more[next.offsets[i]..next.offsets[i + 1]] == EncodeEntry(next.shared[i], next.entries[i])
    {
      if i < n {
        OffsetsAscend(layout, i, i + 1);
        assert more[layout.offsets[i]..layout.offsets[i + 1]] == buffer[layout.offsets[i]..layout.offsets[i + 1]];
      } else {
        assert more[|buffer|..|buffer| + |bytes|] == bytes;
      }
    }
  }

  lemma LaidGrows(layout: Layout, buffer: Bytes, shared: nat, e: Pair, restart: bool)
    requires Laid(layout, buffer) && shared <= |e.key| && (restart || layout.entries == [] ==> shared == 0)
    requires restart ==> layout.points[|layout.points| - 1] < |layout.entries|
    requires layout.entries != [] ==>
      var last := layout.entries[|layout.entries| - 1].key; shared <= |last| && e.key[..shared] == last[..shared]
    ensures Laid(Grown(layout, shared, e, restart), buffer + EncodeEntry(shared, e))
  {
    hide EncodeEntry, Layout.Shaped, Layout.Shares, Layout.Restarts, Layout.In;
    ShapedGrows(layout, shared, e, restart);
    SharesGrows(layout, shared, e, restart);
    RestartsGrows(layout, shared, e, restart);
    InGrows(layout, buffer, shared, e, restart);
  }

  function EncodeRestarts(restarts: seq<nat>): (r: Bytes)
    ensures |r| == 4 * |restarts|
  {
    if restarts == [] then [] else EncodeRestarts(restarts[..|restarts| - 1]) + EncodeFixed32(restarts[|restarts| - 1])
  }

  /** A finished block: the entries, the restart array and its length. */
  function BlockBytes(buffer: Bytes, restarts: seq<nat>): Bytes {
    buffer + EncodeRestarts(restarts) + EncodeFixed32(|restarts|)
  }

  /** The state of a builder: the buffer, the restart points, the number of entries since the last of them and
      the last key are those of the layout. */
  ghost predicate Building(layout: Layout, buffer: Bytes, restarts: seq<nat>, counter: nat, lastKey: Bytes)
    ensures Building(layout, buffer, restarts, counter, lastKey) ==> Laid(layout, buffer) && restarts == layout.RestartOffsets()
  {
    && Laid(layout, buffer) && restarts == layout.RestartOffsets() && |layout.entries| == layout.points[|layout.points| - 1] + counter
    && lastKey == if layout.entries == [] then [] else layout.entries[|layout.entries| - 1].key
  }

  const NO_ENTRIES: Layout := Layout([], [], [0], [0])

  /** The number of entries since the last restart point, after `n`. */
  ghost function CounterAfter(interval: nat, n: nat): nat {
    if n == 0 then 0 else if CounterAfter(interval, n - 1) < interval then CounterAfter(interval, n - 1) + 1 else 1
  }

  lemma NoEntriesShaped()
    ensures NO_ENTRIES.Shaped()
  {
  }

  /** The layout that a builder gives some entries. */
  ghost function LayoutOf(interval: nat, es: seq<Pair>): (r: Layout)
    ensures r.Shaped() && r.entries == es && |r.shared| == |es| && |r.offsets| == |es| + 1
  {
    hide EncodeEntry, Layout.Shaped;
    NoEntriesShaped();
    if es == [] then NO_ENTRIES
    else
      var init, e := es[..|es| - 1], es[|es| - 1];
      var restart := init != [] && CounterAfter(interval, |init|) >= interval;
      var shared := if init == [] || restart then 0 else Comparators.DiffIndex(init[|init| - 1].key, e.key);
      ShapedGrows(LayoutOf(interval, init), shared, e, restart);
      Grown(LayoutOf(interval, init), shared, e, restart)
  }

  /** How large a block the entries make. */
  ghost function Estimate(interval: nat, es: seq<Pair>): nat {
    var l := LayoutOf(interval, es);
    l.offsets[|es|] + 4 * |l.points| + 4
  }

  lemma LayoutGrows(interval: nat, es: seq<Pair>, counter: nat, shared: nat, e: Pair)
    requires counter == CounterAfter(interval, |es|) && interval >= 1 && shared <= |e.key|
    requires counter < interval ==> shared == Comparators.DiffIndex(if es == [] then [] else es[|es| - 1].key, e.key)
    requires counter >= interval ==> shared == 0
    ensures LayoutOf(interval, es + [e]) == Grown(LayoutOf(interval, es), shared, e, counter >= interval)
    ensures CounterAfter(interval, |es| + 1) == if counter < interval then counter + 1 else 1
  {
    var all := es + [e];
    assert all[..|all| - 1] == es;
  }

  lemma DiffIs(a: Bytes, b: Bytes, n: nat)
    requires n <= |a| && n <= |b| && a[..n] == b[..n] && (n < |a| && n < |b| ==> a[n] != b[n])
    ensures Comparators.DiffIndex(a, b) == n
  {
    assert forall i | 0 <= i < n :: a[i] == a[..n][i] && b[i] == b[..n][i];
  }

  function Rem(a: nat, m: nat): nat
    requires m > 0
  {
    a % m
  }

  lemma NextRem(a: nat, m: nat)
    requires m > 0
    ensures Rem(a + 1, m) == if Rem(a, m) + 1 < m then Rem(a, m) + 1 else 0
    ensures Rem(a, m) < m && Rem(0, m) == 0
  {
    var q, r := a / m, a % m;
    if r + 1 < m {
      Remainder(a + 1, m, q, r + 1);
    } else {
      Remainder(a + 1, m, q + 1, 0);
    }
  }

  lemma Multiple(k: int, m: nat)
    ensures k >= 1 ==> k * m >= m
    ensures k <= -1 ==> k * m <= -(m as int)
  {
    if k >= 1 {
      assert (k - 1) * m >= 0;
    } else if k <= -1 {
      assert (-k - 1) * m >= 0;
    }
  }

  lemma Remainder(x: nat, m: nat, q: nat, r: nat)
    requires r < m && x == q * m + r
    ensures x % m == r
  {
    Multiple(q - x / m, m);
    assert (q - x / m) * m == x % m - r;
  }

  lemma {:induction false} CounterMeans(interval: nat, n: nat)
    requires interval >= 1 && n > 0
    ensures CounterAfter(interval, n) == Rem(n - 1, interval) + 1
    ensures CounterAfter(interval, n) >= interval <==> Rem(n, interval) == 0
  {
    hide Rem;
    NextRem(n - 1, interval);
    if n > 1 {
      CounterMeans(interval, n - 1);
      NextRem(n - 2, interval);
    }
  }

  /** Every entry at a multiple of the interval is a restart point, which shares nothing; any other shares all
      that its key has in common with the one before. */
  lemma {:induction false} LayoutMeans(interval: nat, es: seq<Pair>, i: nat)
    requires interval >= 1 && i < |es|
    ensures var l := LayoutOf(interval, es);
      && l.shared[i] == (if Rem(i, interval) == 0 then 0 else Comparators.DiffIndex(es[i - 1].key, es[i].key))
      && (i in l.points <==> Rem(i, interval) == 0) && PointsWithin(l, |es|)
    decreases |es|
  {
    hide Layout.Shaped, EncodeEntry, LayoutOf, CounterAfter, Rem, PointsWithin;
    var init, e := es[..|es| - 1], es[|es| - 1];
    assert es == init + [e];
    NextRem(0, interval);
    if init == [] {
      FirstLayout(interval, e);
    } else {
      CounterMeans(interval, |init|);
      var counter := CounterAfter(interval, |init|);
      var shared := if counter < interval then Comparators.DiffIndex(init[|init| - 1].key, e.key) else 0;
      LayoutGrows(interval, init, counter, shared, e);
      LayoutMeans(interval, init, if i < |init| then i else 0);
      GrownPoints(LayoutOf(interval, init), shared, e, counter >= interval);
    }
  }

  ghost predicate PointsWithin(l: Layout, n: nat) {
    forall r | 0 <= r < |l.points| :: l.points[r] < n
  }

  lemma FirstLayout(interval: nat, e: Pair)
    ensures var l := LayoutOf(interval, [e]); l.shared == [0] && l.points == [0] && PointsWithin(l, 1)
  {
    hide Layout.Shaped, EncodeEntry;
    assert [e][..0] == [] && LayoutOf(interval, []) == NO_ENTRIES;
  }

  lemma GrownPoints(l: Layout, shared: nat, e: Pair, restart: bool)
    requires l.Shaped() && shared <= |e.key| && PointsWithin(l, |l.entries|)
    ensures var next := Grown(l, shared, e, restart);
      && PointsWithin(next, |l.entries| + 1) && (|l.entries| in next.points <==> restart)
      && (forall i | 0 <= i < |l.entries| :: i in next.points <==> i in l.points)
      && next.shared[|l.entries|] == shared && forall i | 0 <= i < |l.entries| :: next.shared[i] == l.shared[i]
  {
    hide EncodeEntry;
  }

  lemma BuildingNothing()
    ensures Building(NO_ENTRIES, [], [0], 0, [])
  {
  }

  lemma BuildingGrows(layout: Layout, buffer: Bytes, restarts: seq<nat>, counter: nat, lastKey: Bytes, shared: nat, e: Pair, restart: bool)
    requires Building(layout, buffer, restarts, counter, lastKey)
    requires shared <= |e.key| && shared <= |lastKey| && e.key[..shared] == lastKey[..shared]
    requires restart ==> shared == 0 && counter > 0
    ensures Building(Grown(layout, shared, e, restart), buffer + EncodeEntry(shared, e),
      if restart then restarts + [|buffer|] else restarts, if restart then 1 else counter + 1, e.key)
  {
    hide EncodeEntry, Layout.Shaped, Layout.Shares, Layout.In;
    LaidGrows(layout, buffer, shared, e, restart);
    AtEnd(layout, buffer);
    GrownRestarts(layout, buffer, shared, e, restart);
  }

  class BlockBuilder {
    const interval: nat
    var buffer: Bytes
    var restarts: seq<nat>
    var counter: nat
    var finished: bool
    var lastKey: Bytes
    ghost var layout: Layout

    constructor (interval: nat)
      requires interval >= 1
      ensures Valid() && this.interval == interval && !finished && layout.entries == [] && CurrentSizeEstimate() == 8
    {
      this.interval := interval;
      buffer, restarts, counter, finished, lastKey := [], [0], 0, false, [];
      layout := NO_ENTRIES;
      BuildingNothing();
    }

    method Reset()
      requires interval >= 1
      modifies this
      ensures Valid() && !finished && layout.entries == [] && buffer == [] && CurrentSizeEstimate() == 8
    {
      buffer, restarts, counter, finished, lastKey := [], [0], 0, false, [];
      layout := NO_ENTRIES;
      BuildingNothing();
    }

    /** The buffer holds the entries added, and the counter says how many since the last restart point. */
    ghost predicate Valid()
      reads this
      ensures Valid() ==> interval >= 1 && |restarts| > 0
    {
      && interval >= 1 && counter <= interval && |restarts| > 0
      && (!finished ==> Building(layout, buffer, restarts, counter, lastKey))
      && layout == LayoutOf(interval, layout.entries) && (!finished ==> counter == CounterAfter(interval, |layout.entries|))
    }

    function CurrentSizeEstimate(): nat
      reads this
    {
      |buffer| + |restarts| * 4 + 4
    }

    predicate Empty()
      reads this
    {
      buffer == []
    }

    lemma EstimateIs()
      requires Valid() && !finished
      ensures CurrentSizeEstimate() == Estimate(interval, layout.entries)
    {
      hide Layout.Shares, Layout.Restarts;
    }

    lemma EmptyIs()
      requires Valid() && !finished
      ensures Empty() <==> layout.entries == []
    {
      EmptyMeans(layout, buffer);
    }

    /** How much of a key its predecessor begins with. */
    method SharedWithLast(key: Bytes) returns (shared: nat)
      ensures shared <= |key| && shared <= |lastKey| && lastKey[..shared] == key[..shared]
      ensures shared < |key| && shared < |lastKey| ==> lastKey[shared] != key[shared]
    {
      shared := 0;
      var minLength := if |lastKey| < |key| then |lastKey| else |key|;
      while shared < minLength && lastKey[shared] == key[shared]
        invariant shared <= minLength && lastKey[..shared] == key[..shared]
      {
        assert lastKey[..shared + 1] == lastKey[..shared] + [lastKey[shared]];
        assert key[..shared + 1] == key[..shared] + [key[shared]];
        shared := shared + 1;
      }
    }

    method Add(key: Bytes, value: Bytes)
      requires Valid() && !finished
      modifies this
      ensures Valid() && !finished && layout.entries == old(layout).entries + [Pair(key, value)]
      ensures |key| < TWO_32 && |value| < TWO_32 ==> CurrentSizeEstimate() <= old(CurrentSizeEstimate()) + 19 + |key| + |value|
      ensures buffer != []
    {
      hide Building, EncodeEntry, LayoutOf, CounterAfter, Grown, Layout.Shaped, Comparators.DiffIndex, Varint, Laid, Layout.RestartOffsets;
      var shared: nat := 0;
      ghost var e, was, restart := Pair(key, value), counter, false;
      if counter < interval {
        shared := SharedWithLast(key);
        DiffIs(lastKey, key, shared);
      } else {
        restarts := restarts + [|buffer|];
        counter := 0;
        restart := true;
      }
      BuildingGrows(layout, buffer, old(restarts), was, lastKey, shared, e, restart);
      var nonShared := |key| - shared;
      buffer := buffer + Varint(shared) + Varint(nonShared) + Varint(|value|) + key[shared..] + value;
      Joined4(old(buffer), Varint(shared), Varint(nonShared), Varint(|value|), key[shared..], value);
      lastKey := lastKey[..shared] + key[shared..];
      assert lastKey == key;
      EntryIs(shared, e);
      EntrySize(shared, e);
      LastKeyIs(layout, old(buffer), old(restarts), was, old(lastKey));
      LayoutGrows(interval, layout.entries, was, shared, e);
      layout := Grown(layout, shared, e, restart);
      counter := counter + 1;
    }

    method Finish() returns (block: Bytes)
      requires Valid() && !finished
      modifies this
      ensures finished && Valid() && layout == old(layout) && buffer == block
      ensures Laid(layout, old(buffer)) && block == BlockBytes(old(buffer), layout.RestartOffsets())
      ensures layout == LayoutOf(interval, layout.entries) && |block| == Estimate(interval, layout.entries)
    {
      hide Building, Laid, LayoutOf, CounterAfter;
      EstimateIs();
      ghost var start := buffer;
      for i := 0 to |restarts|
        invariant restarts == old(restarts) && layout == old(layout) && buffer == start + EncodeRestarts(restarts[..i])
        invariant interval >= 1 && counter <= interval
      {
        assert restarts[..i + 1][..i] == restarts[..i];
        buffer := buffer + EncodeFixed32(restarts[i]);
      }
      assert restarts[..|restarts|] == restarts;
      buffer := buffer + EncodeFixed32(|restarts|);
      finished := true;
      block := buffer;
    }
  }

  lemma LastKeyIs(layout: Layout, buffer: Bytes, restarts: seq<nat>, counter: nat, lastKey: Bytes)
    requires Building(layout, buffer, restarts, counter, lastKey)
    ensures lastKey == if layout.entries == [] then [] else layout.entries[|layout.entries| - 1].key
  {
  }

  /** A buffer is empty when no entry is in it. */
  lemma EmptyMeans(layout: Layout, buffer: Bytes)
    requires Laid(layout, buffer)
    ensures buffer == [] <==> layout.entries == []
  {
    OffsetsAscend(layout, 0, |layout.entries|);
  }

  lemma AtEnd(layout: Layout, buffer: Bytes)
    requires Laid(layout, buffer)
    ensures layout.offsets[|layout.entries|] == |buffer|
  {
  }

  lemma EntryIs(shared: nat, e: Pair)
    requires shared <= |e.key|
    ensures EncodeEntry(shared, e) == Varint(shared) + (Varint(|e.key| - shared) + (Varint(|e.value|) + (e.key[shared..] + e.value)))
  {
  }

  lemma EntrySize(shared: nat, e: Pair)
    requires shared <= |e.key|
    ensures |e.key| < TWO_32 && |e.value| < TWO_32 ==> |EncodeEntry(shared, e)| <= 15 + |e.key| + |e.value|
  {
    if |e.key| < TWO_32 && |e.value| < TWO_32 {
      Varint32Size(shared);
      Varint32Size(|e.key| - shared);
      Varint32Size(|e.value|);
    }
  }

  lemma Joined4(start: Bytes, a: Bytes, b: Bytes, c: Bytes, d: Bytes, e: Bytes)
    ensures start + a + b + c + d + e == start + (a + (b + (c + (d + e))))
  {
  }

  lemma GrownRestarts(layout: Layout, buffer: Bytes, shared: nat, e: Pair, restart: bool)
    requires Laid(layout, buffer) && shared <= |e.key| && Laid(Grown(layout, shared, e, restart), buffer + EncodeEntry(shared, e))
    ensures Grown(layout, shared, e, restart).RestartOffsets() == layout.RestartOffsets() + if restart then [|buffer|] else []
  {
  }
}
