/** The iterator over a block (table/block.cc). It walks the bytes of the block; its contract is that of a
    cursor over the entries that the builder was given. */
module BlockIters {
  import opened Keys
  import opened Coding
  import opened Blocks

  /** The block holds the entries of the layout; `limit` is where its restart array begins. */
  ghost predicate Holds(data: Bytes, limit: nat, layout: Layout)
    ensures Holds(data, limit, layout) ==> layout.Shaped() && layout.Restarts() && limit <= |data|
  {
    && limit <= |data| && limit < TWO_32 && Laid(layout, data[..limit])
    && data == BlockBytes(data[..limit], layout.RestartOffsets())
  }

  /** Keys and values of a block are no longer than it. */
  lemma {:induction false} KeyFits(layout: Layout, i: nat)
    requires layout.Shaped() && layout.Shares() && i < |layout.entries|
    ensures |layout.entries[i].key| + |layout.entries[i].value| <= layout.offsets[i + 1]
  {
    if i > 0 {
      KeyFits(layout, i - 1);
    }
  }

  /** An entry is decoded where it lies. */
  lemma {:induction false} EntryAt(data: Bytes, limit: nat, layout: Layout, i: nat)
    requires Holds(data, limit, layout) && i < |layout.entries|
    ensures layout.offsets[i] < layout.offsets[i + 1] <= limit
    ensures var e, n := layout.entries[i], |layout.entries[i].key| - layout.shared[i];
      var h := DecodeEntry(data[layout.offsets[i]..limit]);
      && h.Some? && h.value.shared == layout.shared[i] && h.value.nonShared == n && h.value.valueLength == |e.value|
      && var start := layout.offsets[i] + h.value.size;
        start + n + |e.value| == layout.offsets[i + 1]
        && data[start..start + n] == e.key[layout.shared[i]..] && data[start + n..layout.offsets[i + 1]] == e.value
  {
    hide EncodeEntry, DecodeEntry, EncodeRestarts;
    var e, a, b := layout.entries[i], layout.offsets[i], layout.offsets[i + 1];
    KeyFits(layout, i);
    OffsetsAscend(layout, i, i + 1);
    OffsetsAscend(layout, i + 1, |layout.entries|);
    assert data[..limit][a..b] == data[a..b];
    EntryRoundTrip(layout.shared[i], e, data[b..limit]);
    assert data[a..limit] == EncodeEntry(layout.shared[i], e) + data[b..limit];
    var s, size := data[a..limit], DecodeEntry(data[a..limit]).value.size;
    var n := |e.key| - layout.shared[i];
    assert s[size..size + n] == data[a + size..a + size + n];
    assert s[size + n..b - a] == data[a + size + n..b];
  }

  lemma {:induction false} RestartsAt(restarts: seq<nat>, i: nat)
    requires i < |restarts|
    ensures EncodeRestarts(restarts)[4 * i..4 * i + 4] == EncodeFixed32(restarts[i])
  {
    if i < |restarts| - 1 {
      var init := restarts[..|restarts| - 1];
      RestartsAt(init, i);
      assert EncodeRestarts(restarts)[4 * i..4 * i + 4] == EncodeRestarts(init)[4 * i..4 * i + 4];
    }
  }

  /** A restart point is read from the array. */
  lemma {:induction false} RestartPointAt(data: Bytes, limit: nat, layout: Layout, i: nat)
    requires Holds(data, limit, layout) && i < |layout.points|
    ensures limit + 4 * i + 4 <= |data| && DecodeFixed32(data[limit + 4 * i..]) == layout.RestartOffsets()[i]
    ensures layout.RestartOffsets()[i] <= limit
  {
    hide EncodeFixed32, DecodeFixed32, EncodeEntry;
    var restarts := layout.RestartOffsets();
    var points := EncodeRestarts(restarts);
    RestartsAt(restarts, i);
    OffsetsAscend(layout, layout.points[i], |layout.entries|);
    var tail := points[4 * i + 4..] + EncodeFixed32(|restarts|);
    assert points == points[..4 * i] + EncodeFixed32(restarts[i]) + points[4 * i + 4..];
    assert data == data[..limit] + (points + EncodeFixed32(|restarts|));
    assert data[limit + 4 * i..] == EncodeFixed32(restarts[i]) + tail;
    Fixed32RoundTrip(restarts[i], tail);
  }

  /** The key and value read are those of entry `pos`, which begins at `current`. */
  ghost predicate AtEntry(layout: Layout, pos: nat, current: nat, key: Bytes, valueStart: nat, valueLength: nat)
    requires layout.Shaped()
  {
    && pos < |layout.entries| && current == layout.offsets[pos] && key == layout.entries[pos].key
    && valueLength == |layout.entries[pos].value| && valueStart + valueLength == layout.offsets[pos + 1]
  }

  /** What was read last lets the next entry be read as entry `pos`. */
  ghost predicate Ready(layout: Layout, pos: nat, key: Bytes, valueEnd: nat)
    requires layout.Shaped()
    ensures Ready(layout, pos, key, valueEnd) ==> pos <= |layout.entries| && valueEnd == layout.offsets[pos]
  {
    && pos <= |layout.entries| && valueEnd == layout.offsets[pos]
    && (pos < |layout.entries| ==>
          (layout.shared[pos] <= |key| && key[..layout.shared[pos]] == layout.entries[pos].key[..layout.shared[pos]]))
  }

  /** The offset is between two restart points. */
  ghost predicate Between(layout: Layout, index: nat, offset: nat)
    requires layout.Shaped() && layout.Restarts()
    ensures Between(layout, index, offset) ==> index < |layout.points| && layout.RestartOffsets()[index] <= offset
  {
    && index < |layout.points| && layout.RestartOffsets()[index] <= offset
    && (index + 1 < |layout.points| ==> offset <= layout.RestartOffsets()[index + 1])
  }

  lemma ReadyAfter(data: Bytes, limit: nat, layout: Layout, pos: nat, current: nat, key: Bytes, valueStart: nat, valueLength: nat)
    requires Holds(data, limit, layout) && AtEntry(layout, pos, current, key, valueStart, valueLength)
    ensures Ready(layout, pos + 1, key, valueStart + valueLength)
    ensures current < layout.offsets[pos + 1] <= limit
  {
    EntryAt(data, limit, layout, pos);
    if pos + 1 < |layout.entries| {
      SharesAt(layout, pos + 1);
    }
  }

  lemma SharesAt(layout: Layout, i: nat)
    requires layout.Shaped() && layout.Shares() && 0 < i < |layout.entries|
    ensures layout.shared[i] <= |layout.entries[i - 1].key|
    ensures layout.entries[i].key[..layout.shared[i]] == layout.entries[i - 1].key[..layout.shared[i]]
  {
  }

  lemma ReadyAtRestart(layout: Layout, index: nat)
    requires layout.Shaped() && layout.Restarts() && index < |layout.points|
    ensures Ready(layout, layout.points[index], [], layout.RestartOffsets()[index])
  {
  }

  class Iter {
    const lt: (Bytes, Bytes) -> bool
    const data: Bytes
    const restarts: nat
    const numRestarts: nat
    var current: nat
    var restartIndex: nat
    var key: Bytes
    var valueStart: nat
    var valueLength: nat
    ghost const layout: Layout
    // The entry the iterator is at, their number when it is at none.
    ghost var pos: nat

    constructor (lt: (Bytes, Bytes) -> bool, data: Bytes, restarts: nat, numRestarts: nat, ghost layout: Layout)
      requires Holds(data, restarts, layout) && numRestarts == |layout.points|
      ensures Inv() && !Valid() && this.lt == lt && this.layout == layout
    {
      this.lt, this.data, this.restarts, this.numRestarts, this.layout := lt, data, restarts, numRestarts, layout;
      current, restartIndex, key, valueStart, valueLength := restarts, numRestarts, [], 0, 0;
      pos := |layout.entries|;
    }

    ghost predicate Static() {
      Holds(data, restarts, layout) && numRestarts == |layout.points|
    }

    ghost predicate Inv()
      reads this
      ensures Inv() ==> pos <= |layout.entries|
    {
      && Static() && pos <= |layout.entries|
      && if pos < |layout.entries|
        then AtEntry(layout, pos, current, key, valueStart, valueLength) && Between(layout, restartIndex, current)
        else current == restarts && restartIndex == numRestarts
    }

    predicate Valid()
      reads this
    {
      current < restarts
    }

    lemma ValidMeans()
      requires Inv()
      ensures Valid() <==> pos < |layout.entries|
    {
      if pos < |layout.entries| {
        EntryAt(data, restarts, layout, pos);
      }
    }

    function NextEntryOffset(): nat
      reads this
    {
      valueStart + valueLength
    }

    method Key() returns (k: Bytes)
      requires Inv() && Valid()
      ensures pos < |layout.entries| && k == layout.entries[pos].key
    {
      ValidMeans();
      k := key;
    }

    method Value() returns (v: Bytes)
      requires Inv() && Valid()
      ensures pos < |layout.entries| && v == layout.entries[pos].value
    {
      ValidMeans();
      EntryAt(data, restarts, layout, pos);
      v := data[valueStart..valueStart + valueLength];
    }

    method GetRestartPoint(index: nat) returns (offset: nat)
      requires Static() && index < numRestarts
      ensures offset == layout.RestartOffsets()[index]
    {
      RestartPointAt(data, restarts, layout, index);
      offset := DecodeFixed32(data[restarts + 4 * index..]);
    }

    method SeekToRestartPoint(index: nat)
      requires Static() && index < numRestarts
      modifies this`key, this`restartIndex, this`valueStart, this`valueLength
      ensures restartIndex == index && Ready(layout, layout.points[index], key, NextEntryOffset())
    {
      key := [];
      restartIndex := index;
      var offset := GetRestartPoint(index);
      valueStart, valueLength := offset, 0;
      ReadyAtRestart(layout, index);
    }

    /** Reads the entry it is ready for, if there is one. */
    method ParseNextKey(ghost next: nat) returns (ok: bool)
      requires Static() && Ready(layout, next, key, NextEntryOffset())
      requires restartIndex < numRestarts && layout.RestartOffsets()[restartIndex] <= NextEntryOffset()
      modifies this
      ensures Inv() && pos == next && (ok <==> next < |layout.entries|)
    {
      hide Holds, AtEntry, Between, Ready, Layout.Shaped, Layout.Restarts, DecodeEntry, EncodeEntry;
      current := NextEntryOffset();
      pos := next;
      LimitIsEnd(data, restarts, layout, next);
      if current >= restarts {
        current := restarts;
        restartIndex := numRestarts;
        return false;
      }
      EntryAt(data, restarts, layout, next);
      var h := DecodeEntry(data[current..restarts]);
      ReadyKey(layout, next, key, current);
      if h == None || |key| < h.value.shared {
        // A corruption error, which a block as built does not give.
        assert false;
      }
      var p := current + h.value.size;
      key := key[..h.value.shared] + data[p..p + h.value.nonShared];
      valueStart, valueLength := p + h.value.nonShared, h.value.valueLength;
      ReadEntry(layout, next, current, key, valueStart, valueLength);
      FindRestartIndex();
      ok := true;
    }

    /** The loop that moves the restart index up to the current entry. */
    method FindRestartIndex()
      requires Static() && restartIndex < numRestarts && layout.RestartOffsets()[restartIndex] <= current
      modifies this`restartIndex
      ensures Between(layout, restartIndex, current)
    {
      while restartIndex + 1 < numRestarts
        invariant restartIndex < numRestarts && layout.RestartOffsets()[restartIndex] <= current
        decreases numRestarts - restartIndex
      {
        var point := GetRestartPoint(restartIndex + 1);
        if point >= current {
          break;
        }
        restartIndex := restartIndex + 1;
      }
    }

    method Next()
      requires Inv() && Valid()
      modifies this
      ensures Inv() && pos == old(pos) + 1
    {
      hide Holds, Between, AtEntry;
      ValidMeans();
      ReadyForNext();
      var _ := ParseNextKey(pos + 1);
    }

    /** Past an entry, the iterator is ready for the one after it. */
    lemma ReadyForNext()
      requires Inv() && pos < |layout.entries|
      ensures Ready(layout, pos + 1, key, NextEntryOffset()) && restartIndex < numRestarts
      ensures layout.RestartOffsets()[restartIndex] <= NextEntryOffset()
    {
      ReadyAfter(data, restarts, layout, pos, current, key, valueStart, valueLength);
    }

    /** To the entry before, or off the block from its front. */
    method Prev()
      requires Inv() && Valid()
      modifies this
      ensures Inv() && pos == if old(pos) == 0 then |layout.entries| else old(pos) - 1
    {
      hide Holds, Between, AtEntry;
      ValidMeans();
      ghost var n := pos;
      AtOffset();
      var original := current;
      while true
        invariant Static() && restartIndex < numRestarts && current == original
        decreases restartIndex
      {
        var point := GetRestartPoint(restartIndex);
        if point < original {
          break;
        }
        if restartIndex == 0 {
          current := restarts;
          restartIndex := numRestarts;
          pos := |layout.entries|;
          FirstIsAtFront(data, restarts, layout, n);
          return;
        }
        restartIndex := restartIndex - 1;
      }
      PointBefore(data, restarts, layout, restartIndex, n);
      SeekToRestartPoint(restartIndex);
      var _ := ParseNextKey(layout.points[restartIndex]);
      while NextEntryOffset() < original
        invariant Inv() && pos < n
        decreases n - pos
      {
        ReadyForNext();
        OffsetOrder(data, restarts, layout, pos + 1, n);
        var _ := ParseNextKey(pos + 1);
      }
      ReadyForNext();
      OffsetOrder(data, restarts, layout, pos + 1, n);
    }

    lemma AtOffset()
      requires Inv() && pos < |layout.entries|
      ensures current == layout.offsets[pos] && restartIndex < numRestarts
    {
    }

    method SeekToFirst()
      requires Inv()
      modifies this
      ensures Inv() && pos == 0
    {
      SeekToRestartPoint(0);
      var _ := ParseNextKey(0);
    }

    method SeekToLast()
      requires Inv()
      modifies this
      ensures Inv() && pos == if |layout.entries| == 0 then 0 else |layout.entries| - 1
    {
      hide Holds, Between, AtEntry;
      SomePoint();
      SeekToRestartPoint(numRestarts - 1);
      var ok := ParseNextKey(layout.points[numRestarts - 1]);
      if !ok {
        return;
      }
      while NextEntryOffset() < restarts
        invariant Inv() && pos < |layout.entries|
        decreases |layout.entries| - pos
      {
        ReadyForNext();
        LimitIsEnd(data, restarts, layout, pos + 1);
        var _ := ParseNextKey(pos + 1);
      }
      ReadyForNext();
      LimitIsEnd(data, restarts, layout, pos + 1);
    }

    lemma SomePoint()
      requires Static()
      ensures numRestarts > 0 && layout.points[numRestarts - 1] <= |layout.entries|
      ensures layout.points[numRestarts - 1] == |layout.entries| ==> |layout.entries| == 0
    {
    }

    /** The binary search of Seek: the last restart point with a key before the target, or the first point. */
    method FindRegion(target: Bytes) returns (left: nat)
      requires Static()
      ensures left < numRestarts && (left > 0 ==> KeyBefore(lt, layout, layout.points[left], target))
    {
      hide Holds, KeyBefore, DecodeEntry;
      SomePoint();
      var right := numRestarts - 1;
      left := 0;
      while left < right
        invariant 0 <= left <= right < numRestarts
        invariant left > 0 ==> KeyBefore(lt, layout, layout.points[left], target)
      {
        var mid := (left + right + 1) / 2;
        var regionOffset := GetRestartPoint(mid);
        PointEntry(data, restarts, layout, mid);
        var h := DecodeEntry(data[regionOffset..restarts]);
        if h == None || h.value.shared != 0 {
          // A corruption error, which a block as built does not give.
          assert false;
        }
        var start := regionOffset + h.value.size;
        var midKey := data[start..start + h.value.nonShared];
        if lt(midKey, target) {
          IsBefore(lt, layout, layout.points[mid], target);
          left := mid;
        } else {
          right := mid - 1;
        }
      }
    }

    /** To the first entry whose key is at or after the target. */
    method Seek(target: Bytes)
      requires Inv() && TotalOrder(lt) && SortedPairs(lt, layout.entries)
      modifies this
      ensures Inv()
      ensures forall i | 0 <= i < pos :: lt(layout.entries[i].key, target)
      ensures forall i | pos <= i < |layout.entries| :: !lt(layout.entries[i].key, target)
    {
      hide Holds, Between, AtEntry, Ready, TotalOrder, SortedPairs;
      var left := FindRegion(target);
      FrontBefore(lt, layout, left, target);
      SeekToRestartPoint(left);
      var next: nat := layout.points[left];
      while true
        invariant Static() && Ready(layout, next, key, NextEntryOffset())
        invariant restartIndex < numRestarts && layout.RestartOffsets()[restartIndex] <= NextEntryOffset()
        invariant forall i | 0 <= i < next :: lt(layout.entries[i].key, target)
        decreases |layout.entries| - next
      {
        var ok := ParseNextKey(next);
        if !ok {
          return;
        }
        AtKey();
        if !lt(key, target) {
          RestAfter(lt, layout, pos, target);
          return;
        }
        ReadyForNext();
        next := next + 1;
      }
    }

    lemma AtKey()
      requires Inv() && pos < |layout.entries|
      ensures key == layout.entries[pos].key
    {
    }
  }

  ghost predicate KeyBefore(lt: (Bytes, Bytes) -> bool, layout: Layout, i: nat, target: Bytes) {
    i < |layout.entries| && lt(layout.entries[i].key, target)
  }

  lemma IsBefore(lt: (Bytes, Bytes) -> bool, layout: Layout, i: nat, target: Bytes)
    requires i < |layout.entries| && lt(layout.entries[i].key, target)
    ensures KeyBefore(lt, layout, i, target)
  {
  }

  /** The key at a restart point is stored whole. */
  lemma PointEntry(data: Bytes, limit: nat, layout: Layout, r: nat)
    requires Holds(data, limit, layout) && 0 < r < |layout.points|
    ensures layout.points[r] < |layout.entries|
    ensures var offset := layout.RestartOffsets()[r];
      offset <= limit && var h := DecodeEntry(data[offset..limit]);
      && h.Some? && h.value.shared == 0 && offset + h.value.size + h.value.nonShared <= |data|
      && data[offset + h.value.size..offset + h.value.size + h.value.nonShared] == layout.entries[layout.points[r]].key
  {
    hide DecodeEntry, EncodeEntry, BlockBytes;
    EntryAt(data, limit, layout, layout.points[r]);
  }

  /** Keys before one that is before the target are before it, too. */
  lemma FrontBefore(lt: (Bytes, Bytes) -> bool, layout: Layout, r: nat, target: Bytes)
    requires TotalOrder(lt) && layout.Shaped() && layout.Restarts() && SortedPairs(lt, layout.entries) && r < |layout.points|
    requires r > 0 ==> KeyBefore(lt, layout, layout.points[r], target)
    ensures layout.points[r] <= |layout.entries|
    ensures forall i | 0 <= i < layout.points[r] :: lt(layout.entries[i].key, target)
  {
  }

  lemma RestAfter(lt: (Bytes, Bytes) -> bool, layout: Layout, p: nat, target: Bytes)
    requires TotalOrder(lt) && SortedPairs(lt, layout.entries) && p < |layout.entries| && !lt(layout.entries[p].key, target)
    ensures forall i | p <= i < |layout.entries| :: !lt(layout.entries[i].key, target)
  {
    forall i | p < i < |layout.entries| ensures !lt(layout.entries[i].key, target) {
      assert lt(layout.entries[p].key, layout.entries[i].key);
    }
  }

  /** Offsets order entries. */
  lemma OffsetOrder(data: Bytes, limit: nat, layout: Layout, i: nat, j: nat)
    requires Holds(data, limit, layout) && i <= |layout.entries| && j <= |layout.entries|
    ensures layout.offsets[i] < layout.offsets[j] <==> i < j
  {
    if i <= j {
      OffsetsAscend(layout, i, j);
    } else {
      OffsetsAscend(layout, j, i);
    }
  }

  /** Only the first entry has no restart point before it. */
  lemma FirstIsAtFront(data: Bytes, limit: nat, layout: Layout, n: nat)
    requires Holds(data, limit, layout) && n < |layout.entries|
    ensures layout.RestartOffsets()[0] >= layout.offsets[n] ==> n == 0
  {
    OffsetOrder(data, limit, layout, 0, n);
  }

  lemma PointBefore(data: Bytes, limit: nat, layout: Layout, r: nat, n: nat)
    requires Holds(data, limit, layout) && r < |layout.points| && n < |layout.entries|
    requires layout.RestartOffsets()[r] < layout.offsets[n]
    ensures layout.points[r] < n
  {
    OffsetOrder(data, limit, layout, layout.points[r], n);
  }

  lemma LimitIsEnd(data: Bytes, limit: nat, layout: Layout, i: nat)
    requires Holds(data, limit, layout) && i <= |layout.entries|
    ensures layout.offsets[i] < limit <==> i < |layout.entries|
  {
    OffsetsAscend(layout, i, |layout.entries|);
  }

  /** The shared front of the last key and the rest that is read make up the key. */
  lemma ReadyKey(layout: Layout, next: nat, key: Bytes, valueEnd: nat)
    requires layout.Shaped() && Ready(layout, next, key, valueEnd) && next < |layout.entries|
    ensures layout.shared[next] <= |key|
    ensures key[..layout.shared[next]] + layout.entries[next].key[layout.shared[next]..] == layout.entries[next].key
  {
  }

  lemma ReadEntry(layout: Layout, pos: nat, current: nat, key: Bytes, valueStart: nat, valueLength: nat)
    requires layout.Shaped() && pos < |layout.entries| && current == layout.offsets[pos] && key == layout.entries[pos].key
    requires valueLength == |layout.entries[pos].value| && valueStart + valueLength == layout.offsets[pos + 1]
    ensures AtEntry(layout, pos, current, key, valueStart, valueLength)
  {
  }

  /** What the builder finishes is a block that holds its entries. */
  lemma BuiltHolds(layout: Layout, buffer: Bytes, block: Bytes)
    requires Laid(layout, buffer) && block == BlockBytes(buffer, layout.RestartOffsets()) && |buffer| < TWO_32
    ensures Holds(block, |buffer|, layout)
  {
    hide Laid, EncodeRestarts;
    assert block[..|buffer|] == buffer;
  }

  lemma {:induction false} PointsFew(layout: Layout, r: nat)
    requires layout.Shaped() && layout.Restarts() && r < |layout.points|
    ensures r <= layout.points[r]
  {
    if r > 0 {
      PointsFew(layout, r - 1);
    }
  }

  /** The length of the restart array ends the block. */
  lemma RestartCountAt(data: Bytes, limit: nat, layout: Layout)
    requires Holds(data, limit, layout)
    ensures |data| == limit + 4 * |layout.points| + 4 && DecodeFixed32(data[|data| - 4..]) == |layout.points|
  {
    hide EncodeFixed32, DecodeFixed32, EncodeEntry;
    var count := |layout.points|;
    PointsFew(layout, count - 1);
    OffsetsAscend(layout, 0, |layout.entries|);
    assert data[|data| - 4..] == EncodeFixed32(count) + [];
    Fixed32RoundTrip(count, []);
  }

  /** Block's constructor and NewIterator: the places are read from the end of the block. */
  method NewIterator(lt: (Bytes, Bytes) -> bool, data: Bytes, ghost limit: nat, ghost layout: Layout) returns (iter: Iter)
    requires Holds(data, limit, layout)
    ensures fresh(iter) && iter.Inv() && !iter.Valid() && iter.lt == lt && iter.layout == layout
  {
    hide Holds;
    RestartCountAt(data, limit, layout);
    var numRestarts := DecodeFixed32(data[|data| - 4..]);
    var restartOffset: nat := |data| - (1 + numRestarts) * 4;
    iter := new Iter(lt, data, restartOffset, numRestarts, layout);
  }
}
