/** The filter block of a table (table/filter_block.cc). The policy's filter of a key list is a parameter. */
module FilterBlocks {
  import opened Keys
  import opened Coding
  import Blooms

  const FILTER_BASE_LG: Byte := 11
  const FILTER_BASE: nat := 2048

  datatype FilterPolicy = FilterPolicy(createFilter: seq<Bytes> -> Bytes, keyMayMatch: (Bytes, Bytes) -> bool)

  ghost predicate NoFalseNegatives(policy: FilterPolicy) {
    forall keys: seq<Bytes>, k: Bytes | k in keys :: policy.keyMayMatch(k, policy.createFilter(keys))
  }

  /** The policy makes Bloom filters with `k` probes. */
  ghost predicate IsBloom(policy: FilterPolicy, hash: Bytes -> Word, k: Byte) {
    && 1 <= k <= 30
    && (forall keys :: |policy.createFilter(keys)| > 0 && policy.createFilter(keys)[|policy.createFilter(keys)| - 1] == k
          && Blooms.IsFilter(hash, keys, k, policy.createFilter(keys)[..|policy.createFilter(keys)| - 1]))
    && (forall key, filter :: policy.keyMayMatch(key, filter) <==> Blooms.MayMatch(hash, key, filter))
  }

  lemma BloomHasNoFalseNegatives(policy: FilterPolicy, hash: Bytes -> Word, k: Byte)
    requires IsBloom(policy, hash, k)
    ensures NoFalseNegatives(policy)
  {
    forall keys: seq<Bytes>, key: Bytes | key in keys ensures policy.keyMayMatch(key, policy.createFilter(keys)) {
      var filter := policy.createFilter(keys);
      var bits := filter[..|filter| - 1];
      assert filter == bits + [k];
      Blooms.NoFalseNegative(hash, keys, k, bits, key);
    }
  }

  /** The filter generated for some keys; for none, nothing. */
  function Filter(policy: FilterPolicy, keys: seq<Bytes>): Bytes {
    if keys == [] then [] else policy.createFilter(keys)
  }

  /** All bytes of some strings. */
  function Flattened(keys: seq<Bytes>): Bytes {
    if keys == [] then [] else Flattened(keys[..|keys| - 1]) + keys[|keys| - 1]
  }

  /** `start` says where each of the keys begins in their joined bytes. */
  ghost predicate Starts(keys: seq<Bytes>, start: seq<nat>) {
    |start| == |keys| && forall i | 0 <= i < |keys| :: start[i] == |Flattened(keys[..i])|
  }

  lemma {:induction false} FlattenedPrefix(keys: seq<Bytes>, i: nat)
    requires i < |keys|
    ensures |Flattened(keys[..i + 1])| == |Flattened(keys[..i])| + |keys[i]| <= |Flattened(keys)|
    ensures Flattened(keys)[|Flattened(keys[..i])|..|Flattened(keys[..i + 1])|] == keys[i]
  {
    var init := keys[..|keys| - 1];
    assert keys[..i + 1][..i] == keys[..i];
    if i < |keys| - 1 {
      FlattenedPrefix(init, i);
      assert init[..i] == keys[..i] && init[..i + 1] == keys[..i + 1];
      var a, b := |Flattened(keys[..i])|, |Flattened(keys[..i + 1])|;
      assert Flattened(keys)[a..b] == Flattened(init)[a..b];
    } else {
      assert keys[..i + 1] == keys;
    }
  }

  /** The filters generated so far lie one after another, each from its offset on. */
  ghost predicate Laid(policy: FilterPolicy, filters: seq<seq<Bytes>>, offsets: seq<nat>, result: Bytes) {
    && |offsets| == |filters|
    && forall i | 0 <= i < |filters| ::
      offsets[i] <= EndOf(offsets, result, i) <= |result| && result[offsets[i]..EndOf(offsets, result, i)] == Filter(policy, filters[i])
  }

  function EndOf(offsets: seq<nat>, result: Bytes, i: nat): nat
    requires i < |offsets|
  {
    if i + 1 < |offsets| then offsets[i + 1] else |result|
  }

  lemma LaidMore(policy: FilterPolicy, filters: seq<seq<Bytes>>, offsets: seq<nat>, result: Bytes, keys: seq<Bytes>)
    requires Laid(policy, filters, offsets, result)
    ensures Laid(policy, filters + [keys], offsets + [|result|], result + Filter(policy, keys))
  {
    hide Filter;
    var all, more := offsets + [|result|], result + Filter(policy, keys);
    forall i | 0 <= i < |all|
      ensures all[i] <= EndOf(all, more, i) <= |more| && more[all[i]..EndOf(all, more, i)] == Filter(policy, (filters + [keys])[i])
    {
      if i < |offsets| {
        assert EndOf(all, more, i) == EndOf(offsets, result, i);
        assert more[offsets[i]..EndOf(offsets, result, i)] == result[offsets[i]..EndOf(offsets, result, i)];
      }
    }
  }

  /** An array of fixed 32-bit numbers. */
  function Words(ws: seq<nat>): (r: Bytes)
    ensures |r| == 4 * |ws|
  {
    if ws == [] then [] else Words(ws[..|ws| - 1]) + EncodeFixed32(ws[|ws| - 1])
  }

  lemma {:induction false} WordAt(ws: seq<nat>, i: nat, rest: Bytes)
    requires i < |ws| && ws[i] < TWO_32
    ensures DecodeFixed32((Words(ws) + rest)[4 * i..]) == ws[i]
  {
    hide EncodeFixed32, DecodeFixed32;
    var init := ws[..|ws| - 1];
    var last := EncodeFixed32(ws[|ws| - 1]);
    assert Words(ws) + rest == Words(init) + (last + rest);
    if i < |ws| - 1 {
      WordAt(init, i, last + rest);
    } else {
      assert (Words(ws) + rest)[4 * i..] == last + rest;
      Fixed32RoundTrip(ws[i], rest);
    }
  }

  /** The finished block: filters, their offsets, where the offsets begin, and the base. */
  function FilterBlock(result: Bytes, offsets: seq<nat>): Bytes {
    result + Words(offsets) + EncodeFixed32(|result|) + [FILTER_BASE_LG]
  }

  class FilterBlockBuilder {
    const policy: FilterPolicy
    var keys: Bytes
    var start: seq<nat>
    var result: Bytes
    var filterOffsets: seq<nat>
    // The keys since the last filter, and those of each filter.
    ghost var waiting: seq<Bytes>
    ghost var filters: seq<seq<Bytes>>
    // The offset of the current block, and every key added with the offset of its block.
    ghost var block: nat
    ghost var history: seq<(nat, Bytes)>

    constructor (policy: FilterPolicy)
      ensures Valid() && history == [] && block == 0 && this.policy == policy
    {
      this.policy := policy;
      keys, start, result, filterOffsets := [], [], [], [];
      waiting, filters, block, history := [], [], 0, [];
    }

    ghost predicate Valid()
      reads this
    {
      && keys == Flattened(waiting) && Starts(waiting, start)
      && Laid(policy, filters, filterOffsets, result) && |filters| == block / FILTER_BASE
      && ByRange(history, filters, waiting)
    }

    /** A block begins, in a base range no earlier than the last. */
    method StartBlock(blockOffset: nat)
      requires Valid() && block / FILTER_BASE <= blockOffset / FILTER_BASE
      modifies this
      ensures Valid() && block == blockOffset && history == old(history)
    {
      var filterIndex := blockOffset / FILTER_BASE;
      while filterIndex > |filterOffsets|
        invariant keys == Flattened(waiting) && Starts(waiting, start) && Laid(policy, filters, filterOffsets, result)
        invariant |filterOffsets| <= filterIndex && history == old(history)
        invariant ByRange(history, filters, waiting)
        decreases filterIndex - |filterOffsets|
      {
        GenerateFilter();
      }
      block := blockOffset;
    }

    method AddKey(key: Bytes)
      requires Valid()
      modifies this
      ensures Valid() && history == old(history) + [(block, key)] && block == old(block)
    {
      start := start + [|keys|];
      keys := keys + key;
      ghost var was := waiting;
      waiting := waiting + [key];
      history := history + [(block, key)];
      assert waiting[..|was|] == was;
      forall i | 0 <= i < |waiting| ensures start[i] == |Flattened(waiting[..i])| {
        assert i < |was| ==> waiting[..i] == was[..i];
      }
      ByRangeMore(old(history), filters, was, block, key);
    }

    /** A filter of the waiting keys. */
    method GenerateFilter()
      requires keys == Flattened(waiting) && Starts(waiting, start) && Laid(policy, filters, filterOffsets, result)
      requires ByRange(history, filters, waiting)
      modifies this`keys, this`start, this`result, this`filterOffsets, this`waiting, this`filters
      ensures keys == Flattened(waiting) && Starts(waiting, start) && Laid(policy, filters, filterOffsets, result)
      ensures waiting == [] && filters == old(filters) + [old(waiting)]
      ensures ByRange(history, filters, waiting)
    {
      hide Laid, ByRange;
      LaidMore(policy, filters, filterOffsets, result, waiting);
      LaidSize(policy, filters, filterOffsets, result);
      var numKeys := |start|;
      if numKeys == 0 {
        filterOffsets := filterOffsets + [|result|];
      } else {
        start := start + [|keys|];
        var tmpKeys: seq<Bytes> := [];
        for i := 0 to numKeys
          invariant start == old(start) + [|keys|] && keys == old(keys) && waiting == old(waiting)
          invariant filterOffsets == old(filterOffsets) && filters == old(filters) && result == old(result)
          invariant tmpKeys == waiting[..i]
        {
          FlattenedPrefix(waiting, i);
          assert i + 1 == numKeys ==> waiting[..i + 1] == waiting;
          assert start[i + 1] == |Flattened(waiting[..i + 1])|;
          tmpKeys := tmpKeys + [keys[start[i]..start[i + 1]]];
        }
        filterOffsets := filterOffsets + [|result|];
        assert waiting[..numKeys] == waiting;
        result := result + policy.createFilter(tmpKeys);
        keys := [];
        start := [];
      }
      ByRangeNext(history, filters, waiting);
      filters := filters + [waiting];
      waiting := [];
      assert result == old(result) + Filter(policy, old(waiting));
    }

    method Finish() returns (contents: Bytes)
      requires Valid()
      modifies this
      ensures Laid(policy, filters, filterOffsets, result) && contents == FilterBlock(result, filterOffsets)
      ensures history == old(history) && ByRange(history, filters, [])
      ensures |filters| == |old(filters)| + if old(waiting) == [] then 0 else 1
      ensures forall i | 0 <= i < |history| :: var index := history[i].0 / FILTER_BASE; index < |filters| && history[i].1 in filters[index]
    {
      hide Laid, Starts, EncodeFixed32, ByRange;
      NoneWaiting(waiting, start);
      if start != [] {
        GenerateFilter();
      }
      contents := result;
      AllKept(history, filters);
      for i := 0 to |filterOffsets|
        invariant contents == result + Words(filterOffsets[..i])
      {
        assert filterOffsets[..i + 1][..i] == filterOffsets[..i];
        contents := contents + EncodeFixed32(filterOffsets[i]);
      }
      assert filterOffsets[..|filterOffsets|] == filterOffsets;
      contents := contents + EncodeFixed32(|result|) + [FILTER_BASE_LG];
    }
  }

  /** The keys added to blocks of a base range. */
  ghost function RangeKeys(history: seq<(nat, Bytes)>, index: nat): seq<Bytes> {
    if history == [] then []
    else
      var last := history[|history| - 1];
      RangeKeys(history[..|history| - 1], index) + if last.0 / FILTER_BASE == index then [last.1] else []
  }

  /** Each filter is of the keys of its range, and those of the next wait. */
  ghost predicate ByRange(history: seq<(nat, Bytes)>, filters: seq<seq<Bytes>>, waiting: seq<Bytes>) {
    && (forall i | 0 <= i < |history| :: history[i].0 / FILTER_BASE <= |filters|)
    && (forall i | 0 <= i < |filters| :: filters[i] == RangeKeys(history, i)) && waiting == RangeKeys(history, |filters|)
  }

  lemma ByRangeMore(history: seq<(nat, Bytes)>, filters: seq<seq<Bytes>>, waiting: seq<Bytes>, block: nat, key: Bytes)
    requires ByRange(history, filters, waiting) && block / FILTER_BASE == |filters|
    ensures ByRange(history + [(block, key)], filters, waiting + [key])
  {
    var more := history + [(block, key)];
    assert more[..|more| - 1] == history;
    forall i | 0 <= i < |filters| ensures RangeKeys(more, i) == RangeKeys(history, i) {
      assert RangeKeys(history, i) + [] == RangeKeys(history, i);
    }
  }

  lemma {:induction false} NoRangeKeys(history: seq<(nat, Bytes)>, index: nat)
    requires forall i | 0 <= i < |history| :: history[i].0 / FILTER_BASE < index
    ensures RangeKeys(history, index) == []
  {
    if history != [] {
      NoRangeKeys(history[..|history| - 1], index);
    }
  }

  lemma ByRangeNext(history: seq<(nat, Bytes)>, filters: seq<seq<Bytes>>, waiting: seq<Bytes>)
    requires ByRange(history, filters, waiting)
    ensures ByRange(history, filters + [waiting], [])
  {
    NoRangeKeys(history, |filters| + 1);
  }

  lemma {:induction false} InRange(history: seq<(nat, Bytes)>, i: nat)
    requires i < |history|
    ensures history[i].1 in RangeKeys(history, history[i].0 / FILTER_BASE)
  {
    if i < |history| - 1 {
      InRange(history[..|history| - 1], i);
    }
  }

  lemma AllKept(history: seq<(nat, Bytes)>, filters: seq<seq<Bytes>>)
    requires ByRange(history, filters, [])
    ensures forall i | 0 <= i < |history| :: var index := history[i].0 / FILTER_BASE; index < |filters| && history[i].1 in filters[index]
  {
    forall i | 0 <= i < |history| ensures var index := history[i].0 / FILTER_BASE; index < |filters| && history[i].1 in filters[index] {
      InRange(history, i);
    }
  }

  lemma NoneWaiting(keys: seq<Bytes>, start: seq<nat>)
    requires Starts(keys, start)
    ensures start == [] <==> keys == []
  {
  }

  lemma LaidSize(policy: FilterPolicy, filters: seq<seq<Bytes>>, offsets: seq<nat>, result: Bytes)
    requires Laid(policy, filters, offsets, result)
    ensures |offsets| == |filters|
  {
  }

  function ShiftRight(x: nat, n: nat): nat {
    if n == 0 then x else ShiftRight(x / 2, n - 1)
  }

  class FilterBlockReader {
    const policy: FilterPolicy
    const data: Bytes
    // Where the offset array begins, and how many filters there are.
    const offset: nat
    const num: nat
    const baseLg: nat

    constructor (policy: FilterPolicy, contents: Bytes)
      ensures Valid() && this.policy == policy
      ensures |contents| >= 5 && DecodeFixed32(contents[|contents| - 5..]) <= |contents| - 5 ==>
        data == contents && offset == DecodeFixed32(contents[|contents| - 5..]) && num == (|contents| - 5 - offset) / 4
        && baseLg == contents[|contents| - 1]
    {
      this.policy := policy;
      var n := |contents|;
      if n < 5 {
        data, offset, num, baseLg := [], 0, 0, 0;
      } else {
        var lastWord := DecodeFixed32(contents[n - 5..]);
        baseLg := contents[n - 1];
        if lastWord > n - 5 {
          data, offset, num := [], 0, 0;
        } else {
          data, offset, num := contents, lastWord, (n - 5 - lastWord) / 4;
        }
      }
    }

    ghost predicate Valid() {
      num > 0 ==> offset + 4 * num + 5 <= |data|
    }

    method KeyMayMatch(blockOffset: nat, key: Bytes) returns (r: bool)
      requires Valid()
      ensures r == MayMatch(policy, data, offset, num, baseLg, blockOffset, key)
    {
      var index := ShiftRight(blockOffset, baseLg);
      if index < num {
        var start := DecodeFixed32(data[offset + index * 4..]);
        var limit := DecodeFixed32(data[offset + index * 4 + 4..]);
        if start <= limit && limit <= offset {
          var filter := data[start..limit];
          return policy.keyMayMatch(key, filter);
        } else if start == limit {
          return false;
        }
      }
      return true;
    }
  }

  /** The reader's answer: that of the filter, or a match when there is none. */
  predicate MayMatch(policy: FilterPolicy, data: Bytes, offset: nat, num: nat, baseLg: nat, blockOffset: nat, key: Bytes)
    requires num > 0 ==> offset + 4 * num + 5 <= |data|
  {
    var index := ShiftRight(blockOffset, baseLg);
    index < num ==>
      var start, limit := DecodeFixed32(data[offset + 4 * index..]), DecodeFixed32(data[offset + 4 * index + 4..]);
      if start <= limit && limit <= offset then policy.keyMayMatch(key, data[start..limit]) else start != limit
  }

  /** The offsets of a filter and of its end are read from the array, the last end from the word after it. */
  lemma OffsetsReadBack(offsets: seq<nat>, result: Bytes, index: nat)
    requires |result| < TWO_32 && index < |offsets| && forall i | 0 <= i < |offsets| :: offsets[i] <= |result|
    ensures var data, o := FilterBlock(result, offsets), |result|;
      && DecodeFixed32(data[o + 4 * index..]) == offsets[index]
      && DecodeFixed32(data[o + 4 * index + 4..]) == EndOf(offsets, result, index)
  {
    hide EncodeFixed32, DecodeFixed32;
    var tail := EncodeFixed32(|result|) + [FILTER_BASE_LG];
    var data, ws := FilterBlock(result, offsets), Words(offsets) + tail;
    assert data == result + ws;
    Behind(result, ws, 4 * index);
    Behind(result, ws, 4 * index + 4);
    WordAt(offsets, index, tail);
    if index + 1 < |offsets| {
      WordAt(offsets, index + 1, tail);
    } else {
      assert ws[4 * index + 4..] == tail;
      Fixed32RoundTrip(|result|, [FILTER_BASE_LG]);
    }
  }

  lemma Behind(a: Bytes, b: Bytes, n: nat)
    requires n <= |b|
    ensures (a + b)[|a| + n..] == b[n..]
  {
  }

  /** The filter read back for a block is the one generated for its base range. */
  lemma FilterReadsBack(policy: FilterPolicy, filters: seq<seq<Bytes>>, offsets: seq<nat>, result: Bytes, index: nat)
    requires Laid(policy, filters, offsets, result) && |result| < TWO_32 && index < |filters|
    ensures var data, o := FilterBlock(result, offsets), |result|;
      var start, limit := DecodeFixed32(data[o + 4 * index..]), DecodeFixed32(data[o + 4 * index + 4..]);
      start <= limit <= |result| && data[start..limit] == Filter(policy, filters[index])
  {
    hide EncodeFixed32, DecodeFixed32, Filter, FilterBlock;
    assert forall i | 0 <= i < |offsets| :: offsets[i] <= EndOf(offsets, result, i) <= |result|;
    OffsetsReadBack(offsets, result, index);
    FrontSlice(result, offsets, offsets[index], EndOf(offsets, result, index));
  }

  lemma FrontSlice(result: Bytes, offsets: seq<nat>, i: nat, j: nat)
    requires i <= j <= |result|
    ensures FilterBlock(result, offsets)[i..j] == result[i..j]
  {
    hide Words, EncodeFixed32;
  }

  lemma BlockEnds(offsets: seq<nat>, result: Bytes)
    requires |result| < TWO_32
    ensures var c := FilterBlock(result, offsets);
      && |c| == |result| + 4 * |offsets| + 5 && c[|c| - 1] == FILTER_BASE_LG && DecodeFixed32(c[|c| - 5..]) == |result|
  {
    hide EncodeFixed32, DecodeFixed32;
    var c := FilterBlock(result, offsets);
    assert c[|c| - 5..] == EncodeFixed32(|result|) + [FILTER_BASE_LG];
    Fixed32RoundTrip(|result|, [FILTER_BASE_LG]);
  }

  lemma ShiftOnce(x: nat, n: nat, d: nat)
    requires d > 0 && n > 0
    ensures ShiftRight(x / d, n) == ShiftRight(x / d / 2, n - 1)
  {
  }

  lemma BaseShift(x: nat)
    ensures ShiftRight(x, 11) == x / FILTER_BASE
  {
    hide ShiftRight;
    ShiftOnce(x, 11, 1);
    ShiftOnce(x, 10, 2);
    ShiftOnce(x, 9, 4);
    ShiftOnce(x, 8, 8);
    ShiftOnce(x, 7, 16);
    ShiftOnce(x, 6, 32);
    ShiftOnce(x, 5, 64);
    ShiftOnce(x, 4, 128);
    ShiftOnce(x, 3, 256);
    ShiftOnce(x, 2, 512);
    ShiftOnce(x, 1, 1024);
    assert x / 2 / 2 == x / 4 && x / 4 / 2 == x / 8 && x / 8 / 2 == x / 16 && x / 16 / 2 == x / 32;
    assert x / 32 / 2 == x / 64 && x / 64 / 2 == x / 128 && x / 128 / 2 == x / 256 && x / 256 / 2 == x / 512;
    assert x / 512 / 2 == x / 1024 && x / 1024 / 2 == x / 2048;
    ShiftNone(x / 2048);
  }

  lemma ShiftNone(x: nat)
    ensures ShiftRight(x, 0) == x
  {
  }

  /** For a finished block the answer is the policy's on the filter of the keys of the range, and a match
      behind the last range. */
  lemma {:induction false} AnswersByFilter(policy: FilterPolicy, filters: seq<seq<Bytes>>, offsets: seq<nat>, result: Bytes, blockOffset: nat, key: Bytes)
    requires Laid(policy, filters, offsets, result) && |result| < TWO_32
    ensures |FilterBlock(result, offsets)| == |result| + 4 * |offsets| + 5
    ensures var index := blockOffset / FILTER_BASE;
      MayMatch(policy, FilterBlock(result, offsets), |result|, |offsets|, FILTER_BASE_LG, blockOffset, key)
      <==> (index < |filters| ==> policy.keyMayMatch(key, Filter(policy, filters[index])))
  {
    hide DecodeFixed32, FilterBlock, Laid, ShiftRight, Filter;
    BlockEnds(offsets, result);
    LaidSize(policy, filters, offsets, result);
    BaseShift(blockOffset);
    if blockOffset / FILTER_BASE < |filters| {
      FilterReadsBack(policy, filters, offsets, result, blockOffset / FILTER_BASE);
    }
  }

  /** Nothing may match a Bloom filter of no keys that has no bytes. */
  lemma EmptyMatchesNothing(policy: FilterPolicy, hash: Bytes -> Word, k: Byte, key: Bytes)
    requires IsBloom(policy, hash, k)
    ensures !policy.keyMayMatch(key, Filter(policy, []))
  {
  }

  /** Every key that a builder was given in a block may match when its block is asked for it. */
  lemma {:induction false} AddedKeyMatches(policy: FilterPolicy, filters: seq<seq<Bytes>>, offsets: seq<nat>, result: Bytes, blockOffset: nat, key: Bytes)
    requires NoFalseNegatives(policy) && Laid(policy, filters, offsets, result) && |result| < TWO_32
    requires blockOffset / FILTER_BASE < |filters| && key in filters[blockOffset / FILTER_BASE]
    ensures |FilterBlock(result, offsets)| == |result| + 4 * |offsets| + 5
    ensures MayMatch(policy, FilterBlock(result, offsets), |result|, |offsets|, FILTER_BASE_LG, blockOffset, key)
  {
    hide MayMatch, FilterBlock, Laid;
    AnswersByFilter(policy, filters, offsets, result, blockOffset, key);
    assert Filter(policy, filters[blockOffset / FILTER_BASE]) == policy.createFilter(filters[blockOffset / FILTER_BASE]);
  }

  /** Building a filter block in any legal way and reading it gives the policy's answer for the keys added in
      the range that the block is in, so that there is no false negative. */
  method FinishAndAsk(builder: FilterBlockBuilder, blockOffset: nat, key: Bytes) returns (r: bool)
    requires builder.Valid() && NoFalseNegatives(builder.policy)
    modifies builder
    ensures (blockOffset, key) in old(builder.history) && |builder.result| < TWO_32 ==> r
    ensures var index := blockOffset / FILTER_BASE;
      index < |builder.filters| && |builder.result| < TWO_32 ==>
        r == builder.policy.keyMayMatch(key, Filter(builder.policy, RangeKeys(old(builder.history), index)))
    ensures |builder.filters| == |old(builder.filters)| + if old(builder.waiting) == [] then 0 else 1
  {
    hide Laid, MayMatch, FilterBlock, Filter;
    var contents := builder.Finish();
    var reader := new FilterBlockReader(builder.policy, contents);
    r := reader.KeyMayMatch(blockOffset, key);
    if |builder.result| < TWO_32 {
      BlockEnds(builder.filterOffsets, builder.result);
      AnswersByFilter(builder.policy, builder.filters, builder.filterOffsets, builder.result, blockOffset, key);
      LaidSize(builder.policy, builder.filters, builder.filterOffsets, builder.result);
      if (blockOffset, key) in builder.history {
        AddedKeyMatches(builder.policy, builder.filters, builder.filterOffsets, builder.result, blockOffset, key);
      }
    }
  }
}
