/** The two-level iterator (table/two_level_iterator.cc): an index run whose values name blocks. */
module TwoLevel {
  import opened Keys
  import opened Cursors

  /** Position of the first entry of block `b` in the concatenation of the blocks. */
  ghost function Offset<K(!new), H(!new), V(!new)>(index: seq<Entry<K, H>>, blockOf: H -> seq<Entry<K, V>>, b: nat): nat
    requires b <= |index|
  {
    if b == 0 then 0 else Offset(index, blockOf, b - 1) + |blockOf(index[b - 1].value)|
  }

  ghost function Concat<K(!new), H(!new), V(!new)>(index: seq<Entry<K, H>>, blockOf: H -> seq<Entry<K, V>>, b: nat): (r: seq<Entry<K, V>>)
    requires b <= |index|
    ensures |r| == Offset(index, blockOf, b)
  {
    if b == 0 then [] else Concat(index, blockOf, b - 1) + blockOf(index[b - 1].value)
  }

  lemma {:induction false} ConcatAt<K(!new), H(!new), V(!new)>(index: seq<Entry<K, H>>, blockOf: H -> seq<Entry<K, V>>, b: nat, n: nat)
    requires b < n <= |index|
    ensures Offset(index, blockOf, b) + |blockOf(index[b].value)| <= Offset(index, blockOf, n)
    ensures forall k: nat | k < |blockOf(index[b].value)| ::
              Concat(index, blockOf, n)[Offset(index, blockOf, b) + k] == blockOf(index[b].value)[k]
  {
    if b < n - 1 {
      ConcatAt(index, blockOf, b, n - 1);
    }
  }

  /** The blocks are sorted, and every index key is at or after its block's entries and before those of
      all later blocks. */
  ghost predicate Separates<K(!new), H(!new), V(!new)>(lt: (K, K) -> bool, index: seq<Entry<K, H>>, blockOf: H -> seq<Entry<K, V>>) {
    && (forall b | 0 <= b < |index| :: Sorted(lt, blockOf(index[b].value)))
    && (forall b, k | 0 <= b < |index| && 0 <= k < |blockOf(index[b].value)| ::
          !InternalLess(lt, index[b].key, blockOf(index[b].value)[k].key))
    && (forall b, c, k | 0 <= b < c < |index| && 0 <= k < |blockOf(index[c].value)| ::
          InternalLess(lt, index[b].key, blockOf(index[c].value)[k].key))
  }

  lemma {:induction false} OffsetMonotone<K(!new), H(!new), V(!new)>(index: seq<Entry<K, H>>, blockOf: H -> seq<Entry<K, V>>, b: nat, c: nat)
    requires b <= c <= |index|
    ensures Offset(index, blockOf, b) <= Offset(index, blockOf, c)
  {
    if b < c {
      OffsetMonotone(index, blockOf, b, c - 1);
    }
  }

  /** The entry at any position lies in one block. */
  lemma {:induction false} FindBlock<K(!new), H(!new), V(!new)>(index: seq<Entry<K, H>>, blockOf: H -> seq<Entry<K, V>>, n: nat, p: nat)
      returns (b: nat, k: nat)
    requires n <= |index| && p < Offset(index, blockOf, n)
    ensures b < n && k < |blockOf(index[b].value)| && p == Offset(index, blockOf, b) + k
    ensures Concat(index, blockOf, n)[p] == blockOf(index[b].value)[k]
  {
    if p < Offset(index, blockOf, n - 1) {
      b, k := FindBlock(index, blockOf, n - 1, p);
    } else {
      b, k := n - 1, p - Offset(index, blockOf, n - 1);
    }
  }

  /** Two entries of the concatenation are ordered as their blocks are, and within a block as it is. */
  lemma BlocksOrdered<K(!new), H(!new), V(!new)>(
      lt: (K, K) -> bool, index: seq<Entry<K, H>>, blockOf: H -> seq<Entry<K, V>>, b: nat, k: nat, c: nat, l: nat)
    requires TotalOrder(lt) && Separates(lt, index, blockOf)
    requires b < |index| && k < |blockOf(index[b].value)|
    requires c < |index| && l < |blockOf(index[c].value)|
    requires Offset(index, blockOf, b) + k < Offset(index, blockOf, c) + l
    ensures InternalLess(lt, blockOf(index[b].value)[k].key, blockOf(index[c].value)[l].key)
  {
    if c < b {
      OffsetMonotone(index, blockOf, c + 1, b);
      assert false;
    } else if b < c {
      assert !InternalLess(lt, index[b].key, blockOf(index[b].value)[k].key);
      assert InternalLess(lt, index[b].key, blockOf(index[c].value)[l].key);
    }
  }

  /** The concatenation of sorted, separated blocks is sorted. */
  lemma ConcatSorted<K(!new), H(!new), V(!new)>(lt: (K, K) -> bool, index: seq<Entry<K, H>>, blockOf: H -> seq<Entry<K, V>>)
    requires TotalOrder(lt) && Separates(lt, index, blockOf)
    ensures Sorted(lt, Concat(index, blockOf, |index|))
  {
    var all := Concat(index, blockOf, |index|);
    forall i, j | 0 <= i < j < |all| ensures InternalLess(lt, all[i].key, all[j].key) {
      var b, k := FindBlock(index, blockOf, |index|, i);
      var c, l := FindBlock(index, blockOf, |index|, j);
      BlocksOrdered(lt, index, blockOf, b, k, c, l);
    }
  }

  /** Seeking the index and then the block it names finds the lower bound of the whole. */
  lemma SeekLands<K(!new), H(!new), V(!new)>(
      lt: (K, K) -> bool, index: seq<Entry<K, H>>, blockOf: H -> seq<Entry<K, V>>, target: InternalKey<K>, b: nat, k: nat)
    requires TotalOrder(lt) && Separates(lt, index, blockOf) && LowerBound(lt, index, target, b)
    requires if b < |index| then LowerBound(lt, blockOf(index[b].value), target, k) else k == 0
    ensures Offset(index, blockOf, b) + k <= |Concat(index, blockOf, |index|)|
    ensures LowerBound(lt, Concat(index, blockOf, |index|), target, Offset(index, blockOf, b) + k)
  {
    var all, p := Concat(index, blockOf, |index|), Offset(index, blockOf, b) + k;
    if b < |index| {
      OffsetMonotone(index, blockOf, b + 1, |index|);
    }
    forall i | 0 <= i < |all| ensures InternalLess(lt, all[i].key, target) <==> i < p {
      var c, l := FindBlock(index, blockOf, |index|, i);
      if c < b {
        OffsetMonotone(index, blockOf, c + 1, b);
        assert InternalLess(lt, index[c].key, target) && !InternalLess(lt, index[c].key, all[i].key);
      } else if b < c {
        OffsetMonotone(index, blockOf, b + 1, c);
        assert InternalLess(lt, index[b].key, all[i].key) && !InternalLess(lt, index[b].key, target);
      }
    }
  }

  class TwoLevelIterator<K(==, !new), H(==, !new), V(!new)> {
    const lt: (K, K) -> bool
    const blockFunction: H -> seq<Entry<K, V>>
    const index: Cursor<K, H>
    var data: Cursor?<K, V>
    var handle: Option<H>
    ghost const entries: seq<Entry<K, V>>
    ghost var pos: nat
    ghost var Repr: set<object>

    constructor (index: Cursor<K, H>, blockFunction: H -> seq<Entry<K, V>>)
      requires index.Inv()
      ensures Inv() && !Valid() && fresh(Repr - {index})
      ensures lt == index.lt && entries == Concat(index.entries, blockFunction, |index.entries|)
    {
      this.lt := index.lt;
      this.blockFunction := blockFunction;
      this.index := index;
      data, handle := null, None;
      entries := Concat(index.entries, blockFunction, |index.entries|);
      pos := |Concat(index.entries, blockFunction, |index.entries|)|;
      Repr := {this, index};
    }

    ghost function Off(b: nat): nat
      requires b <= |index.entries|
    {
      Offset(index.entries, blockFunction, b)
    }

    /** What Seek relies on: the index keys separate sorted blocks. */
    ghost predicate Ordered() {
      TotalOrder(lt) && Sorted(lt, index.entries) && Separates(lt, index.entries, blockFunction)
    }

    ghost predicate Frame()
      reads this, Repr
    {
      && this in Repr && index in Repr && (data != null ==> data in Repr && data as object != index)
      && index.Inv() && index.lt == lt
      && entries == Concat(index.entries, blockFunction, |index.entries|)
      && (data != null ==> data.Inv() && data.lt == lt && handle.Some? && data.entries == blockFunction(handle.value))
    }

    ghost predicate Inv()
      reads this, Repr
      ensures Inv() ==> this in Repr
    {
      && Frame() && pos <= |entries|
      && (data != null && data.Valid() ==>
            && index.Valid() && handle.value == index.Value() && pos == Off(index.pos) + data.pos
            && pos < |entries| && entries[pos] == data.entries[data.pos])
      && (data == null || !data.Valid() ==> pos == |entries|)
    }

    predicate Valid()
      reads this, data
    {
      data != null && data.Valid()
    }

    function Key(): InternalKey<K>
      reads this, data
      requires Valid()
    {
      data.Key()
    }

    function Value(): V
      reads this, data
      requires Valid()
    {
      data.Value()
    }

    method InitDataBlock()
      requires Frame()
      modifies Repr
      ensures Frame() && fresh(Repr - old(Repr)) && index.pos == old(index.pos) && pos == old(pos)
      ensures if index.Valid() then data != null && handle == Some(index.Value()) else data == null
    {
      if !index.Valid() {
        data := null;
      } else {
        var h := index.Value();
        if data != null && Some(h) == handle {
        } else {
          var iter := new Cursor(lt, blockFunction(h));
          handle := Some(h);
          data := iter;
          Repr := Repr + {iter};
        }
      }
    }

    method SkipEmptyDataBlocksForward()
      requires Frame()
      requires data != null ==> index.Valid() && handle == Some(index.Value())
      requires pos == if data == null then |entries| else Off(index.pos) + data.pos
      requires data == null ==> !index.Valid()
      modifies Repr
      ensures Inv() && fresh(Repr - old(Repr)) && pos == old(pos)
    {
      while data == null || !data.Valid()
        invariant Frame() && fresh(Repr - old(Repr)) && pos == old(pos)
        invariant data != null ==> index.Valid() && handle == Some(index.Value())
        invariant pos == if data == null then |entries| else Off(index.pos) + data.pos
        invariant data == null ==> !index.Valid()
        decreases |index.entries| - index.pos
      {
        if !index.Valid() {
          data := null;
          return;
        }
        index.Next();
        InitDataBlock();
        if data != null {
          data.SeekToFirst();
        }
      }
      ConcatAt(index.entries, blockFunction, index.pos, |index.entries|);
    }

    method SkipEmptyDataBlocksBackward(ghost target: int)
      requires Frame() && -1 <= target < |entries|
      requires data != null ==> index.Valid() && handle == Some(index.Value())
      requires data == null ==> !index.Valid() && target == -1
      requires data != null ==> target == if data.Valid() then Off(index.pos) + data.pos else Off(index.pos) - 1
      modifies Repr
      ensures Inv() && fresh(Repr - old(Repr)) && pos == if target == -1 then |entries| else target
    {
      while data == null || !data.Valid()
        invariant Frame() && fresh(Repr - old(Repr))
        invariant data != null ==> index.Valid() && handle == Some(index.Value())
        invariant data == null ==> !index.Valid() && target == -1
        invariant data != null ==> target == if data.Valid() then Off(index.pos) + data.pos else Off(index.pos) - 1
        decreases if index.Valid() then index.pos + 1 else 0
      {
        if !index.Valid() {
          data := null;
          pos := |entries|;
          return;
        }
        index.Prev();
        InitDataBlock();
        if data != null {
          data.SeekToLast();
        }
      }
      pos := target;
      ConcatAt(index.entries, blockFunction, index.pos, |index.entries|);
    }

    method Seek(target: InternalKey<K>)
      requires Inv() && Ordered() && lt == index.lt
      modifies Repr
      ensures Inv() && fresh(Repr - old(Repr)) && LowerBound(lt, entries, target, pos)
    {
      hide LowerBound, TotalOrder, Sorted, Concat, Offset;
      index.Seek(target);
      InitDataBlock();
      if data != null {
        data.Seek(target);
      }
      SeekLands(lt, index.entries, blockFunction, target, index.pos, if data == null then 0 else data.pos);
      pos := Off(index.pos) + if data == null then 0 else data.pos;
      SkipEmptyDataBlocksForward();
    }

    method SeekToFirst()
      requires Inv()
      modifies Repr
      ensures Inv() && fresh(Repr - old(Repr)) && pos == 0
    {
      index.SeekToFirst();
      InitDataBlock();
      if data != null {
        data.SeekToFirst();
      }
      pos := 0;
      SkipEmptyDataBlocksForward();
    }

    method SeekToLast()
      requires Inv()
      modifies Repr
      ensures Inv() && fresh(Repr - old(Repr)) && pos == if |entries| == 0 then 0 else |entries| - 1
    {
      index.SeekToLast();
      InitDataBlock();
      if data != null {
        data.SeekToLast();
      }
      SkipEmptyDataBlocksBackward(|entries| - 1);
    }

    method Next()
      requires Inv() && Valid()
      modifies Repr
      ensures Inv() && fresh(Repr - old(Repr)) && pos == old(pos) + 1
    {
      data.Next();
      pos := pos + 1;
      SkipEmptyDataBlocksForward();
    }

    method Prev()
      requires Inv() && Valid()
      modifies Repr
      ensures Inv() && fresh(Repr - old(Repr)) && pos == if old(pos) == 0 then |entries| else old(pos) - 1
    {
      ghost var target := pos - 1;
      data.Prev();
      SkipEmptyDataBlocksBackward(target);
    }
  }
}
