/** The list of live snapshots (db/snapshot.h) and the bound it gives to compactions (db/db_impl.cc). */
module Snapshots {
  class SnapshotImpl {
    const number: nat
    var prev: SnapshotImpl?
    var next: SnapshotImpl?

    constructor (number: nat)
      ensures this.number == number && prev == null && next == null
    {
      this.number, prev, next := number, null, null;
    }
  }

  /** A circular doubly linked list through a dummy head. */
  class SnapshotList {
    const list: SnapshotImpl
    // The live snapshots, oldest first.
    ghost var live: seq<SnapshotImpl>
    // Once round the list: the head, the live snapshots and the head again.
    ghost var ring: seq<SnapshotImpl>

    constructor ()
      ensures Valid() && live == [] && fresh(list)
    {
      list := new SnapshotImpl(0);
      live := [];
      new;
      ring := [list, list];
      list.prev, list.next := list, list;
    }

    /** The links go round the nodes of `r`, from the head back to it. */
    static ghost predicate IsRing(list: SnapshotImpl, r: seq<SnapshotImpl>)
      reads r
    {
      && |r| >= 2 && r[0] == r[|r| - 1] == list
      && (forall i, j | 0 <= i < j < |r| - 1 :: r[i] != r[j])
      && (forall i | 0 <= i < |r| - 1 :: r[i].next == r[i + 1])
      && (forall i | 1 <= i < |r| :: r[i].prev == r[i - 1])
    }

    /** `s` is what `r` has between its ends, and its numbers never fall. */
    static ghost predicate Holds(r: seq<SnapshotImpl>, s: seq<SnapshotImpl>)
      ensures Holds(r, s) ==> |r| == |s| + 2 && forall i | 0 <= i < |s| :: s[i] == r[i + 1]
    {
      && |r| == |s| + 2
      && (forall i | 0 <= i < |s| :: s[i] == r[i + 1])
      && (forall i, j | 0 <= i < j < |s| :: s[i].number <= s[j].number)
    }

    ghost predicate Valid()
      reads this, list, ring
    {
      IsRing(list, ring) && Holds(ring, live)
    }

    predicate Empty()
      reads this, list, ring
      requires Valid()
      ensures Empty() <==> live == []
    {
      assert ring[0].next == ring[1];
      list.next == list
    }

    /** The oldest snapshot, whose number bounds those of all others. */
    method Oldest() returns (s: SnapshotImpl)
      requires Valid() && live != []
      ensures s == live[0] && forall t | t in live :: s.number <= t.number
    {
      assert ring[0].next == ring[1];
      s := list.next;
    }

    method Newest() returns (s: SnapshotImpl)
      requires Valid() && live != []
      ensures s == live[|live| - 1] && forall t | t in live :: t.number <= s.number
    {
      assert ring[|ring| - 1].prev == ring[|ring| - 2];
      s := list.prev;
    }

    /** A snapshot of the current sequence number, which is at least that of any earlier one. */
    method New(seqno: nat) returns (s: SnapshotImpl)
      requires Valid() && forall t | t in live :: t.number <= seqno
      modifies this, list, ring
      ensures Valid() && fresh(s) && s.number == seqno && live == old(live) + [s]
    {
      s := new SnapshotImpl(seqno);
      ghost var n := |ring| - 1;
      assert ring[n].prev == ring[n - 1];
      s.next := list;
      s.prev := list.prev;
      s.prev.next := s;
      s.next.prev := s;
      ring, live := ring[..n] + [s, list], live + [s];
    }

    /** The nodes beside the `i`-th of the ring are linked to each other, all others as before. */
    static ghost predicate Bypassed(r: seq<SnapshotImpl>, i: nat)
      reads r
    {
      && 0 < i < |r| - 1
      && (forall a, b | 0 <= a < b < |r| - 1 :: r[a] != r[b])
      && r[i - 1].next == r[i + 1] && (forall k | 0 <= k < |r| - 1 && k != i - 1 :: r[k].next == r[k + 1])
      && r[i + 1].prev == r[i - 1] && (forall k | 1 <= k < |r| && k != i + 1 :: r[k].prev == r[k - 1])
    }

    method Unlink(s: SnapshotImpl, ghost i: nat)
      requires IsRing(list, ring) && 0 < i < |ring| - 1 && ring[i] == s
      modifies ring
      ensures Bypassed(ring, i)
    {
      assert ring[i].next == ring[i + 1] && ring[i].prev == ring[i - 1];
      s.prev.next := s.next;
      s.next.prev := s.prev;
    }

    /** Takes a live snapshot out of the list. */
    method Delete(s: SnapshotImpl)
      requires Valid() && s in live
      modifies this, list, ring
      ensures Valid() && exists i :: 0 <= i < |old(live)| && old(live)[i] == s && live == old(live)[..i] + old(live)[i + 1..]
    {
      hide IsRing, Holds, Bypassed;
      ghost var p :| 0 <= p < |live| && live[p] == s;
      RingEnds(list, ring);
      Unlink(s, p + 1);
      RingAfter(list, ring, p + 1);
      HoldsAfter(ring, live, p);
      ring, live := ring[..p + 1] + ring[p + 2..], live[..p] + live[p + 1..];
    }

    static lemma RingEnds(list: SnapshotImpl, r: seq<SnapshotImpl>)
      requires IsRing(list, r)
      ensures r[0] == list == r[|r| - 1]
    {
    }

    /** Leaving out a node that is passed by closes the ring without it. */
    static lemma RingAfter(list: SnapshotImpl, was: seq<SnapshotImpl>, i: nat)
      requires Bypassed(was, i) && was[0] == was[|was| - 1] == list
      ensures IsRing(list, was[..i] + was[i + 1..])
    {
      var r := was[..i] + was[i + 1..];
      Removed(was, r, i);
      forall k | 0 <= k < |r| - 1 ensures r[k].next == r[k + 1] {
        assert r[k] == was[if k < i then k else k + 1];
      }
      forall k | 1 <= k < |r| ensures r[k].prev == r[k - 1] {
        assert r[k] == was[if k < i then k else k + 1];
      }
    }

    static lemma HoldsAfter(r: seq<SnapshotImpl>, s: seq<SnapshotImpl>, p: nat)
      requires Holds(r, s) && p < |s|
      ensures Holds(r[..p + 1] + r[p + 2..], s[..p] + s[p + 1..])
    {
      Removed(r, r[..p + 1] + r[p + 2..], p + 1);
      Removed(s, s[..p] + s[p + 1..], p);
    }
  }

  lemma Removed<T>(was: seq<T>, s: seq<T>, i: nat)
    requires i < |was| && s == was[..i] + was[i + 1..]
    ensures |s| == |was| - 1 && forall k | 0 <= k < |s| :: s[k] == was[if k < i then k else k + 1]
  {
  }

  /** What DoCompactionWork may treat as the oldest sequence number still read: no live snapshot and no new
      one is older. */
  method SmallestSnapshot(snapshots: SnapshotList, lastSequence: nat) returns (smallest: nat)
    requires snapshots.Valid() && forall t | t in snapshots.live :: t.number <= lastSequence
    ensures smallest <= lastSequence && forall t | t in snapshots.live :: smallest <= t.number
    ensures smallest == lastSequence || exists t :: t in snapshots.live && t.number == smallest
  {
    if snapshots.Empty() {
      smallest := lastSequence;
    } else {
      var s := snapshots.Oldest();
      smallest := s.number;
    }
  }
}
