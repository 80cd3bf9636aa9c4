/** snapshot.h: the circular list whose first element is the oldest live snapshot. */
module SnapshotLists {

  class SnapshotImpl {
    const sequenceNumber: nat
    var prev: SnapshotImpl?
    var next: SnapshotImpl?

    constructor (sequenceNumber: nat)
      ensures this.sequenceNumber == sequenceNumber
    {
      this.sequenceNumber := sequenceNumber;
      prev, next := null, null;
    }
  }

  ghost function StopOf(head: SnapshotImpl, list: seq<SnapshotImpl>, i: nat): SnapshotImpl
    requires i <= |list| + 1
  {
    if 0 < i <= |list| then list[i - 1] else head
  }

  ghost predicate NoneTwice(head: SnapshotImpl, list: seq<SnapshotImpl>) {
    head !in list && forall i, j :: 0 <= i < j < |list| ==> list[i] != list[j]
  }

  /** Only the first and the last stop, the head, are the same. */
  lemma Apart(head: SnapshotImpl, list: seq<SnapshotImpl>, i: nat, j: nat)
    requires NoneTwice(head, list) && i < j <= |list| + 1 && (i > 0 || j <= |list|)
    ensures StopOf(head, list, i) != StopOf(head, list, j)
  {
  }

  ghost predicate NeverDecreasing(list: seq<SnapshotImpl>) {
    forall i, j :: 0 <= i < j < |list| ==> list[i].sequenceNumber <= list[j].sequenceNumber
  }

  lemma OneLess(head: SnapshotImpl, list: seq<SnapshotImpl>, k: nat)
    requires NoneTwice(head, list) && NeverDecreasing(list) && k < |list|
    ensures NoneTwice(head, list[..k] + list[k + 1..]) && NeverDecreasing(list[..k] + list[k + 1..])
  {
  }

  class SnapshotList {
    // The dummy head of the list.
    const head: SnapshotImpl
    // The live snapshots, oldest first.
    ghost var list: seq<SnapshotImpl>

    /** The `i`-th stop of a walk round the ring from the head, which is stop 0 and the one
        after the last. */
    ghost function Stop(i: nat): SnapshotImpl
      requires i <= |list| + 1
      reads this
    {
      StopOf(head, list, i)
    }

    /** Stop `i` and the one after it point to each other. */
    ghost predicate Linked(i: nat)
      requires i <= |list|
      reads this, head, list
    {
      Stop(i).next == Stop(i + 1) && Stop(i + 1).prev == Stop(i)
    }

    ghost predicate Ring()
      reads this, head, list
    {
      forall i: nat :: i <= |list| ==> Linked(i)
    }

    ghost predicate Distinct()
      reads this
    {
      NoneTwice(head, list)
    }

    /** The ring is the list, and sequence numbers never decrease along it. */
    ghost predicate Valid()
      reads this, head, list
    {
      && Ring() && Distinct()
      && NeverDecreasing(list)
    }

    constructor ()
      ensures Valid() && list == [] && fresh(head)
    {
      var h := new SnapshotImpl(0);
      head := h;
      list := [];
      new;
      h.prev, h.next := h, h;
    }

    method Empty() returns (r: bool)
      requires Valid()
      ensures r <==> list == []
    {
      assert Linked(0);
      r := head.next == head;
    }

    /** The oldest snapshot has the least sequence number of all. */
    method Oldest() returns (r: SnapshotImpl)
      requires Valid() && list != []
      ensures r == list[0] && forall s :: s in list ==> r.sequenceNumber <= s.sequenceNumber
    {
      assert Linked(0);
      r := head.next;
    }

    method Newest() returns (r: SnapshotImpl)
      requires Valid() && list != []
      ensures r == list[|list| - 1] && forall s :: s in list ==> s.sequenceNumber <= r.sequenceNumber
    {
      assert Linked(|list|);
      r := head.prev;
    }

    method New(sequenceNumber: nat) returns (snapshot: SnapshotImpl)
      requires Valid() && forall s :: s in list ==> s.sequenceNumber <= sequenceNumber
      modifies this, head, list
      ensures Valid() && fresh(snapshot) && snapshot.sequenceNumber == sequenceNumber
      ensures list == old(list) + [snapshot]
    {
      snapshot := new SnapshotImpl(sequenceNumber);
      ghost var n := |list|;
      assert Linked(n);
      snapshot.next := head;
      snapshot.prev := head.prev;
      snapshot.prev.next := snapshot;
      snapshot.next.prev := snapshot;
      list := list + [snapshot];
      forall i: nat | i <= |list|
        ensures Linked(i)
      {
        if i < n {
          assert old(Linked(i));
        }
      }
    }

    /** The snapshot leaves the ring; its neighbours close up. */
    method Delete(snapshot: SnapshotImpl, ghost k: nat)
      requires Valid() && k < |list| && snapshot == list[k]
      modifies head, list, this
      ensures Valid() && list == old(list)[..k] + old(list)[k + 1..]
    {
      hide NoneTwice, NeverDecreasing;
      ghost var was := list;
      OneLess(head, list, k);
      assert Linked(k) && Linked(k + 1);
      snapshot.prev.next := snapshot.next;
      snapshot.next.prev := snapshot.prev;
      list := list[..k] + list[k + 1..];
      forall i: nat | i <= |list|
        ensures Linked(i)
      {
        assert Stop(i) == StopOf(head, was, if i <= k then i else i + 1);
        assert Stop(i + 1) == StopOf(head, was, if i < k then i + 1 else i + 2);
        if i < k {
          assert old(Linked(i));
          Apart(head, was, i, k);
          Apart(head, was, i + 1, k + 2);
        } else if i > k {
          assert old(Linked(i + 1));
          Apart(head, was, k, i + 1);
          Apart(head, was, k + 2, i + 2);
        }
      }
    }
  }
}
