/** LRUCache: reference-counted entries on one of two circular lists, found through the
    hash table, evicted oldest first. */
module LruCache {
  import opened HandleTable

  // ---------------------------------------------------------------- circular lists

  const LRU_HEAD: nat := 0
  const IN_USE_HEAD: nat := 1

  /** The `i`-th stop of a circular list: the dummy head, the entries, the head again. */
  function Stop(head: nat, ring: seq<nat>, i: nat): nat
    requires i <= |ring| + 1
  {
    if i == 0 || i == |ring| + 1 then head else ring[i - 1]
  }

  ghost predicate RingOk(next: seq<nat>, prev: seq<nat>, head: nat, ring: seq<nat>) {
    && |next| == |prev| && 2 <= |next| && head < 2
    && (forall i :: 0 <= i < |ring| ==> 2 <= ring[i] < |next|)
    && NoDup(ring)
    && (forall i: nat, j: nat :: j == i + 1 && j <= |ring| + 1 ==>
          next[Stop(head, ring, i)] == Stop(head, ring, j) && prev[Stop(head, ring, j)] == Stop(head, ring, i))
  }

  /** LRU_Remove: the two neighbours of `e` are linked to each other. */
  function UnlinkedNext(next: seq<nat>, prev: seq<nat>, e: nat): seq<nat>
    requires e < |next| == |prev| && prev[e] < |next|
  {
    next[prev[e] := next[e]]
  }

  function UnlinkedPrev(next: seq<nat>, prev: seq<nat>, e: nat): seq<nat>
    requires e < |next| == |prev| && next[e] < |prev|
  {
    prev[next[e] := prev[e]]
  }

  function Without(ring: seq<nat>, k: nat): seq<nat>
    requires k < |ring|
  {
    ring[..k] + ring[k + 1..]
  }

  lemma Neighbours(next: seq<nat>, prev: seq<nat>, head: nat, ring: seq<nat>, k: nat)
    requires RingOk(next, prev, head, ring) && k < |ring|
    ensures next[ring[k]] == Stop(head, ring, k + 2) < |next| && prev[ring[k]] == Stop(head, ring, k) < |next|
  {
    assert Stop(head, ring, k + 1) == ring[k];
    var i, j := k + 1, k + 2;
    assert next[Stop(head, ring, i)] == Stop(head, ring, j);
    assert prev[Stop(head, ring, i)] == Stop(head, ring, k);
  }

  lemma Unlink(next: seq<nat>, prev: seq<nat>, head: nat, ring: seq<nat>, k: nat)
    requires RingOk(next, prev, head, ring) && k < |ring|
    ensures next[ring[k]] < |next| && prev[ring[k]] < |next|
    ensures RingOk(UnlinkedNext(next, prev, ring[k]), UnlinkedPrev(next, prev, ring[k]), head, Without(ring, k))
  {
    Neighbours(next, prev, head, ring, k);
    var e, ring' := ring[k], Without(ring, k);
    var next', prev' := UnlinkedNext(next, prev, e), UnlinkedPrev(next, prev, e);
    forall i: nat, j: nat | j == i + 1 && j <= |ring'| + 1
      ensures next'[Stop(head, ring', i)] == Stop(head, ring', j) && prev'[Stop(head, ring', j)] == Stop(head, ring', i)
    {
      var a, b := if i <= k then i else i + 1, if j <= k then j else j + 1;
      assert Stop(head, ring', i) == Stop(head, ring, a) && Stop(head, ring', j) == Stop(head, ring, b);
      StopsDistinct(next, prev, head, ring, k, a, b);
      if i == k {
        assert a == k && b == k + 2;
      } else {
        assert b == a + 1;
        assert next[Stop(head, ring, a)] == Stop(head, ring, b);
      }
    }
  }

  /** Different stops are different addresses, except that both ends are the head. */
  lemma StopsDistinct(next: seq<nat>, prev: seq<nat>, head: nat, ring: seq<nat>, k: nat, a: nat, b: nat)
    requires RingOk(next, prev, head, ring) && k < |ring| && a <= |ring| && 1 <= b <= |ring| + 1
    ensures Stop(head, ring, a) == Stop(head, ring, k) <==> a == k
    ensures Stop(head, ring, b) == Stop(head, ring, k + 2) <==> b == k + 2
    ensures Stop(head, ring, a) < |next| && Stop(head, ring, b) < |next|
  {
  }

  /** LRU_Append: `e` becomes the newest entry, just before the head. */
  function AppendedNext(next: seq<nat>, prev: seq<nat>, head: nat, e: nat): seq<nat>
    requires e < |next| == |prev| && head < |next| && prev[head] < |next|
  {
    next[e := head][prev[head] := e]
  }

  function AppendedPrev(prev: seq<nat>, head: nat, e: nat): seq<nat>
    requires e < |prev| && head < |prev|
  {
    prev[e := prev[head]][head := e]
  }

  lemma LastStop(next: seq<nat>, prev: seq<nat>, head: nat, ring: seq<nat>)
    requires RingOk(next, prev, head, ring)
    ensures prev[head] == Stop(head, ring, |ring|) < |next|
    ensures next[head] == Stop(head, ring, 1) < |next|
  {
    var i, j := |ring|, |ring| + 1;
    assert prev[Stop(head, ring, j)] == Stop(head, ring, i);
    var o: nat, p := 0, 1;
    assert next[Stop(head, ring, o)] == Stop(head, ring, p);
  }

  lemma Append(next: seq<nat>, prev: seq<nat>, head: nat, ring: seq<nat>, e: nat)
    requires RingOk(next, prev, head, ring) && 2 <= e < |next| && e !in ring
    ensures prev[head] < |next|
    ensures RingOk(AppendedNext(next, prev, head, e), AppendedPrev(prev, head, e), head, ring + [e])
  {
    LastStop(next, prev, head, ring);
    var ring' := ring + [e];
    var next', prev' := AppendedNext(next, prev, head, e), AppendedPrev(prev, head, e);
    forall i: nat, j: nat | j == i + 1 && j <= |ring'| + 1
      ensures next'[Stop(head, ring', i)] == Stop(head, ring', j) && prev'[Stop(head, ring', j)] == Stop(head, ring', i)
    {
      if i < |ring| {
        assert Stop(head, ring', i) == Stop(head, ring, i) && Stop(head, ring', j) == Stop(head, ring, j);
        assert next[Stop(head, ring, i)] == Stop(head, ring, j);
        LastIsLast(next, prev, head, ring, i);
      } else if i == |ring| {
        assert Stop(head, ring', i) == Stop(head, ring, i) && Stop(head, ring', j) == e;
      }
    }
  }

  lemma LastIsLast(next: seq<nat>, prev: seq<nat>, head: nat, ring: seq<nat>, i: nat)
    requires RingOk(next, prev, head, ring) && i < |ring|
    ensures Stop(head, ring, i) != Stop(head, ring, |ring|) && Stop(head, ring, i + 1) != head
  {
  }

  /** Links of other addresses do not matter to a list. */
  lemma RingFrame(next: seq<nat>, prev: seq<nat>, next': seq<nat>, prev': seq<nat>, head: nat, ring: seq<nat>)
    requires RingOk(next, prev, head, ring) && |next| <= |next'| == |prev'|
    requires forall a :: (a == head || a in ring) && a < |next| ==> next'[a] == next[a] && prev'[a] == prev[a]
    ensures RingOk(next', prev', head, ring)
  {
    forall i: nat, j: nat | j == i + 1 && j <= |ring| + 1
      ensures next'[Stop(head, ring, i)] == Stop(head, ring, j) && prev'[Stop(head, ring, j)] == Stop(head, ring, i)
    {
      assert next[Stop(head, ring, i)] == Stop(head, ring, j);
      assert Stop(head, ring, i) == head || Stop(head, ring, i) in ring;
      assert Stop(head, ring, j) == head || Stop(head, ring, j) in ring;
    }
  }

  /** Unlinking from one list, or appending to it, leaves the other as it is. */
  lemma UnlinkOther(next: seq<nat>, prev: seq<nat>, head: nat, ring: seq<nat>, k: nat, head': nat, other: seq<nat>)
    requires RingOk(next, prev, head, ring) && k < |ring| && RingOk(next, prev, head', other) && head != head'
    requires forall a :: a in ring ==> a !in other
    ensures next[ring[k]] < |next| && prev[ring[k]] < |next|
    ensures RingOk(UnlinkedNext(next, prev, ring[k]), UnlinkedPrev(next, prev, ring[k]), head', other)
  {
    Neighbours(next, prev, head, ring, k);
    StopMember(head, ring, k);
    StopMember(head, ring, k + 2);
    RingFrame(next, prev, UnlinkedNext(next, prev, ring[k]), UnlinkedPrev(next, prev, ring[k]), head', other);
  }

  lemma StopMember(head: nat, ring: seq<nat>, i: nat)
    requires i <= |ring| + 1
    ensures Stop(head, ring, i) == head || Stop(head, ring, i) in ring
  {
  }

  lemma AppendOther(next: seq<nat>, prev: seq<nat>, head: nat, ring: seq<nat>, e: nat, head': nat, other: seq<nat>)
    requires RingOk(next, prev, head, ring) && RingOk(next, prev, head', other) && head != head'
    requires 2 <= e < |next| && e !in other && forall a :: a in ring ==> a !in other
    ensures prev[head] < |next|
    ensures RingOk(AppendedNext(next, prev, head, e), AppendedPrev(prev, head, e), head', other)
  {
    LastStop(next, prev, head, ring);
    StopMember(head, ring, |ring|);
    RingFrame(next, prev, AppendedNext(next, prev, head, e), AppendedPrev(prev, head, e), head', other);
  }

  // ---------------------------------------------------------------- charges

  /** The charges of the cached entries among the first `n` addresses. */
  function TotalCharge(charge: seq<nat>, cached: set<nat>, n: nat): nat
    requires n <= |charge|
  {
    if n == 0 then 0 else TotalCharge(charge, cached, n - 1) + if n - 1 in cached then charge[n - 1] else 0
  }

  lemma {:induction false} ChargeAdded(charge: seq<nat>, cached: set<nat>, n: nat, a: nat)
    requires n <= |charge| && a < |charge| && a !in cached
    ensures TotalCharge(charge, cached + {a}, n) == TotalCharge(charge, cached, n) + if a < n then charge[a] else 0
  {
    if n > 0 {
      ChargeAdded(charge, cached, n - 1, a);
    }
  }

  lemma ChargeRemoved(charge: seq<nat>, cached: set<nat>, n: nat, a: nat)
    requires a < n <= |charge| && a in cached
    ensures TotalCharge(charge, cached - {a}, n) == TotalCharge(charge, cached, n) - charge[a]
  {
    ChargeAdded(charge, cached - {a}, n, a);
    assert cached - {a} + {a} == cached;
  }

  lemma {:induction false} ChargeSame(charge: seq<nat>, charge': seq<nat>, cached: set<nat>, n: nat)
    requires n <= |charge| && charge <= charge'
    ensures TotalCharge(charge', cached, n) == TotalCharge(charge, cached, n)
  {
    if n > 0 {
      ChargeSame(charge, charge', cached, n - 1);
    }
  }

  lemma {:induction false} NoCharge(charge: seq<nat>, n: nat)
    requires n <= |charge|
    ensures TotalCharge(charge, {}, n) == 0
  {
    if n > 0 {
      NoCharge(charge, n - 1);
    }
  }

  // ---------------------------------------------------------------- moving between lists

  lemma WithoutMembers(ring: seq<nat>, k: nat)
    requires NoDup(ring) && k < |ring|
    ensures forall a :: a in Without(ring, k) <==> a in ring && a != ring[k]
  {
    forall a
      ensures a in Without(ring, k) <==> a in ring && a != ring[k]
    {
      assert ring == ring[..k] + [ring[k]] + ring[k + 1..];
    }
  }

  /** Unlinking an entry from a list, with the other list in view. */
  lemma UnlinkBoth(next: seq<nat>, prev: seq<nat>, head: nat, ring: seq<nat>, k: nat, head': nat, other: seq<nat>)
    requires RingOk(next, prev, head, ring) && k < |ring| && RingOk(next, prev, head', other) && head != head'
    requires forall a :: a in ring ==> a !in other
    ensures next[ring[k]] < |next| && prev[ring[k]] < |next|
    ensures var n, p := UnlinkedNext(next, prev, ring[k]), UnlinkedPrev(next, prev, ring[k]);
            RingOk(n, p, head, Without(ring, k)) && RingOk(n, p, head', other)
    ensures forall a :: a in Without(ring, k) <==> a in ring && a != ring[k]
  {
    Unlink(next, prev, head, ring, k);
    UnlinkOther(next, prev, head, ring, k, head', other);
    WithoutMembers(ring, k);
  }

  lemma AppendBoth(next: seq<nat>, prev: seq<nat>, head: nat, ring: seq<nat>, e: nat, head': nat, other: seq<nat>)
    requires RingOk(next, prev, head, ring) && RingOk(next, prev, head', other) && head != head'
    requires 2 <= e < |next| && e !in ring && e !in other && forall a :: a in ring ==> a !in other
    ensures prev[head] < |next|
    ensures var n, p := AppendedNext(next, prev, head, e), AppendedPrev(prev, head, e);
            RingOk(n, p, head, ring + [e]) && RingOk(n, p, head', other)
  {
    Append(next, prev, head, ring, e);
    AppendOther(next, prev, head, ring, e, head', other);
  }

  // ---------------------------------------------------------------- the cache

  /** The state of a cache, field by field: `clients` counts the handles that clients
      hold, `deleted` lists the entries whose deleter has run. */
  datatype State = State(
    next: seq<nat>, prev: seq<nat>, charge: seq<nat>, refs: seq<nat>, inCache: seq<bool>, usage: nat,
    lru: seq<nat>, inUse: seq<nat>, clients: multiset<nat>, deleted: seq<nat>)

  ghost predicate Shape(s: State) {
    && |s.next| == |s.prev| == |s.charge| == |s.refs| == |s.inCache| >= 2
    && RingOk(s.next, s.prev, LRU_HEAD, s.lru) && RingOk(s.next, s.prev, IN_USE_HEAD, s.inUse)
    && forall a :: a in s.lru ==> a !in s.inUse
  }

  /** What holds of one entry: it is on the list its references say, if it is cached; its
      references are the clients' and the cache's; its deleter has run once or not yet. */
  ghost predicate EntryOk(s: State, a: nat)
    requires Shape(s) && a < |s.next|
  {
    && (a in s.lru <==> s.inCache[a] && s.refs[a] == 1)
    && (a in s.inUse <==> s.inCache[a] && s.refs[a] >= 2)
    && s.refs[a] == s.clients[a] + (if s.inCache[a] then 1 else 0)
    && multiset(s.deleted)[a] == (if s.refs[a] == 0 then 1 else 0)
  }

  ghost predicate CacheInv(s: State, cached: set<nat>) {
    && Shape(s)
    && (forall a: nat :: 2 <= a < |s.next| ==> EntryOk(s, a) && (s.inCache[a] <==> a in cached))
    && (forall a :: a in cached ==> 2 <= a < |s.next|)
    && (forall a :: a in s.clients ==> 2 <= a < |s.next|)
    && (forall a :: a in s.deleted ==> 2 <= a < |s.next|)
    && s.usage == TotalCharge(s.charge, cached, |s.charge|)
  }

  class LRUCache {
    const table: Table
    const capacity: nat
    var next: seq<nat>
    var prev: seq<nat>
    var charge: seq<nat>
    var refs: seq<nat>
    var inCache: seq<bool>
    var usage: nat
    var deleted: seq<nat>
    ghost var lru: seq<nat>
    ghost var inUse: seq<nat>
    ghost var clients: multiset<nat>

    ghost function Now(): State
      reads this
    {
      State(next, prev, charge, refs, inCache, usage, lru, inUse, clients, deleted)
    }

    ghost predicate Valid()
      reads this, table
    {
      table.Valid() && |table.names| == |next| && CacheInv(Now(), table.Members())
    }

    constructor (capacity: nat)
      ensures Valid() && fresh(table) && table.Members() == {} && clients == multiset{} && deleted == []
      ensures this.capacity == capacity
    {
      this.capacity := capacity;
      var t := new Table();
      table := t;
      next, prev := [LRU_HEAD, IN_USE_HEAD], [LRU_HEAD, IN_USE_HEAD];
      charge, refs, inCache, usage, deleted := [0, 0], [0, 0], [false, false], 0, [];
      lru, inUse, clients := [], [], multiset{};
      new;
      NoCharge(charge, 2);
    }

    method LRU_Remove(e: nat, ghost head: nat, ghost ring: seq<nat>, ghost k: nat)
      requires RingOk(next, prev, head, ring) && k < |ring| && ring[k] == e
      modifies this`next, this`prev
      ensures e < |old(next)| == |old(prev)| && old(prev)[e] < |old(next)| && old(next)[e] < |old(next)|
      ensures next == UnlinkedNext(old(next), old(prev), e) && prev == UnlinkedPrev(old(next), old(prev), e)
    {
      Neighbours(next, prev, head, ring, k);
      prev := prev[next[e] := prev[e]];
      assert prev[e] == old(prev)[e] by {
        NotOwnNeighbour(old(next), old(prev), head, ring, k);
      }
      next := next[prev[e] := next[e]];
    }

    method LRU_Append(head: nat, e: nat, ghost ring: seq<nat>)
      requires RingOk(next, prev, head, ring) && 2 <= e < |next| && e !in ring
      modifies this`next, this`prev
      ensures e < |old(next)| == |old(prev)| && head < 2 <= |old(next)| && old(prev)[head] < |old(next)|
      ensures next == AppendedNext(old(next), old(prev), head, e) && prev == AppendedPrev(old(prev), head, e)
    {
      LastStop(next, prev, head, ring);
      next := next[e := head];
      prev := prev[e := prev[head]];
      next := next[prev[e] := e];
      prev := prev[next[e] := e];
    }

    /** From the LRU list to the end of the in-use list. */
    method ToInUse(e: nat)
      requires Shape(Now()) && e in lru
      modifies this`next, this`prev, this`lru, this`inUse
      ensures Shape(Now()) && |next| == |old(next)|
      ensures inUse == old(inUse) + [e] && forall a :: a in lru <==> a in old(lru) && a != e
      ensures lru == Dropping(old(lru), e)
    {
      hide RingOk, NoDup, Dropping;
      ghost var k := IndexIn(lru, e);
      RingNoDup(next, prev, LRU_HEAD, lru);
      DroppingAt(lru, k);
      UnlinkBoth(next, prev, LRU_HEAD, lru, k, IN_USE_HEAD, inUse);
      RingBounds(next, prev, LRU_HEAD, lru);
      LRU_Remove(e, LRU_HEAD, lru, k);
      lru := Without(lru, k);
      AppendBoth(next, prev, IN_USE_HEAD, inUse, e, LRU_HEAD, lru);
      LRU_Append(IN_USE_HEAD, e, inUse);
      inUse := inUse + [e];
    }

    /** From the in-use list to the newest end of the LRU list. */
    method ToLru(e: nat)
      requires Shape(Now()) && e in inUse
      modifies this`next, this`prev, this`lru, this`inUse
      ensures Shape(Now()) && |next| == |old(next)|
      ensures lru == old(lru) + [e] && forall a :: a in inUse <==> a in old(inUse) && a != e
    {
      hide RingOk, NoDup;
      ghost var k := IndexIn(inUse, e);
      UnlinkBoth(next, prev, IN_USE_HEAD, inUse, k, LRU_HEAD, lru);
      RingBounds(next, prev, IN_USE_HEAD, inUse);
      LRU_Remove(e, IN_USE_HEAD, inUse, k);
      inUse := Without(inUse, k);
      AppendBoth(next, prev, LRU_HEAD, lru, e, IN_USE_HEAD, inUse);
      LRU_Append(LRU_HEAD, e, lru);
      lru := lru + [e];
    }

    /** One more client holds `e`; an entry that nobody held moves to the in-use list. */
    method Ref(e: nat)
      requires Valid() && 2 <= e < |next| && refs[e] > 0
      modifies this
      ensures Valid() && |next| == |old(next)| && clients == old(clients) + multiset{e}
      ensures deleted == old(deleted) && usage == old(usage) && inCache == old(inCache)
      ensures lru == Dropping(old(lru), e)
    {
      hide RingOk, NoDup, TotalCharge, Dropping, CacheInv, Table.Valid;
      ghost var before := Now();
      WhereIs(before, table.Members(), e);
      if refs[e] == 1 && inCache[e] {
        ToInUse(e);
      } else {
        DroppingAbsent(lru, e);
      }
      refs := refs[e := refs[e] + 1];
      clients := clients + multiset{e};
      Held(before, Now(), table.Members(), e);
    }

    /** A reference to `e` is given up, a client's or the cache's own.  With the last one
        the deleter runs; the entry that only the cache still holds becomes the newest of
        the LRU list. */
    method Unref(e: nat, ghost before: State, ghost cached: set<nat>, ghost cached': set<nat>)
      requires Shape(Now()) && 2 <= e < |next| && refs[e] > 0 && CacheInv(before, cached) && |before.next| == |next|
      requires forall a: nat :: 2 <= a < |next| && a != e ==> SameEntry(before, Now(), a) && (a in cached' <==> a in cached)
      requires charge == before.charge && usage == TotalCharge(charge, cached', |charge|)
      requires cached' <= cached && (inCache[e] <==> e in cached')
      requires forall a :: a in clients ==> a in before.clients
      requires deleted == before.deleted && multiset(deleted)[e] == 0
      requires refs[e] == clients[e] + (if inCache[e] then 1 else 0) + 1
      requires e in inUse <==> inCache[e] && refs[e] >= 2
      requires e in lru <==> inCache[e] && refs[e] == 1
      modifies this`next, this`prev, this`lru, this`inUse, this`refs, this`deleted
      ensures CacheInv(Now(), cached') && |next| == |old(next)|
      ensures !inCache[e] ==> inUse == old(inUse)
      ensures |refs| == |old(refs)| > e && refs[e] == old(refs[e]) - 1
      ensures lru == if inCache[e] && refs[e] == 1 then old(lru) + [e] else old(lru)
      ensures deleted == if refs[e] == 0 then old(deleted) + [e] else old(deleted)
    {
      hide RingOk, NoDup, TotalCharge;
      assert |inCache| == |next|;
      refs := refs[e := refs[e] - 1];
      if refs[e] == 0 {
        assert multiset(deleted + [e]) == multiset(deleted) + multiset{e};
        deleted := deleted + [e];
      } else if inCache[e] && refs[e] == 1 {
        ToLru(e);
      }
      forall a: nat | 2 <= a < |next| && a != e
        ensures SameEntry(before, Now(), a) && (a in cached' <==> a in cached)
      {
        assert SameEntry(before, old(Now()), a);
      }
      Changed(before, Now(), cached, cached', e);
    }

    /** An entry leaves the list it is on. */
    method TakeOff(e: nat)
      requires Shape(Now()) && (e in lru || e in inUse)
      modifies this`next, this`prev, this`lru, this`inUse
      ensures Shape(Now()) && |next| == |old(next)|
      ensures lru == Dropping(old(lru), e) && inUse == Dropping(old(inUse), e)
      ensures forall a :: a in lru <==> a in old(lru) && a != e
      ensures forall a :: a in inUse <==> a in old(inUse) && a != e
    {
      hide RingOk, NoDup, Dropping;
      DropOne(lru, inUse, e);
      ghost var idle := e in lru;
      ghost var head, ring := if idle then LRU_HEAD else IN_USE_HEAD, if idle then lru else inUse;
      ghost var k := IndexIn(ring, e);
      UnlinkBoth(next, prev, head, ring, k, LRU_HEAD + IN_USE_HEAD - head, if idle then inUse else lru);
      RingNoDup(next, prev, head, ring);
      LRU_Remove(e, head, ring, k);
      DroppingAt(ring, k);
      if idle {
        lru := Without(ring, k);
      } else {
        inUse := Without(ring, k);
      }
    }

    /** Finish taking `e` out of the cache; it is already out of the hash table. */
    method FinishErase(e: nat, ghost cached: set<nat>) returns (erased: bool)
      requires CacheInv(Now(), cached) && (e != 0 ==> e in cached)
      modifies this`next, this`prev, this`lru, this`inUse, this`refs, this`deleted, this`inCache, this`usage
      ensures erased <==> e != 0
      ensures CacheInv(Now(), cached - {e}) && |next| == |old(next)|
      ensures lru == Dropping(old(lru), e) && inUse == Dropping(old(inUse), e)
      ensures e != 0 ==> e < |charge| && usage == old(usage) - charge[e]
    {
      hide RingOk, NoDup, TotalCharge, Dropping;
      ghost var before := Now();
      erased := e != 0;
      DropNothing(lru, inUse, 0, next, prev);
      if e != 0 {
        assert EntryOk(before, e) && (inCache[e] <==> e in cached);
        TakeOff(e);
        ChargeRemoved(charge, cached, |charge|, e);
        inCache := inCache[e := false];
        usage := usage - charge[e];
        Unref(e, before, cached, cached - {e});
      } else {
        assert cached - {0} == cached;
      }
    }

    /** Look an entry up by key and hash; a client that finds one holds it. */
    method Lookup(name: Name) returns (e: nat)
      requires Valid()
      modifies this
      ensures Valid() && table.Finds(name, e)
      ensures clients == old(clients) + (if e == 0 then multiset{} else multiset{e})
      ensures deleted == old(deleted) && lru == Dropping(old(lru), e)
    {
      hide RingOk, NoDup, TotalCharge, Dropping;
      e := table.Lookup(name);
      if e != 0 {
        assert EntryOk(Now(), e) && inCache[e];
        Ref(e);
      } else {
        RingsDropNothing(Now(), table.Members());
      }
    }

    /** A client gives up one of its handles. */
    method Release(e: nat)
      requires Valid() && e in clients
      modifies this
      ensures Valid() && clients == old(clients) - multiset{e}
      ensures e in table.Members() || e in clients ==> deleted == old(deleted)
      ensures e !in table.Members() && e !in clients ==> deleted == old(deleted) + [e]
      ensures lru == if e in table.Members() && e !in clients then old(lru) + [e] else old(lru)
    {
      hide RingOk, NoDup, TotalCharge;
      ghost var before := Now();
      assert EntryOk(before, e) && (inCache[e] <==> e in table.Members());
      clients := clients - multiset{e};
      forall a: nat | 2 <= a < |next| && a != e
        ensures SameEntry(before, Now(), a)
      {
        assert EntryOk(before, a);
      }
      Unref(e, before, table.Members(), table.Members());
    }

    /** Memory for a new entry, held by the client that is inserting it. */
    method NewEntry(name: Name, c: nat) returns (e: nat)
      requires Valid()
      modifies this, table
      ensures Valid() && e == |old(next)| && table.names == old(table.names) + [name] && table.Members() == old(table.Members())
      ensures e !in table.Members() && 2 <= e < |next| && refs[e] == 1 && !inCache[e] && charge[e] == c
      ensures |refs| == |inCache| == |next| && clients[e] == 1
      ensures clients == old(clients) + multiset{e} && deleted == old(deleted)
      ensures lru == old(lru) && inUse == old(inUse) && usage == old(usage) && charge == old(charge) + [c]
    {
      hide RingOk, NoDup, TotalCharge;
      ghost var before := Now();
      e := table.Allocate(name);
      next, prev, charge, refs, inCache := next + [0], prev + [0], charge + [c], refs + [1], inCache + [false];
      clients := clients + multiset{e};
      Grown(before, Now(), table.Members(), e, c);
    }

    /** Insert: the new entry replaces one with the same key; then entries nobody holds are
        evicted, oldest first and no more of them than needed, until the charges fit or none
        is left. */
    method Insert(name: Name, c: nat) returns (e: nat, ghost replaced: nat)
      requires Valid()
      modifies this, table
      ensures Valid() && e == |old(next)| && table.names == old(table.names) + [name] && charge == old(charge) + [c]
      ensures clients == old(clients) + multiset{e}
      ensures capacity > 0 ==> old(table.Finds(name, replaced))
      ensures capacity == 0 ==> replaced == 0
      ensures var waiting := Dropping(old(lru), replaced);
              && EvictedAsNeeded(waiting, lru, charge, usage, capacity)
              && table.Members() == old(table.Members()) - {replaced} + (if capacity > 0 then {e} else {}) - Victims(waiting, lru)
    {
      hide RingOk, NoDup, TotalCharge, Dropping, CacheInv, EvictedAsNeeded, Victims, Table.Valid;
      e := NewEntry(name, c);
      replaced := 0;
      if capacity > 0 {
        replaced := Place(e);
      } else {
        RingsDropNothing(Now(), table.Members());
        NotZero(Now(), table.Members());
        assert table.Members() - {0} + {} == table.Members();
      }
      EvictWhileFull();
    }

    /** The eviction loop. */
    method EvictWhileFull()
      requires Valid()
      modifies this, table
      ensures Valid() && |next| == |old(next)| && table.names == old(table.names) && clients == old(clients) && charge == old(charge)
      ensures EvictedAsNeeded(old(lru), lru, charge, usage, capacity)
      ensures table.Members() == old(table.Members()) - Victims(old(lru), lru)
    {
      hide RingOk, NoDup, TotalCharge, CacheInv, EvictedSoFar, Victims, Table.Valid;
      RingsNoneLeft(Now(), table.Members());
      NoneEvicted(lru, charge, usage, capacity);
      while usage > capacity && next[LRU_HEAD] != LRU_HEAD
        invariant Valid() && |next| == |old(next)| && table.names == old(table.names) && clients == old(clients) && charge == old(charge)
        invariant EvictedSoFar(old(lru), lru, charge, usage, capacity)
        invariant table.Members() == old(table.Members()) - Victims(old(lru), lru)
        invariant next != [] && (next[LRU_HEAD] == LRU_HEAD <==> lru == [])
        decreases |lru|
      {
        ghost var waiting, all, before := lru, table.Members(), usage;
        EvictOldest();
        RingsNoneLeft(Now(), table.Members());
        OneEvicted(old(lru), waiting, lru, charge, before, usage, capacity);
      }
    }

    /** The branch of Insert for a cache that is turned on. */
    method Place(e: nat) returns (ghost replaced: nat)
      requires Valid() && 2 <= e < |next| && |refs| == |inCache| == |next|
      requires refs[e] == 1 && !inCache[e] && clients[e] == 1 && e !in table.Members()
      modifies this, table
      ensures Valid() && |next| == |old(next)| && table.names == old(table.names)
      ensures clients == old(clients) && e < |table.names| && old(e < |table.names| && table.Finds(table.names[e], replaced))
      ensures charge == old(charge)
      ensures table.Members() == old(table.Members()) - {replaced} + {e}
      ensures lru == Dropping(old(lru), replaced)
    {
      hide RingOk, NoDup, TotalCharge, Dropping, CacheInv, Table.Valid;
      ghost var cached := table.Members();
      EnterCache(e);
      var same := table.Insert(e);
      replaced := same;
      NotZero(Now(), cached + {e});
      var _ := FinishErase(same, cached + {e});
      assert cached + {e} - {same} == cached - {same} + {e};
    }

    /** The new entry becomes cached, and in use. */
    method EnterCache(e: nat)
      requires Valid() && 2 <= e < |next| && |refs| == |inCache| == |next|
      requires refs[e] == 1 && !inCache[e] && clients[e] == 1
      modifies this`next, this`prev, this`inUse, this`refs, this`inCache, this`usage
      ensures CacheInv(Now(), table.Members() + {e}) && |next| == |old(next)|
      ensures inUse == old(inUse) + [e]
    {
      hide RingOk, NoDup, TotalCharge, Table.Valid;
      ghost var before := Now();
      assert EntryOk(before, e) && e !in table.Members();
      AppendBoth(next, prev, IN_USE_HEAD, inUse, e, LRU_HEAD, lru);
      LRU_Append(IN_USE_HEAD, e, inUse);
      inUse := inUse + [e];
      ChargeAdded(charge, table.Members(), |charge|, e);
      refs := refs[e := refs[e] + 1];
      inCache := inCache[e := true];
      usage := usage + charge[e];
      Entered(before, Now(), table.Members(), e);
    }

    /** Evict the oldest entry that nobody holds. */
    method EvictOldest()
      requires Valid() && next[LRU_HEAD] != LRU_HEAD
      modifies this, table
      ensures Valid() && |next| == |old(next)| && table.names == old(table.names) && clients == old(clients)
      ensures old(lru) != [] && lru == old(lru)[1..]
      ensures table.Members() == old(table.Members()) - {old(lru)[0]} && old(lru)[0] !in clients
      ensures charge == old(charge) && old(lru)[0] < |charge| && usage == old(usage) - charge[old(lru)[0]]
    {
      hide RingOk, NoDup, TotalCharge, Dropping;
      ghost var cached := table.Members();
      FirstOfLru(next, prev, lru);
      var victim := next[LRU_HEAD];
      assert victim in lru;
      assert EntryOk(Now(), victim) && (inCache[victim] <==> victim in cached);
      var found := table.Remove(table.names[victim]);
      assert found == victim;
      RingNoDup(next, prev, LRU_HEAD, lru);
      DroppingAt(lru, 0);
      var erased := FinishErase(found, cached);
    }

    /** Take the entry with this key and hash out of the cache, if there is one. */
    method Erase(name: Name)
      requires Valid()
      modifies this, table
      ensures Valid() && clients == old(clients)
      ensures forall a :: old(table.Finds(name, a)) ==> table.Members() == old(table.Members()) - {a} && lru == Dropping(old(lru), a)
    {
      ghost var cached := table.Members();
      table.FindsUnique(name);
      var e := table.Remove(name);
      var _ := FinishErase(e, cached);
    }

    /** Evict every entry that nobody holds, and no other. */
    method Prune()
      requires Valid()
      modifies this, table
      ensures Valid() && clients == old(clients) && lru == []
      ensures table.Members() == old(table.Members()) - Victims(old(lru), [])
    {
      hide RingOk, NoDup, TotalCharge, CacheInv, EvictedSoFar, Victims, Table.Valid;
      NoneEvicted(lru, charge, usage, 0);
      RingsNoneLeft(Now(), table.Members());
      while next[LRU_HEAD] != LRU_HEAD
        invariant Valid() && clients == old(clients) && IsSuffix(lru, old(lru))
        invariant table.Members() == old(table.Members()) - Victims(old(lru), lru)
        invariant next != [] && (next[LRU_HEAD] == LRU_HEAD <==> lru == [])
        decreases |lru|
      {
        OneVictim(old(lru), lru);
        EvictOldest();
        RingsNoneLeft(Now(), table.Members());
      }
    }

    /** ~LRUCache, when no client holds a handle any more: the entries still cached are all
        on the LRU list, and with them every entry there ever was has had its deleter run
        exactly once. */
    method Destroy()
      requires Valid() && clients == multiset{}
      modifies this`inCache, this`refs, this`deleted
      ensures |next| == |refs| == |inCache|
      ensures forall a: nat :: 2 <= a < |next| ==> multiset(deleted)[a] == 1 && refs[a] == 0 && !inCache[a]
      ensures forall a :: a in deleted ==> 2 <= a < |next|
    {
      hide RingOk, NoDup, TotalCharge;
      ghost var s, k: nat := Now(), 0;
      AllOnLru(s, table.Members());
      RingWalk(next, prev, lru, 0);
      var e: nat := next[LRU_HEAD];
      assert lru[0..] == lru;
      while e != LRU_HEAD
        invariant k <= |lru| && e == Stop(LRU_HEAD, lru, k + 1) && e < |next|
        invariant e != LRU_HEAD <==> k < |lru|
        invariant |next| == |refs| == |inCache|
        invariant forall a: nat :: 2 <= a < |next| ==> WaitsOrGone(refs[a], inCache[a], multiset(deleted)[a], a in lru[k..])
        invariant forall a :: a in deleted ==> 2 <= a < |next|
        decreases |lru| - k
      {
        RingWalk(next, prev, lru, k + 1);
        RestOfLru(next, prev, lru, k);
        assert e in lru[k..];
        var after: nat := next[e];
        inCache := inCache[e := false];
        // Unref: the last reference is the cache's own.
        refs := refs[e := refs[e] - 1];
        assert multiset(deleted + [e]) == multiset(deleted) + multiset{e};
        deleted := deleted + [e];
        e, k := after, k + 1;
      }
    }
  }

  /** An entry that waits on the LRU list, or one whose deleter has run. */
  ghost predicate WaitsOrGone(refs: nat, inCache: bool, deleted: nat, onList: bool) {
    if onList then refs == 1 && inCache && deleted == 0 else refs == 0 && !inCache && deleted == 1
  }

  /** Without clients, what is cached is on the LRU list. */
  lemma AllOnLru(s: State, cached: set<nat>)
    requires CacheInv(s, cached) && s.clients == multiset{}
    ensures |s.next| == |s.prev| == |s.refs| == |s.inCache| && RingOk(s.next, s.prev, LRU_HEAD, s.lru)
    ensures forall a: nat :: 2 <= a < |s.next| ==> WaitsOrGone(s.refs[a], s.inCache[a], multiset(s.deleted)[a], a in s.lru)
    ensures forall a :: a in s.deleted ==> 2 <= a < |s.next|
  {
    hide RingOk, NoDup, TotalCharge;
    forall a: nat | 2 <= a < |s.next|
      ensures WaitsOrGone(s.refs[a], s.inCache[a], multiset(s.deleted)[a], a in s.lru)
    {
      assert EntryOk(s, a);
    }
  }

  /** One step along the LRU list. */
  lemma RingWalk(next: seq<nat>, prev: seq<nat>, lru: seq<nat>, k: nat)
    requires RingOk(next, prev, LRU_HEAD, lru) && k <= |lru|
    ensures Stop(LRU_HEAD, lru, k) < |next| && next[Stop(LRU_HEAD, lru, k)] == Stop(LRU_HEAD, lru, k + 1) < |next|
    ensures Stop(LRU_HEAD, lru, k + 1) != LRU_HEAD <==> k < |lru|
  {
    var i, j := k, k + 1;
    assert next[Stop(LRU_HEAD, lru, i)] == Stop(LRU_HEAD, lru, j);
  }

  lemma RestOfLru(next: seq<nat>, prev: seq<nat>, lru: seq<nat>, k: nat)
    requires RingOk(next, prev, LRU_HEAD, lru) && k < |lru|
    ensures 2 <= lru[k] < |next| && lru[k] in lru[k..]
    ensures forall a :: a in lru[k + 1..] <==> a in lru[k..] && a != lru[k]
  {
    assert lru[k..] == [lru[k]] + lru[k + 1..];
    assert forall j :: k < j < |lru| ==> lru[j] != lru[k];
  }

  lemma WhereIs(s: State, cached: set<nat>, e: nat)
    requires CacheInv(s, cached) && 2 <= e < |s.next|
    ensures Shape(s) && |s.refs| == |s.inCache| == |s.next| && (e in s.lru <==> s.inCache[e] && s.refs[e] == 1)
  {
    assert EntryOk(s, e);
  }

  /** One more client holds `e`. */
  lemma Held(s: State, t: State, cached: set<nat>, e: nat)
    requires CacheInv(s, cached) && Shape(t) && 2 <= e < |s.next| == |t.next| && s.refs[e] > 0
    requires t == s.(next := t.next, prev := t.prev, lru := t.lru, inUse := t.inUse, refs := s.refs[e := s.refs[e] + 1],
                     clients := s.clients + multiset{e})
    requires s.refs[e] == 1 && s.inCache[e] ==> t.inUse == s.inUse + [e] && forall a :: a in t.lru <==> a in s.lru && a != e
    requires !(s.refs[e] == 1 && s.inCache[e]) ==> t.inUse == s.inUse && t.lru == s.lru
    ensures CacheInv(t, cached)
  {
    hide RingOk, NoDup, TotalCharge;
    assert EntryOk(s, e);
    Changed(s, t, cached, cached, e);
  }

  lemma Entered(s: State, t: State, cached: set<nat>, e: nat)
    requires CacheInv(s, cached) && Shape(t) && 2 <= e < |s.next| == |t.next|
    requires s.refs[e] == 1 && !s.inCache[e] && e !in cached
    requires t == s.(next := t.next, prev := t.prev, inUse := s.inUse + [e], refs := s.refs[e := 2],
                     inCache := s.inCache[e := true], usage := t.usage)
    requires t.usage == TotalCharge(t.charge, cached + {e}, |t.charge|)
    ensures CacheInv(t, cached + {e})
  {
    hide RingOk, NoDup, TotalCharge;
    assert EntryOk(s, e);
    Changed(s, t, cached, cached + {e}, e);
  }

  lemma RingsDropNothing(s: State, cached: set<nat>)
    requires CacheInv(s, cached)
    ensures Dropping(s.lru, 0) == s.lru
  {
    DropNothing(s.lru, s.inUse, 0, s.next, s.prev);
  }

  lemma RingsNoneLeft(s: State, cached: set<nat>)
    requires CacheInv(s, cached)
    ensures s.next != [] && (s.next[LRU_HEAD] == LRU_HEAD <==> s.lru == [])
  {
    NoneLeft(s.next, s.prev, s.lru);
  }

  lemma NotZero(s: State, cached: set<nat>)
    requires CacheInv(s, cached)
    ensures 0 !in cached
  {
  }

  ghost predicate IsSuffix(a: seq<nat>, b: seq<nat>) {
    |a| <= |b| && a == b[|b| - |a|..]
  }

  ghost function Those(s: seq<nat>): set<nat> {
    set a | a in s
  }

  /** What is on the list `all` and not on its suffix `left`. */
  ghost function Victims(all: seq<nat>, left: seq<nat>): set<nat> {
    if |left| <= |all| then Those(all[..|all| - |left|]) else {}
  }

  /** Of the waiting entries the oldest are gone, and with the last of them back the charges
      would not fit. */
  ghost predicate EvictedSoFar(all: seq<nat>, left: seq<nat>, charge: seq<nat>, usage: nat, capacity: nat) {
    && IsSuffix(left, all)
    && var k := |all| - |left|; k > 0 ==> all[k - 1] < |charge| && usage + charge[all[k - 1]] > capacity
  }

  ghost predicate EvictedAsNeeded(all: seq<nat>, left: seq<nat>, charge: seq<nat>, usage: nat, capacity: nat) {
    EvictedSoFar(all, left, charge, usage, capacity) && (usage <= capacity || left == [])
  }

  lemma NoneEvicted(lru: seq<nat>, charge: seq<nat>, usage: nat, capacity: nat)
    ensures EvictedSoFar(lru, lru, charge, usage, capacity) && IsSuffix(lru, lru) && Victims(lru, lru) == {}
  {
  }

  lemma OneVictim(all: seq<nat>, left: seq<nat>)
    requires IsSuffix(left, all)
    ensures left != [] ==> IsSuffix(left[1..], all) && Victims(all, left[1..]) == Victims(all, left) + {left[0]}
  {
    if left != [] {
      var k := |all| - |left|;
      assert all[..k + 1] == all[..k] + [left[0]];
      assert left[1..] == all[k + 1..];
    }
  }

  lemma OneEvicted(all: seq<nat>, left: seq<nat>, left': seq<nat>, charge: seq<nat>, before: nat, usage: nat, capacity: nat)
    requires EvictedSoFar(all, left, charge, before, capacity) && left != [] && left' == left[1..] && before > capacity
    requires left[0] < |charge| && usage == before - charge[left[0]]
    ensures EvictedSoFar(all, left', charge, usage, capacity) && Victims(all, left') == Victims(all, left) + {left[0]}
  {
    OneVictim(all, left);
    assert all[|all| - |left|] == left[0];
  }

  lemma NoneLeft(next: seq<nat>, prev: seq<nat>, lru: seq<nat>)
    requires RingOk(next, prev, LRU_HEAD, lru)
    ensures next != [] && (next[LRU_HEAD] == LRU_HEAD <==> lru == [])
  {
    LastStop(next, prev, LRU_HEAD, lru);
  }

  lemma FirstOfLru(next: seq<nat>, prev: seq<nat>, lru: seq<nat>)
    requires RingOk(next, prev, LRU_HEAD, lru)
    ensures next != [] && (next[LRU_HEAD] != LRU_HEAD ==> lru != [] && next[LRU_HEAD] == lru[0] && 2 <= lru[0] < |next|)
  {
    LastStop(next, prev, LRU_HEAD, lru);
  }

  /** A new entry that one client holds and the cache does not. */
  lemma Grown(s: State, t: State, cached: set<nat>, e: nat, c: nat)
    requires CacheInv(s, cached) && e == |s.next|
    requires t == State(s.next + [0], s.prev + [0], s.charge + [c], s.refs + [1], s.inCache + [false], s.usage,
                        s.lru, s.inUse, s.clients + multiset{e}, s.deleted)
    ensures CacheInv(t, cached)
  {
    hide NoDup, TotalCharge;
    RingFrame(s.next, s.prev, t.next, t.prev, LRU_HEAD, s.lru);
    RingFrame(s.next, s.prev, t.next, t.prev, IN_USE_HEAD, s.inUse);
    ChargeSame(s.charge, t.charge, cached, |s.charge|);
    ChargeLast(t.charge, cached, |s.charge|);
    RingBounds(s.next, s.prev, LRU_HEAD, s.lru);
    RingBounds(s.next, s.prev, IN_USE_HEAD, s.inUse);
    assert e !in s.clients && e !in s.deleted && e !in cached;
    assert multiset(t.deleted)[e] == 0 && t.clients[e] == 1;
    forall a: nat | 2 <= a < |t.next|
      ensures EntryOk(t, a) && (t.inCache[a] <==> a in cached)
    {
      if a < e {
        assert EntryOk(s, a) && (s.inCache[a] <==> a in cached);
      }
    }
  }

  lemma ChargeLast(charge: seq<nat>, cached: set<nat>, n: nat)
    requires n + 1 == |charge| && n !in cached
    ensures TotalCharge(charge, cached, n + 1) == TotalCharge(charge, cached, n)
  {
  }

  /** The list without one entry. */
  ghost function Dropping(ring: seq<nat>, e: nat): seq<nat> {
    if ring == [] then [] else if ring[0] == e then Dropping(ring[1..], e) else [ring[0]] + Dropping(ring[1..], e)
  }

  lemma {:induction false} DroppingAbsent(ring: seq<nat>, e: nat)
    requires e !in ring
    ensures Dropping(ring, e) == ring
    decreases |ring|
  {
    if ring != [] {
      assert ring == [ring[0]] + ring[1..];
      DroppingAbsent(ring[1..], e);
    }
  }

  lemma {:induction false} DroppingAt(ring: seq<nat>, k: nat)
    requires NoDup(ring) && k < |ring|
    ensures Dropping(ring, ring[k]) == Without(ring, k)
    decreases |ring|
  {
    assert ring == [ring[0]] + ring[1..];
    if k == 0 {
      DroppingAbsent(ring[1..], ring[0]);
    } else {
      DroppingAt(ring[1..], k - 1);
      assert ring[1..][k - 1] == ring[k];
      assert Without(ring, k) == [ring[0]] + Without(ring[1..], k - 1);
    }
  }

  lemma DropOne(lru: seq<nat>, inUse: seq<nat>, e: nat)
    ensures e !in lru ==> Dropping(lru, e) == lru
    ensures e !in inUse ==> Dropping(inUse, e) == inUse
  {
    if e !in lru {
      DroppingAbsent(lru, e);
    }
    if e !in inUse {
      DroppingAbsent(inUse, e);
    }
  }

  lemma DropNothing(lru: seq<nat>, inUse: seq<nat>, e: nat, next: seq<nat>, prev: seq<nat>)
    requires RingOk(next, prev, LRU_HEAD, lru) && RingOk(next, prev, IN_USE_HEAD, inUse) && e < 2
    ensures Dropping(lru, e) == lru && Dropping(inUse, e) == inUse
  {
    DroppingAbsent(lru, e);
    DroppingAbsent(inUse, e);
  }

  lemma RingNoDup(next: seq<nat>, prev: seq<nat>, head: nat, ring: seq<nat>)
    requires RingOk(next, prev, head, ring)
    ensures NoDup(ring)
  {
  }

  lemma RingBounds(next: seq<nat>, prev: seq<nat>, head: nat, ring: seq<nat>)
    requires RingOk(next, prev, head, ring)
    ensures |next| == |prev| >= 2 && forall a :: a in ring ==> 2 <= a < |next|
  {
  }

  lemma IndexIn(ring: seq<nat>, e: nat) returns (k: nat)
    requires e in ring
    ensures k < |ring| && ring[k] == e
  {
    k :| k < |ring| && ring[k] == e;
  }

  /** If only one entry's fields change, and it is in order again, all entries are. */
  lemma Changed(s: State, t: State, cached: set<nat>, cached': set<nat>, e: nat)
    requires CacheInv(s, cached) && Shape(t) && |t.next| == |s.next| && 2 <= e < |s.next|
    requires t.charge == s.charge && t.usage == TotalCharge(t.charge, cached', |t.charge|)
    requires EntryOk(t, e) && (t.inCache[e] <==> e in cached')
    requires forall a: nat :: 2 <= a < |s.next| && a != e ==> SameEntry(s, t, a) && (a in cached' <==> a in cached)
    requires forall a :: a in cached' ==> a in cached || a == e
    requires forall a :: a in t.clients ==> a in s.clients || a == e
    requires forall a :: a in t.deleted ==> a in s.deleted || a == e
    ensures CacheInv(t, cached')
  {
    forall a: nat | 2 <= a < |t.next|
      ensures EntryOk(t, a) && (t.inCache[a] <==> a in cached')
    {
      if a != e {
        assert SameEntry(s, t, a);
        assert EntryOk(s, a);
      }
    }
  }

  ghost predicate SameEntry(s: State, t: State, a: nat)
    requires Shape(s) && Shape(t) && |t.next| == |s.next| && a < |s.next|
  {
    && t.refs[a] == s.refs[a] && t.inCache[a] == s.inCache[a] && t.clients[a] == s.clients[a]
    && (a in t.lru <==> a in s.lru) && (a in t.inUse <==> a in s.inUse)
    && multiset(t.deleted)[a] == multiset(s.deleted)[a]
  }

  lemma NotOwnNeighbour(next: seq<nat>, prev: seq<nat>, head: nat, ring: seq<nat>, k: nat)
    requires RingOk(next, prev, head, ring) && k < |ring|
    ensures next[ring[k]] != ring[k] && prev[ring[k]] != ring[k]
  {
    Neighbours(next, prev, head, ring, k);
  }
}
