/** The cache's own hash table: chains of entries linked through the entries. */
module HandleTable {
  import opened DbFormat

  datatype Name = Name(key: Bytes, hash: nat)

  // ---------------------------------------------------------------- chains

  /** `chain` lists the addresses met from `first` on; 0 is nullptr. */
  ghost predicate IsChain(next: seq<nat>, first: nat, chain: seq<nat>)
    decreases |chain|
  {
    if chain == [] then first == 0
    else first == chain[0] && 0 < first < |next| && IsChain(next, next[first], chain[1..])
  }

  ghost predicate NoDup(chain: seq<nat>) {
    forall i, j :: 0 <= i < j < |chain| ==> chain[i] != chain[j]
  }

  lemma NoDupSplit(x: seq<nat>, y: seq<nat>)
    requires NoDup(x + y)
    ensures NoDup(x) && NoDup(y) && forall a :: a in y ==> a !in x
  {
    forall i, j | 0 <= i < |x| && 0 <= j < |y|
      ensures x[i] != y[j]
    {
      assert (x + y)[i] != (x + y)[|x| + j];
    }
    forall i, j | 0 <= i < j < |y|
      ensures y[i] != y[j]
    {
      assert (x + y)[|x| + i] != (x + y)[|x| + j];
    }
    forall i, j | 0 <= i < j < |x|
      ensures x[i] != x[j]
    {
      assert (x + y)[i] != (x + y)[j];
    }
  }

  lemma {:induction false} ChainFrame(next: seq<nat>, next': seq<nat>, first: nat, chain: seq<nat>)
    requires IsChain(next, first, chain) && |next| <= |next'|
    requires forall a :: a in chain && a < |next| ==> next'[a] == next[a]
    ensures IsChain(next', first, chain)
    decreases |chain|
  {
    if chain != [] {
      assert chain[0] in chain;
      assert forall a :: a in chain[1..] ==> a in chain;
      ChainFrame(next, next', next[first], chain[1..]);
    }
  }

  lemma {:induction false} ChainAddresses(next: seq<nat>, first: nat, chain: seq<nat>)
    requires IsChain(next, first, chain)
    ensures forall a :: a in chain ==> 0 < a < |next|
    decreases |chain|
  {
    if chain != [] {
      ChainAddresses(next, next[first], chain[1..]);
      assert forall a :: a in chain ==> a == chain[0] || a in chain[1..];
    }
  }

  /** The slot before position `i`: the bucket itself (0), or the link of an entry. */
  function Predecessor(chain: seq<nat>, i: nat): nat
    requires i <= |chain|
  {
    if i == 0 then 0 else chain[i - 1]
  }

  function At(chain: seq<nat>, i: nat): nat
    requires i <= |chain|
  {
    if i < |chain| then chain[i] else 0
  }

  /** Overwriting a slot replaces the rest of the chain. */
  lemma {:induction false} Splice(next: seq<nat>, first: nat, chain: seq<nat>, i: nat, x: nat, rest: seq<nat>)
    requires IsChain(next, first, chain) && NoDup(chain) && i <= |chain|
    requires forall a :: a in rest ==> a !in chain[..i]
    requires IsChain(next, x, rest)
    ensures i > 0 ==> 0 < chain[i - 1] < |next|
    ensures var next' := if i == 0 then next else next[chain[i - 1] := x];
            IsChain(next', if i == 0 then x else first, chain[..i] + rest)
    decreases |chain|
  {
    ChainAddresses(next, first, chain);
    hide IsChain, NoDup;
    if i == 0 {
      assert chain[..0] + rest == rest;
    } else {
      ChainHead(next, first, chain);
      assert chain[i - 1] in chain;
      var next', whole := next[chain[i - 1] := x], chain[..i] + rest;
      assert whole[0] == first;
      if i == 1 {
        assert forall a :: a in rest ==> a != chain[0];
        ChainFrame(next, next', x, rest);
        assert whole[1..] == rest;
      } else {
        NoDupTail(chain);
        assert forall a :: a in chain[1..][..i - 1] ==> a in chain[..i];
        Splice(next, next[first], chain[1..], i - 1, x, rest);
        assert chain[1..][i - 2] == chain[i - 1] && next'[first] == next[first];
        assert whole[1..] == chain[1..][..i - 1] + rest;
      }
      ChainCons(next', first, whole);
    }
  }

  lemma ChainHead(next: seq<nat>, first: nat, chain: seq<nat>)
    requires IsChain(next, first, chain) && chain != []
    ensures first == chain[0] && 0 < first < |next| && IsChain(next, next[first], chain[1..])
  {
  }

  lemma ChainCons(next: seq<nat>, first: nat, chain: seq<nat>)
    requires chain != [] && first == chain[0] && 0 < first < |next| && IsChain(next, next[first], chain[1..])
    ensures IsChain(next, first, chain)
  {
  }

  lemma NoDupTail(chain: seq<nat>)
    requires NoDup(chain) && chain != []
    ensures NoDup(chain[1..]) && forall k :: 0 < k < |chain| ==> chain[k] != chain[0]
  {
  }

  lemma {:induction false} ChainTail(next: seq<nat>, first: nat, chain: seq<nat>, i: nat)
    requires IsChain(next, first, chain) && i <= |chain|
    ensures i == 0 ==> first == At(chain, 0)
    ensures IsChain(next, At(chain, i), chain[i..])
    ensures i < |chain| ==> 0 < chain[i] < |next| && next[chain[i]] == At(chain, i + 1)
    decreases |chain|
  {
    if i > 0 {
      ChainTail(next, next[first], chain[1..], i - 1);
      assert chain[1..][i - 1..] == chain[i..];
    } else {
      assert chain[0..] == chain;
      if chain != [] && |chain| > 1 {
        assert chain[1..][0] == chain[1];
      }
    }
  }

  // ---------------------------------------------------------------- buckets

  /** `hash & (length - 1)`, for a length that is a power of two. */
  function BucketOf(hash: nat, n: nat): (b: nat)
    requires n > 0
    ensures b < n
  {
    hash % n
  }

  /** One bucket: a chain without repetitions of entries that hash to it. */
  ghost predicate BucketOk(names: seq<Name>, next: seq<nat>, n: nat, b: nat, first: nat, chain: seq<nat>)
    requires n > 0
  {
    && |names| == |next| && IsChain(next, first, chain) && NoDup(chain)
    && Own(names, n, b, chain)
  }

  /** Every entry of the chain hashes to bucket `b` of `n`. */
  ghost predicate Own(names: seq<Name>, n: nat, b: nat, chain: seq<nat>)
    requires n > 0
  {
    forall a :: a in chain ==> 0 < a < |names| && BucketOf(names[a].hash, n) == b
  }

  ghost predicate BucketsOk(names: seq<Name>, next: seq<nat>, list: seq<nat>, chains: seq<seq<nat>>) {
    && |list| == |chains| > 0
    && forall b :: 0 <= b < |list| ==> BucketOk(names, next, |list|, b, list[b], chains[b])
  }

  ghost function MembersOf(chains: seq<seq<nat>>): set<nat> {
    set b, a | 0 <= b < |chains| && a in chains[b] :: a
  }

  /** No two entries have the same key and hash. */
  ghost predicate DistinctNames(names: seq<Name>, members: set<nat>) {
    forall a, c :: a in members && c in members && a < |names| && c < |names| && names[a] == names[c] ==> a == c
  }

  /** An entry can only be in the bucket its hash names. */
  lemma OnlyBucket(names: seq<Name>, next: seq<nat>, list: seq<nat>, chains: seq<seq<nat>>, a: nat)
    requires BucketsOk(names, next, list, chains) && a in MembersOf(chains)
    ensures 0 < a < |names| && a in chains[BucketOf(names[a].hash, |list|)]
    ensures forall b :: 0 <= b < |chains| && a in chains[b] ==> b == BucketOf(names[a].hash, |list|)
  {
    var b :| 0 <= b < |chains| && a in chains[b];
    assert BucketOk(names, next, |list|, b, list[b], chains[b]);
    forall c | 0 <= c < |chains| && a in chains[c]
      ensures c == BucketOf(names[a].hash, |list|)
    {
      assert BucketOk(names, next, |list|, c, list[c], chains[c]);
    }
  }

  lemma UseBucket(names: seq<Name>, next: seq<nat>, list: seq<nat>, chains: seq<seq<nat>>, b: nat)
    requires BucketsOk(names, next, list, chains) && b < |list|
    ensures |list| == |chains| && BucketOk(names, next, |list|, b, list[b], chains[b])
  {
  }

  /** Writing links of entries that are not in a bucket leaves it as it is. */
  lemma BucketFrame(names: seq<Name>, next: seq<nat>, next': seq<nat>, n: nat, b: nat, first: nat, chain: seq<nat>)
    requires n > 0 && BucketOk(names, next, n, b, first, chain) && |next'| == |next|
    requires forall a :: a in chain && a < |next| ==> next'[a] == next[a]
    ensures BucketOk(names, next', n, b, first, chain)
  {
    ChainFrame(next, next', first, chain);
  }

  /** `*ptr = x` for the slot before position `i` of bucket `b`. */
  function SetSlotNext(next: seq<nat>, pred: nat, x: nat): seq<nat>
    requires pred < |next|
  {
    if pred == 0 then next else next[pred := x]
  }

  function SetSlotList(list: seq<nat>, b: nat, pred: nat, x: nat): seq<nat>
    requires b < |list|
  {
    if pred == 0 then list[b := x] else list
  }

  /** Overwriting one slot changes one bucket. */
  lemma SlotWrite(names: seq<Name>, next: seq<nat>, list: seq<nat>, chains: seq<seq<nat>>, b: nat, i: nat, x: nat, rest: seq<nat>)
    requires next != [] && BucketsOk(names, next, list, chains) && b < |chains| && i <= |chains[b]|
    requires IsChain(next, x, rest) && NoDup(chains[b][..i] + rest)
    requires Own(names, |list|, b, rest)
    ensures Predecessor(chains[b], i) < |next|
    ensures BucketsOk(names, SetSlotNext(next, Predecessor(chains[b], i), x), SetSlotList(list, b, Predecessor(chains[b], i), x),
                      chains[b := chains[b][..i] + rest])
  {
    hide BucketOf, IsChain, BucketOk, NoDup, SetSlotNext, SetSlotList;
    var chain, pred := chains[b], Predecessor(chains[b], i);
    UseBucket(names, next, list, chains, b);
    ChangedBucket(names, next, |list|, b, list[b], chain, i, x, rest);
    var next', list', chains' := SetSlotNext(next, pred, x), SetSlotList(list, b, pred, x), chains[b := chain[..i] + rest];
    SlotLengths(next, list, b, pred, x);
    forall c: nat | c < |list|
      ensures BucketOk(names, next', |list|, c, list'[c], chains'[c])
    {
      UseBucket(names, next, list, chains, c);
      if c != b {
        OtherBucket(names, next, |list|, b, chain, i, c, list[c], chains[c], x);
      }
    }
  }

  lemma SlotLengths(next: seq<nat>, list: seq<nat>, b: nat, pred: nat, x: nat)
    requires b < |list| && pred < |next|
    ensures |SetSlotList(list, b, pred, x)| == |list| && |SetSlotNext(next, pred, x)| == |next|
    ensures SetSlotList(list, b, pred, x)[b] == if pred == 0 then x else list[b]
    ensures forall c :: 0 <= c < |list| && c != b ==> SetSlotList(list, b, pred, x)[c] == list[c]
  {
  }

  lemma ChangedBucket(names: seq<Name>, next: seq<nat>, n: nat, b: nat, first: nat, chain: seq<nat>, i: nat, x: nat, rest: seq<nat>)
    requires n > 0 && next != [] && BucketOk(names, next, n, b, first, chain) && i <= |chain|
    requires IsChain(next, x, rest) && NoDup(chain[..i] + rest)
    requires Own(names, n, b, rest)
    ensures Predecessor(chain, i) < |next| && (i > 0 ==> Predecessor(chain, i) in chain && Predecessor(chain, i) != 0)
    ensures BucketOk(names, SetSlotNext(next, Predecessor(chain, i), x), n, b, if i == 0 then x else first, chain[..i] + rest)
  {
    hide BucketOf, IsChain;
    NoDupSplit(chain[..i], rest);
    Splice(next, first, chain, i, x, rest);
    assert i > 0 ==> chain[i - 1] in chain;
    assert forall a :: a in chain[..i] ==> a in chain;
  }

  lemma OtherBucket(names: seq<Name>, next: seq<nat>, n: nat, b: nat, chain: seq<nat>, i: nat, c: nat, first: nat,
      other: seq<nat>, x: nat)
    requires n > 0 && c != b && BucketOk(names, next, n, c, first, other) && i <= |chain|
    requires Own(names, n, b, chain)
    requires Predecessor(chain, i) < |next|
    ensures BucketOk(names, SetSlotNext(next, Predecessor(chain, i), x), n, c, first, other)
  {
    hide BucketOf, IsChain;
    assert i > 0 ==> chain[i - 1] in chain;
    BucketFrame(names, next, SetSlotNext(next, Predecessor(chain, i), x), n, c, first, other);
  }

  // ---------------------------------------------------------------- the table

  /** 4, doubled any number of times. */
  predicate Doubled(n: nat) {
    n == 4 || (n > 4 && n % 2 == 0 && Doubled(n / 2))
  }

  lemma SizeAfter(members: set<nat>, cur: nat, h: nat)
    requires h !in members
    ensures |members - {cur} + {h}| == |members| + if cur in members then 0 else 1
  {
    if cur in members {
      assert members == members - {cur} + {cur};
    } else {
      assert members - {cur} == members;
    }
  }

  class Table {
    var names: seq<Name>
    var nextHash: seq<nat>
    var list: seq<nat>
    var elems: nat
    ghost var chains: seq<seq<nat>>

    ghost predicate Valid()
      reads this
    {
      && names != [] && BucketsOk(names, nextHash, list, chains)
      && DistinctNames(names, Members())
      && elems == |Members()| <= |list| && Doubled(|list|)
    }

    /** The addresses in the table. */
    ghost function Members(): set<nat>
      reads this
    {
      MembersOf(chains)
    }

    /** The map this table implements: the entry with a given key and hash, or nullptr. */
    ghost predicate Finds(name: Name, a: nat)
      reads this
    {
      && (a != 0 ==> a in Members() && a < |names| && names[a] == name)
      && (a == 0 ==> forall c :: c in Members() && c < |names| ==> names[c] != name)
    }

    lemma LengthsOk()
      requires Valid()
      ensures |names| == |nextHash| && |list| == |chains| > 0
    {
      Lengths(names, nextHash, list, chains);
    }

    lemma FindsUnique(name: Name)
      requires Valid()
      ensures forall a, c :: Finds(name, a) && Finds(name, c) ==> a == c
    {
      Lengths(names, nextHash, list, chains);
    }

    /** The slot that points to the entry with this name, or the trailing slot. */
    method FindPointer(name: Name) returns (b: nat, pred: nat, cur: nat, ghost i: nat)
      requires Valid()
      ensures b == BucketOf(name.hash, |list|) && b < |chains| && i <= |chains[b]|
      ensures pred == Predecessor(chains[b], i) && cur == At(chains[b], i) && pred < |nextHash| && cur < |names|
      ensures Finds(name, cur)
      ensures cur == 0 <==> i == |chains[b]|
    {
      hide BucketOf, IsChain, NoDup;
      b := BucketOf(name.hash, |list|);
      UseBucket(names, nextHash, list, chains, b);
      ghost var chain := chains[b];
      i, pred, cur := 0, 0, list[b];
      ChainTail(nextHash, list[b], chain, 0);
      while cur != 0 && names[cur] != name
        invariant i <= |chain| && pred == Predecessor(chain, i) && cur == At(chain, i) && cur < |names|
        invariant forall j :: 0 <= j < i && chain[j] < |names| ==> names[chain[j]] != name
        decreases |chain| - i
      {
        ChainTail(nextHash, list[b], chain, i);
        pred := cur;
        cur := nextHash[cur];
        i := i + 1;
        ChainTail(nextHash, list[b], chain, i);
      }
      assert i > 0 ==> chain[i - 1] in chain;
      assert i < |chain| ==> chain[i] in chain;
      FoundIs(name, b, i, cur);
    }

    lemma FoundIs(name: Name, b: nat, i: nat, cur: nat)
      requires Valid() && b == BucketOf(name.hash, |list|) && b < |chains| && i <= |chains[b]| && cur == At(chains[b], i)
      requires forall j :: 0 <= j < i && chains[b][j] < |names| ==> names[chains[b][j]] != name
      requires cur == 0 || (cur < |names| && names[cur] == name)
      ensures Finds(name, cur) && (cur == 0 <==> i == |chains[b]|)
    {
      assert BucketOk(names, nextHash, |list|, b, list[b], chains[b]);
      assert i < |chains[b]| ==> chains[b][i] in chains[b];
      if cur == 0 {
        forall c: nat | c in Members() && c < |names|
          ensures names[c] != name
        {
          OnlyBucket(names, nextHash, list, chains, c);
          if BucketOf(names[c].hash, |list|) == b {
            var j: nat :| j < |chains[b]| && chains[b][j] == c;
            assert j < i;
          }
        }
      }
    }

    method Lookup(name: Name) returns (r: nat)
      requires Valid()
      ensures Finds(name, r)
    {
      var b, pred;
      ghost var i;
      b, pred, r, i := FindPointer(name);
    }

    constructor ()
      ensures Valid() && Members() == {}
      ensures |names| == 2
    {
      names, nextHash := [Name([], 0), Name([], 0)], [0, 0];
      list, chains, elems := [0, 0, 0, 0], [[], [], [], []], 0;
    }

    /** Memory for one more entry. */
    method Allocate(name: Name) returns (a: nat)
      requires Valid()
      modifies this
      ensures Valid() && a == |old(names)| && names == old(names) + [name] && Members() == old(Members())
      ensures a !in Members() && forall m :: m in Members() ==> 0 < m < a
    {
      a := |names|;
      MoreMemory(names, nextHash, list, chains, name);
      names, nextHash := names + [name], nextHash + [0];
    }

    /** Put `h` in the table, in place of the entry with the same key and hash if there is
        one; that entry is returned. */
    method Insert(h: nat) returns (replaced: nat)
      requires Valid() && 0 < h < |names| && h !in Members()
      modifies this
      ensures Valid() && names == old(names)
      ensures old(Finds(names[h], replaced))
      ensures Members() == old(Members()) - {replaced} + {h}
    {
      hide BucketOf, IsChain, NoDup, BucketsOk, BucketOk, DistinctNames, MembersOf, Doubled;
      var b, pred, cur;
      ghost var i;
      b, pred, cur, i := FindPointer(names[h]);
      replaced := cur;
      OnlyReplaced(names, Members(), cur, h);
      SizeAfter(Members(), cur, h);
      LengthsOk();
      LinkAt(b, pred, cur, h, i);
      if cur == 0 {
        elems := elems + 1;
        if elems > |list| {
          Resize();
        }
      }
    }

    /** `h->next_hash = old ? old->next_hash : nullptr; *ptr = h` */
    method LinkAt(b: nat, pred: nat, cur: nat, h: nat, ghost i: nat)
      requires names != [] && BucketsOk(names, nextHash, list, chains) && DistinctNames(names, Members())
      requires 0 < h < |names| && h !in Members()
      requires b < |chains| == |list| && i <= |chains[b]| && b == BucketOf(names[h].hash, |list|)
      requires pred == Predecessor(chains[b], i) && cur == At(chains[b], i) && pred < |nextHash| == |names| && cur < |names|
      requires cur == 0 <==> i == |chains[b]|
      requires forall c :: c in Members() && c < |names| && names[c] == names[h] ==> c == cur
      modifies this`nextHash, this`list, this`chains
      ensures BucketsOk(names, nextHash, list, chains) && DistinctNames(names, Members())
      ensures Members() == old(Members()) - {cur} + {h}
      ensures |list| == |old(list)| && (cur != 0 ==> cur in old(Members())) && (cur == 0 ==> cur !in old(Members()))
    {
      hide BucketOf, IsChain, NoDup, BucketsOk, BucketOk, DistinctNames;
      Lengths(names, nextHash, list, chains);
      ghost var chain := chains[b];
      ghost var rest := [h] + if cur != 0 then chain[i + 1..] else [];
      ghost var next1 := nextHash[h := if cur == 0 then 0 else nextHash[cur]];
      Inserting(names, nextHash, list, chains, b, i, h, next1, rest);
      MembersReplaced(names, nextHash, list, chains, b, i, rest, h, cur);
      KeepDistinct(names, Members(), cur, h);
      nextHash := nextHash[h := if cur == 0 then 0 else nextHash[cur]];
      nextHash, list := SetSlotNext(nextHash, pred, h), SetSlotList(list, b, pred, h);
      chains := chains[b := chain[..i] + rest];
      assert cur != 0 ==> chain[i] in chain;
    }

    /** Take the entry with this key and hash out of the table. */
    method Remove(name: Name) returns (result: nat)
      requires Valid()
      modifies this
      ensures Valid() && names == old(names)
      ensures old(Finds(name, result))
      ensures Members() == old(Members()) - {result}
    {
      hide BucketOf, IsChain, NoDup, BucketsOk, BucketOk, DistinctNames;
      var b, pred;
      ghost var i;
      b, pred, result, i := FindPointer(name);
      Lengths(names, nextHash, list, chains);
      if result != 0 {
        ghost var chain := chains[b];
        Removing(names, nextHash, list, chains, b, i);
        MembersRemoved(names, nextHash, list, chains, b, i, result);
        KeepDistinct(names, Members(), result, 0);
        nextHash, list := SetSlotNext(nextHash, pred, nextHash[result]), SetSlotList(list, b, pred, nextHash[result]);
        chains := chains[b := chain[..i] + chain[i + 1..]];
        elems := elems - 1;
      }
    }

    /** Move every entry to a table of at least `elems` buckets. */
    method Resize()
      requires names != [] && BucketsOk(names, nextHash, list, chains)
      requires DistinctNames(names, Members()) && elems == |Members()|
      modifies this
      ensures Valid() && names == old(names) && Members() == old(Members())
      ensures |list| >= 4 && elems <= |list| && (|list| > 4 ==> |list| < 2 * elems)
    {
      hide BucketOf, IsChain, NoDup, BucketsOk, BucketOk, DistinctNames;
      var newLength := 4;
      while newLength < elems
        invariant newLength >= 4 && Doubled(newLength) && (newLength > 4 ==> newLength < 2 * elems)
      {
        newLength := newLength * 2;
      }
      var newList: seq<nat> := Zeros(newLength);
      ghost var newChains: seq<seq<nat>> := Nones(newLength);
      var count := 0;
      Lengths(names, nextHash, list, chains);
      NewBuckets(names, nextHash, newLength);
      AllWaiting(names, nextHash, list, chains);
      for i := 0 to |list|
        invariant names == old(names) && list == old(list) && chains == old(chains) && elems == old(elems)
        invariant |nextHash| == |names| && |newList| == |newChains| == newLength
        invariant BucketsOk(names, nextHash, newList, newChains)
        invariant Waiting(names, nextHash, list, chains, i)
        invariant MembersOf(newChains) == MembersOf(chains[..i]) && count == |MembersOf(newChains)|
      {
        newList, newChains, count := MoveBucket(i, newList, newChains, count);
      }
      assert chains[..|chains|] == chains;
      assert elems == count;
      list, chains := newList, newChains;
    }

    /** One round of the outer loop: the entries of bucket `i` go to their new buckets. */
    method MoveBucket(i: nat, newList0: seq<nat>, ghost newChains0: seq<seq<nat>>, count0: nat)
      returns (newList: seq<nat>, ghost newChains: seq<seq<nat>>, count: nat)
      requires Waiting(names, nextHash, list, chains, i) && i < |list|
      requires |newList0| == |newChains0| > 0 && BucketsOk(names, nextHash, newList0, newChains0)
      requires MembersOf(newChains0) == MembersOf(chains[..i]) && count0 == |MembersOf(newChains0)|
      modifies this`nextHash
      ensures |nextHash| == |names| && |newList| == |newChains| == |newList0|
      ensures BucketsOk(names, nextHash, newList, newChains)
      ensures Waiting(names, nextHash, list, chains, i + 1)
      ensures MembersOf(newChains) == MembersOf(chains[..i + 1]) && count == |MembersOf(newChains)|
    {
      hide BucketOf, IsChain, NoDup, BucketsOk, BucketOk, Waiting, MembersOf, SetOf;
      newList, newChains, count := newList0, newChains0, count0;
      var h := list[i];
      ghost var j: nat := 0;
      NextWaiting(names, nextHash, list, chains, i);
      while h != 0
        invariant |nextHash| == |names| && |newList| == |newChains| == |newList0| && i < |chains| == |list|
        invariant BucketsOk(names, nextHash, newList, newChains)
        invariant j <= |chains[i]| && IsChain(nextHash, h, chains[i][j..]) && h == At(chains[i], j)
        invariant Waiting(names, nextHash, list, chains, i + 1)
        invariant MembersOf(newChains) == MembersOf(chains[..i]) + SetOf(chains[i][..j]) && count == |MembersOf(newChains)|
        decreases |chains[i]| - j
      {
        MoveIsSafe(names, nextHash, list, chains, newList, newChains, i, j);
        var next := nextHash[h];
        var b := BucketOf(names[h].hash, |newList|);
        Moving(names, nextHash, list, chains, newList, newChains, i, j, b);
        MovedMembers(chains, newChains, i, j, b);
        nextHash := nextHash[h := newList[b]];
        newList := newList[b := h];
        newChains := newChains[b := [h] + newChains[b]];
        h := next;
        j := j + 1;
        count := count + 1;
      }
      MovedAll(names, nextHash, list, chains, i, j);
    }
  }

  function Zeros(n: nat): (r: seq<nat>)
    ensures |r| == n && forall i :: 0 <= i < n ==> r[i] == 0
  {
    seq(n, _ => 0)
  }

  ghost function Nones(n: nat): (r: seq<seq<nat>>)
    ensures |r| == n && forall i :: 0 <= i < n ==> r[i] == []
  {
    seq(n, _ => [])
  }

  ghost function SetOf(chain: seq<nat>): set<nat> {
    set a | a in chain
  }

  /** The buckets from `i` on are still to be moved; an entry sits in the one bucket its
      hash names in the old table. */
  ghost predicate Waiting(names: seq<Name>, next: seq<nat>, list: seq<nat>, chains: seq<seq<nat>>, i: nat) {
    && |list| == |chains| > 0 && |names| == |next|
    && (forall b :: i <= b < |list| ==> IsChain(next, list[b], chains[b]))
    && (forall b :: 0 <= b < |list| ==> NoDup(chains[b]))
    && (forall b :: 0 <= b < |list| ==> Own(names, |list|, b, chains[b]))
  }

  lemma AllWaiting(names: seq<Name>, next: seq<nat>, list: seq<nat>, chains: seq<seq<nat>>)
    requires BucketsOk(names, next, list, chains)
    ensures Waiting(names, next, list, chains, 0) && MembersOf(chains[..0]) == {}
  {
    hide BucketOf, IsChain, NoDup, Own;
    forall b: nat | b < |list|
      ensures BucketOk(names, next, |list|, b, list[b], chains[b])
    {
    }
    UseBucket(names, next, list, chains, 0);
  }

  lemma NewBuckets(names: seq<Name>, next: seq<nat>, n: nat)
    requires n > 0 && |names| == |next|
    ensures BucketsOk(names, next, Zeros(n), Nones(n)) && MembersOf(Nones(n)) == {}
  {
  }

  lemma NextWaiting(names: seq<Name>, next: seq<nat>, list: seq<nat>, chains: seq<seq<nat>>, i: nat)
    requires Waiting(names, next, list, chains, i) && i < |list|
    ensures Waiting(names, next, list, chains, i + 1) && |list| == |chains| && |names| == |next|
    ensures MembersOf(chains[..i]) + SetOf(chains[i][..0]) == MembersOf(chains[..i])
    ensures IsChain(next, list[i], chains[i][0..]) && list[i] == At(chains[i], 0)
    ensures SetOf(chains[i][..0]) == {}
  {
    hide BucketOf, IsChain, Own, NoDup;
    assert chains[i][0..] == chains[i];
    ChainTail(next, list[i], chains[i], 0);
  }

  /** The entry to be moved is in no bucket that has been moved or is still waiting. */
  lemma MoveIsSafe(names: seq<Name>, next: seq<nat>, list: seq<nat>, chains: seq<seq<nat>>,
                   newList: seq<nat>, newChains: seq<seq<nat>>, i: nat, j: nat)
    requires Waiting(names, next, list, chains, i + 1) && i < |list| && j < |chains[i]|
    requires MembersOf(newChains) == MembersOf(chains[..i]) + SetOf(chains[i][..j])
    ensures 0 < chains[i][j] < |names| && chains[i][j] !in MembersOf(newChains)
    ensures forall b :: i + 1 <= b < |list| ==> chains[i][j] !in chains[b]
    ensures chains[i][j] !in chains[i][j + 1..]
  {
    hide BucketOf, IsChain;
    var h := chains[i][j];
    assert h in chains[i];
    assert Own(names, |list|, i, chains[i]);
    forall b: nat | b < |list| && b != i
      ensures h !in chains[b]
    {
      assert Own(names, |list|, b, chains[b]);
    }
    assert NoDup(chains[i]);
    forall b, a | 0 <= b < i && a in chains[..i][b]
      ensures a != h
    {
      assert a in chains[b];
    }
  }

  lemma Moving(names: seq<Name>, next: seq<nat>, list: seq<nat>, chains: seq<seq<nat>>,
               newList: seq<nat>, newChains: seq<seq<nat>>, i: nat, j: nat, b: nat)
    requires Waiting(names, next, list, chains, i + 1) && i < |list| && j < |chains[i]|
    requires BucketsOk(names, next, newList, newChains) && |newList| > 0
    requires IsChain(next, chains[i][j], chains[i][j..])
    requires 0 < chains[i][j] < |names| && chains[i][j] !in MembersOf(newChains)
    requires forall c :: i + 1 <= c < |list| ==> chains[i][j] !in chains[c]
    requires chains[i][j] !in chains[i][j + 1..]
    requires b == BucketOf(names[chains[i][j]].hash, |newList|)
    ensures var h := chains[i][j];
            var next' := next[h := newList[b]];
            && BucketsOk(names, next', newList[b := h], newChains[b := [h] + newChains[b]])
            && Waiting(names, next', list, chains, i + 1)
            && IsChain(next', next[h], chains[i][j + 1..]) && next[h] == At(chains[i], j + 1)
  {
    hide BucketOf;
    var h := chains[i][j];
    var next' := next[h := newList[b]];
    assert h in chains[i];
    assert chains[i][j..][1..] == chains[i][j + 1..];
    ChainFrame(next, next', next[h], chains[i][j + 1..]);
    forall c: nat | i + 1 <= c < |list|
      ensures IsChain(next', list[c], chains[c])
    {
      ChainFrame(next, next', list[c], chains[c]);
    }
    var newList', newChains' := newList[b := h], newChains[b := [h] + newChains[b]];
    forall c: nat | c < |newList|
      ensures BucketOk(names, next', |newList|, c, newList'[c], newChains'[c])
    {
      UseBucket(names, next, newList, newChains, c);
      assert h !in newChains[c];
      BucketFrame(names, next, next', |newList|, c, newList[c], newChains[c]);
      if c == b {
        assert ([h] + newChains[b])[1..] == newChains[b];
        assert forall a :: a in [h] + newChains[b] ==> a == h || a in newChains[b];
      }
    }
  }

  lemma MovedMembers(chains: seq<seq<nat>>, newChains: seq<seq<nat>>, i: nat, j: nat, b: nat)
    requires i < |chains| && j < |chains[i]| && b < |newChains|
    requires MembersOf(newChains) == MembersOf(chains[..i]) + SetOf(chains[i][..j])
    ensures MembersOf(newChains[b := [chains[i][j]] + newChains[b]]) == MembersOf(newChains) + {chains[i][j]}
    ensures MembersOf(newChains) + {chains[i][j]} == MembersOf(chains[..i]) + SetOf(chains[i][..j + 1])
  {
    var h, newChains' := chains[i][j], newChains[b := [chains[i][j]] + newChains[b]];
    forall a: nat
      ensures a in MembersOf(newChains') <==> a in MembersOf(newChains) || a == h
    {
      if c :| 0 <= c < |newChains| && a in newChains[c] {
        assert a in newChains'[c];
      }
      assert h in newChains'[b];
    }
    assert chains[i][..j + 1] == chains[i][..j] + [h];
  }

  lemma MovedAll(names: seq<Name>, next: seq<nat>, list: seq<nat>, chains: seq<seq<nat>>, i: nat, j: nat)
    requires Waiting(names, next, list, chains, i + 1) && i < |list| && j <= |chains[i]| && At(chains[i], j) == 0
    ensures MembersOf(chains[..i]) + SetOf(chains[i][..j]) == MembersOf(chains[..i + 1])
  {
    hide BucketOf, IsChain;
    assert Own(names, |list|, i, chains[i]);
    assert forall k :: 0 <= k < |chains[i]| ==> chains[i][k] in chains[i];
    assert chains[i][..j] == chains[i];
    forall a: nat
      ensures a in MembersOf(chains[..i + 1]) <==> a in MembersOf(chains[..i]) || a in chains[i]
    {
      var upto, before := chains[..i + 1], chains[..i];
      if c :| 0 <= c < |upto| && a in upto[c] {
        assert c < i ==> a in before[c];
      }
      if c :| 0 <= c < |before| && a in before[c] {
        assert a in upto[c];
      }
      if a in chains[i] {
        assert a in upto[i];
      }
    }
  }

  lemma Removing(names: seq<Name>, next: seq<nat>, list: seq<nat>, chains: seq<seq<nat>>, b: nat, i: nat)
    requires BucketsOk(names, next, list, chains) && next != [] && b < |chains| && i < |chains[b]|
    ensures chains[b][i] < |next|
    ensures var pred := Predecessor(chains[b], i);
            pred < |next| && BucketsOk(names, SetSlotNext(next, pred, next[chains[b][i]]),
                                       SetSlotList(list, b, pred, next[chains[b][i]]), chains[b := chains[b][..i] + chains[b][i + 1..]])
  {
    hide BucketOf, IsChain;
    var chain := chains[b];
    UseBucket(names, next, list, chains, b);
    ChainTail(next, list[b], chain, i);
    ChainTail(next, list[b], chain, i + 1);
    assert Own(names, |list|, b, chain[i + 1..]) by {
      assert forall a :: a in chain[i + 1..] ==> a in chain;
    }
    SlotWrite(names, next, list, chains, b, i, next[chain[i]], chain[i + 1..]);
  }

  lemma MembersRemoved(names: seq<Name>, next: seq<nat>, list: seq<nat>, chains: seq<seq<nat>>, b: nat, i: nat, x: nat)
    requires BucketsOk(names, next, list, chains) && b < |chains| && i < |chains[b]| && x == chains[b][i]
    ensures x in MembersOf(chains)
    ensures MembersOf(chains[b := chains[b][..i] + chains[b][i + 1..]]) == MembersOf(chains) - {x}
  {
    hide BucketOf, IsChain;
    var chain, chains' := chains[b], chains[b := chains[b][..i] + chains[b][i + 1..]];
    UseBucket(names, next, list, chains, b);
    assert x in chain;
    OnlyBucket(names, next, list, chains, x);
    assert chain == chain[..i] + [x] + chain[i + 1..];
    forall a: nat
      ensures a in MembersOf(chains') <==> a in MembersOf(chains) && a != x
    {
      if c :| 0 <= c < |chains'| && a in chains'[c] {
        assert a in chains[c];
      }
      if c :| 0 <= c < |chains| && a in chains[c] && a != x {
        assert a in chains'[c];
      }
    }
  }

  lemma Lengths(names: seq<Name>, next: seq<nat>, list: seq<nat>, chains: seq<seq<nat>>)
    requires BucketsOk(names, next, list, chains)
    ensures |names| == |next| && |list| == |chains| > 0
    ensures forall a :: a in MembersOf(chains) ==> 0 < a < |names|
  {
    UseBucket(names, next, list, chains, 0);
    forall a | a in MembersOf(chains)
      ensures 0 < a < |names|
    {
      OnlyBucket(names, next, list, chains, a);
    }
  }

  lemma MoreMemory(names: seq<Name>, next: seq<nat>, list: seq<nat>, chains: seq<seq<nat>>, name: Name)
    requires BucketsOk(names, next, list, chains)
    ensures BucketsOk(names + [name], next + [0], list, chains)
    ensures forall a :: a in MembersOf(chains) ==> 0 < a < |names|
    ensures DistinctNames(names, MembersOf(chains)) ==> DistinctNames(names + [name], MembersOf(chains))
  {
    hide BucketOf, IsChain;
    Lengths(names, next, list, chains);
    forall b: nat | b < |list|
      ensures BucketOk(names + [name], next + [0], |list|, b, list[b], chains[b])
    {
      UseBucket(names, next, list, chains, b);
      ChainFrame(next, next + [0], list[b], chains[b]);
    }
  }

  /** The chain after an insertion at the slot found. */
  lemma Inserting(names: seq<Name>, next: seq<nat>, list: seq<nat>, chains: seq<seq<nat>>, b: nat, i: nat, h: nat,
                  next1: seq<nat>, rest: seq<nat>)
    requires BucketsOk(names, next, list, chains) && b < |chains| && i <= |chains[b]|
    requires 0 < h < |names| && h !in MembersOf(chains) && b == BucketOf(names[h].hash, |list|)
    requires At(chains[b], i) < |next| && (At(chains[b], i) == 0 <==> i == |chains[b]|)
    requires |names| == |next| && next1 == next[h := if At(chains[b], i) == 0 then 0 else next[At(chains[b], i)]]
    requires rest == [h] + if i < |chains[b]| then chains[b][i + 1..] else []
    ensures var pred := Predecessor(chains[b], i);
            pred < |next| && BucketsOk(names, SetSlotNext(next1, pred, h), SetSlotList(list, b, pred, h), chains[b := chains[b][..i] + rest])
  {
    hide BucketOf;
    var chain := chains[b];
    UseBucket(names, next, list, chains, b);
    forall c: nat | c < |list|
      ensures BucketOk(names, next1, |list|, c, list[c], chains[c])
    {
      UseBucket(names, next, list, chains, c);
      assert h !in chains[c];
      BucketFrame(names, next, next1, |list|, c, list[c], chains[c]);
    }
    assert BucketsOk(names, next1, list, chains);
    assert h !in chain;
    SplicedNoDup(chain, i, h);
    if i < |chain| {
      ChainTail(next1, list[b], chain, i + 1);
      ChainTail(next1, list[b], chain, i);
      ChainTail(next, list[b], chain, i);
      assert rest[1..] == chain[i + 1..];
      assert chain[i] in chain;
    } else {
      assert rest[1..] == [];
    }
    assert IsChain(next1, h, rest);
    assert forall a :: a in rest ==> a == h || a in chain;
    SlotWrite(names, next1, list, chains, b, i, h, rest);
  }

  lemma SplicedNoDup(chain: seq<nat>, i: nat, h: nat)
    requires NoDup(chain) && i <= |chain| && h !in chain
    ensures NoDup(chain[..i] + ([h] + if i < |chain| then chain[i + 1..] else []))
  {
  }

  lemma MembersReplaced(names: seq<Name>, next: seq<nat>, list: seq<nat>, chains: seq<seq<nat>>, b: nat, i: nat,
      rest: seq<nat>, h: nat, cur: nat)
    requires BucketsOk(names, next, list, chains) && b < |chains| && i <= |chains[b]| && cur == At(chains[b], i)
    requires rest == [h] + if i < |chains[b]| then chains[b][i + 1..] else []
    ensures MembersOf(chains[b := chains[b][..i] + rest]) == MembersOf(chains) - {cur} + {h}
  {
    hide BucketOf, IsChain;
    var chain, chains' := chains[b], chains[b := chains[b][..i] + rest];
    Lengths(names, next, list, chains);
    UseBucket(names, next, list, chains, b);
    forall a
      ensures a in chain[..i] + rest <==> (a in chain && a != cur) || a == h
    {
      ReplacedMembers(chain, i, h, a);
    }
    forall a: nat
      ensures a in MembersOf(chains') <==> a in MembersOf(chains) - {cur} + {h}
    {
      if a in MembersOf(chains') {
        var c :| 0 <= c < |chains'| && a in chains'[c];
        if c != b {
          assert a in MembersOf(chains);
          OnlyBucket(names, next, list, chains, a);
          assert i < |chain| ==> chain[i] in chain && cur in MembersOf(chains);
          if i < |chain| {
            OnlyBucket(names, next, list, chains, cur);
          }
        }
      }
      if a in MembersOf(chains) && a != cur {
        var c :| 0 <= c < |chains| && a in chains[c];
        assert a in chains'[c];
      }
      assert h in chains'[b];
    }
  }

  lemma ReplacedMembers(chain: seq<nat>, i: nat, h: nat, a: nat)
    requires NoDup(chain) && i <= |chain| && forall x :: x in chain ==> x != 0
    ensures a in chain[..i] + ([h] + if i < |chain| then chain[i + 1..] else []) <==> (a in chain && a != At(chain, i)) || a == h
  {
    if i < |chain| {
      assert chain == chain[..i] + [chain[i]] + chain[i + 1..];
    } else {
      assert chain == chain[..i];
    }
  }

  lemma OnlyReplaced(names: seq<Name>, members: set<nat>, cur: nat, h: nat)
    requires DistinctNames(names, members) && h < |names|
    requires cur != 0 ==> cur in members && cur < |names| && names[cur] == names[h]
    requires cur == 0 ==> forall c :: c in members && c < |names| ==> names[c] != names[h]
    ensures forall c :: c in members && c < |names| && names[c] == names[h] ==> c == cur
  {
  }

  /** Adding an entry whose name nobody else has keeps names distinct. */
  lemma KeepDistinct(names: seq<Name>, members: set<nat>, gone: nat, h: nat)
    requires DistinctNames(names, members)
    requires h != 0 ==> h < |names| && forall c :: c in members && c < |names| && names[c] == names[h] ==> c == gone
    ensures h == 0 ==> DistinctNames(names, members - {gone})
    ensures h != 0 ==> DistinctNames(names, members - {gone} + {h})
  {
  }
}
