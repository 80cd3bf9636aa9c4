/** Internal keys, entries and the two notions of "reading at a snapshot":
    over a set of stored entries, and over the history of all writes. */
module DbFormat {

  datatype Option<+T> = None | Some(value: T)

  type Byte = b: int | 0 <= b < 256

  type Bytes = seq<Byte>

  function Min(a: nat, b: nat): nat {
    if a < b then a else b
  }

  lemma SliceOfPrefix<T>(front: seq<T>, s: seq<T>, a: nat, b: nat)
    requires front <= s && a <= b <= |front|
    ensures front[a..b] == s[a..b]
  {
    assert forall i :: a <= i < b ==> front[i] == s[i];
  }

  /** A user key is represented by its position in the order of the user
      comparator.  Any total order on a countable set of strings embeds in the
      reals, and nothing in the store looks at a user key except through the
      comparator. */
  type UserKey = real

  type Value = Bytes

  const kNumLevels: nat := 7
  const kMaxMemCompactLevel: nat := 2
  const kMaxSequenceNumber: nat := 0x100_0000_0000_0000 - 1

  datatype InternalKey = InternalKey(user: UserKey, sequence: nat)

  /** `value == None` is a deletion marker (kTypeDeletion). */
  datatype Entry = Entry(key: InternalKey, value: Option<Value>)

  /** InternalKeyComparator: user key ascending, sequence number descending. */
  predicate Before(a: InternalKey, b: InternalKey) {
    a.user < b.user || (a.user == b.user && a.sequence > b.sequence)
  }

  predicate AtOrBefore(a: InternalKey, b: InternalKey) {
    a == b || Before(a, b)
  }

  ghost predicate Sorted(es: seq<Entry>) {
    forall i, j :: 0 <= i < j < |es| ==> Before(es[i].key, es[j].key)
  }

  lemma SortedOrder(es: seq<Entry>, i: nat, j: nat)
    requires Sorted(es) && i < |es| && j < |es|
    ensures i < j <==> Before(es[i].key, es[j].key)
    ensures i == j <==> es[i].key == es[j].key
  {
  }

  lemma SortedCons(e: Entry, rest: seq<Entry>)
    requires Sorted(rest) && forall x :: x in rest ==> Before(e.key, x.key)
    ensures Sorted([e] + rest)
  {
  }

  /** The sorted list with one more entry. */
  function InsertEntry(es: seq<Entry>, e: Entry): (r: seq<Entry>)
    requires Sorted(es)
    requires forall x :: x in es ==> x.key != e.key
    ensures Sorted(r)
    ensures forall x :: x in r <==> x in es || x == e
  {
    if es == [] then [e]
    else if Before(e.key, es[0].key) then
      SortedCons(e, es);
      [e] + es
    else
      assert es == [es[0]] + es[1..];
      var rest := InsertEntry(es[1..], e);
      assert forall x :: x in rest ==> Before(es[0].key, x.key);
      SortedCons(es[0], rest);
      [es[0]] + rest
  }

  ghost function Elements<T>(s: seq<T>): set<T> {
    set x | x in s
  }

  // ---------------------------------------------------------------- reading

  ghost predicate Visible(e: Entry, k: UserKey, s: nat) {
    e.key.user == k && e.key.sequence <= s
  }

  ghost predicate IsNewest(S: set<Entry>, k: UserKey, s: nat, e: Entry) {
    && e in S
    && Visible(e, k, s)
    && forall f :: f in S && Visible(f, k, s) ==> f.key.sequence <= e.key.sequence
  }

  /** The newest entry of `k` in `S` that a reader at snapshot `s` may see. */
  ghost function Newest(S: set<Entry>, k: UserKey, s: nat): (r: Option<Entry>)
    ensures r.Some? ==> IsNewest(S, k, s, r.value)
    ensures r.None? ==> forall e :: e in S ==> !Visible(e, k, s)
  {
    NewestExists(S, k, s);
    if e :| IsNewest(S, k, s, e) then Some(e) else None
  }

  /** What a read of `k` at `s` over the entries `S` answers. */
  ghost function Lookup(S: set<Entry>, k: UserKey, s: nat): Option<Value> {
    match Newest(S, k, s)
    case None => None
    case Some(e) => e.value
  }

  lemma {:induction false} NewestExists(S: set<Entry>, k: UserKey, s: nat)
    ensures (exists e :: e in S && Visible(e, k, s)) ==> exists e :: IsNewest(S, k, s, e)
  {
    if e :| e in S && Visible(e, k, s) {
      var T := S - {e};
      NewestExists(T, k, s);
      if f :| IsNewest(T, k, s, f) {
        if f.key.sequence <= e.key.sequence {
          assert IsNewest(S, k, s, e);
        } else {
          assert IsNewest(S, k, s, f);
        }
      } else {
        assert forall f :: f in S && f != e ==> f in T;
        assert IsNewest(S, k, s, e);
      }
    }
  }

  /** An internal key identifies at most one entry. */
  ghost predicate Coherent(S: set<Entry>) {
    forall e, f :: e in S && f in S && e.key == f.key ==> e == f
  }

  lemma SubsetCoherent(A: set<Entry>, B: set<Entry>)
    requires A <= B && Coherent(B)
    ensures Coherent(A)
  {
  }

  lemma NewestUnique(S: set<Entry>, k: UserKey, s: nat, e: Entry)
    requires Coherent(S)
    requires IsNewest(S, k, s, e)
    ensures Newest(S, k, s) == Some(e)
  {
    var f := Newest(S, k, s).value;
    assert f.key == e.key;
  }

  /** Every entry of `A` is newer than every entry of `B` with the same user key. */
  ghost predicate Newer(A: set<Entry>, B: set<Entry>) {
    forall a, b :: a in A && b in B && a.key.user == b.key.user ==> a.key.sequence > b.key.sequence
  }

  /** A reader that finds something in the newer part may stop there. */
  lemma NewestSplit(A: set<Entry>, B: set<Entry>, k: UserKey, s: nat)
    requires Newer(A, B)
    requires Coherent(A + B)
    ensures Newest(A + B, k, s) == if Newest(A, k, s).Some? then Newest(A, k, s) else Newest(B, k, s)
  {
    var a, b := Newest(A, k, s), Newest(B, k, s);
    if a.Some? {
      assert IsNewest(A + B, k, s, a.value);
      NewestUnique(A + B, k, s, a.value);
    } else if b.Some? {
      assert IsNewest(A + B, k, s, b.value);
      NewestUnique(A + B, k, s, b.value);
    }
  }

  // ---------------------------------------------------------------- history

  /** One operation of a write batch. */
  datatype Op = Op(key: UserKey, value: Option<Value>)

  /** The operation with sequence number `n`; the first write gets number 1. */
  function EntryAt(hist: seq<Op>, n: nat): Entry
    requires 1 <= n <= |hist|
  {
    Entry(InternalKey(hist[n - 1].key, n), hist[n - 1].value)
  }

  ghost function AllEntries(hist: seq<Op>): set<Entry> {
    set n {:trigger EntryAt(hist, n)} | 1 <= n <= |hist| :: EntryAt(hist, n)
  }

  /** Sequence number of the last of the first `n` writes that touches `k`, or 0. */
  function LastWrite(hist: seq<Op>, k: UserKey, n: nat): (r: nat)
    requires n <= |hist|
    ensures r <= n
    ensures r > 0 ==> hist[r - 1].key == k
    ensures forall i :: r <= i < n ==> hist[i].key != k
  {
    if n == 0 then 0
    else if hist[n - 1].key == k then n
    else LastWrite(hist, k, n - 1)
  }

  /** The specification of a read: the last write to `k` numbered `s` or less. */
  function HistoryGet(hist: seq<Op>, k: UserKey, s: nat): Option<Value> {
    var n := LastWrite(hist, k, if s < |hist| then s else |hist|);
    if n == 0 then None else hist[n - 1].value
  }

  /** Stored entries are never made up: each one is the write its number names. */
  ghost predicate FromHistory(S: set<Entry>, hist: seq<Op>) {
    forall e :: e in S ==> 1 <= e.key.sequence <= |hist| && e == EntryAt(hist, e.key.sequence)
  }

  lemma FromHistoryCoherent(S: set<Entry>, hist: seq<Op>)
    requires FromHistory(S, hist)
    ensures Coherent(S)
  {
  }

  /** The set reading and the history reading agree on the set of all writes. */
  lemma LookupAllEntries(hist: seq<Op>, k: UserKey, s: nat)
    ensures FromHistory(AllEntries(hist), hist)
    ensures Lookup(AllEntries(hist), k, s) == HistoryGet(hist, k, s)
  {
    var S := AllEntries(hist);
    FromHistoryCoherent(S, hist);
    var n := LastWrite(hist, k, if s < |hist| then s else |hist|);
    if n > 0 {
      var e := EntryAt(hist, n);
      forall f | f in S && Visible(f, k, s)
        ensures f.key.sequence <= n
      {
        assert hist[f.key.sequence - 1].key == k;
      }
      assert IsNewest(S, k, s, e);
      NewestUnique(S, k, s, e);
    } else {
      forall f | f in S
        ensures !Visible(f, k, s)
      {
        assert f == EntryAt(hist, f.key.sequence);
      }
    }
  }
}
