/** The store as a state machine: memtables, levels of files, snapshots and the
    history of writes; what every step keeps, and what every read answers. */
module DbState {
  import opened DbFormat
  import opened Version
  import opened VersionBuilder

  /** `hist` is the sequence of all writes; `|hist|` is last_sequence. */
  datatype State = State(
    hist: seq<Op>,
    mem: seq<Entry>,
    imm: Option<seq<Entry>>,
    levels: seq<Level>,
    snapshots: seq<nat>,
    nextFile: nat)

  /** The smallest snapshot a compaction must respect. */
  function SmallestSnapshot(st: State): nat {
    if st.snapshots == [] then |st.hist| else st.snapshots[0]
  }

  ghost function ImmEntries(st: State): set<Entry> {
    match st.imm
    case None => {}
    case Some(m) => Elements(m)
  }

  ghost function Store(st: State): set<Entry> {
    Elements(st.mem) + ImmEntries(st) + VersionEntries(st.levels)
  }

  // ---------------------------------------------------------------- invariant

  ghost predicate MemInv(st: State) {
    && Sorted(st.mem)
    && (st.imm.Some? ==> Sorted(st.imm.value))
    && Newer(Elements(st.mem), ImmEntries(st))
    && Newer(Elements(st.mem), VersionEntries(st.levels))
    && Newer(ImmEntries(st), VersionEntries(st.levels))
  }

  /** File numbers are unique over all levels and below the next one. */
  ghost predicate NumbersInv(levels: seq<Level>, nextFile: nat) {
    && (forall l, f :: 0 <= l < |levels| && f in levels[l] ==> f.number < nextFile)
    && (forall l, m, f, g ::
          0 <= l < |levels| && 0 <= m < |levels| && f in levels[l] && g in levels[m] && f.number == g.number ==>
            l == m && f == g)
  }

  ghost predicate FilesInv(st: State) {
    && WellFormed(st.levels)
    && (forall l :: 0 <= l < kNumLevels ==> SortedFiles(st.levels[l]))
    && NumbersInv(st.levels, st.nextFile)
  }

  ghost predicate SnapshotsInv(st: State) {
    && (forall i, j :: 0 <= i < j < |st.snapshots| ==> st.snapshots[i] <= st.snapshots[j])
    && (forall i :: 0 <= i < |st.snapshots| ==> st.snapshots[i] <= |st.hist|)
  }

  /** Every read from the smallest snapshot on answers what the history says. */
  ghost predicate ReadsInv(st: State) {
    forall k, s :: s >= SmallestSnapshot(st) ==> Lookup(Store(st), k, s) == HistoryGet(st.hist, k, s)
  }

  ghost predicate Inv(st: State) {
    && |st.hist| < kMaxSequenceNumber
    && FromHistory(Store(st), st.hist)
    && MemInv(st)
    && FilesInv(st)
    && SnapshotsInv(st)
    && ReadsInv(st)
  }

  const EMPTY: State := State([], [], None, [[], [], [], [], [], [], []], [], 2)

  lemma EmptyLevels()
    ensures |EMPTY.levels| == kNumLevels
    ensures forall l :: 0 <= l < kNumLevels ==> EMPTY.levels[l] == []
  {
  }

  lemma NoFiles(levels: seq<Level>)
    requires |levels| == kNumLevels && forall l :: 0 <= l < kNumLevels ==> levels[l] == []
    ensures WellFormed(levels) && NumbersInv(levels, 2) && VersionEntries(levels) == {}
    ensures forall l :: 0 <= l < kNumLevels ==> SortedFiles(levels[l])
  {
    forall l | 0 <= l < kNumLevels
      ensures LevelEntries(levels[l]) == {}
    {
    }
  }

  lemma EmptyInv()
    ensures Inv(EMPTY)
  {
    hide WellFormed, NumbersInv, SortedFiles, VersionEntries;
    EmptyLevels();
    NoFiles(EMPTY.levels);
    forall k, s
      ensures Lookup(Store(EMPTY), k, s) == HistoryGet([], k, s)
    {
    }
  }

  // ---------------------------------------------------------------- reads

  /** DBImpl::Get's order of search: memtable, immutable memtable, version. */
  ghost function Searched(st: State, k: UserKey, s: nat): Option<Entry> {
    if Newest(Elements(st.mem), k, s).Some? then Newest(Elements(st.mem), k, s)
    else if Newest(ImmEntries(st), k, s).Some? then Newest(ImmEntries(st), k, s)
    else Newest(VersionEntries(st.levels), k, s)
  }

  ghost function ValueOf(e: Option<Entry>): Option<Value> {
    match e
    case None => None
    case Some(entry) => entry.value
  }

  /** Stopping at the first part that answers gives the history's answer. */
  lemma SearchIsHistory(st: State, k: UserKey, s: nat)
    requires Inv(st) && s >= SmallestSnapshot(st)
    ensures ValueOf(Searched(st, k, s)) == HistoryGet(st.hist, k, s)
  {
    hide ReadsInv, WellFormed, FilesInv, FromHistory;
    assert Lookup(Store(st), k, s) == HistoryGet(st.hist, k, s) by {
      UseReads(st, k, s);
    }
    FromHistoryCoherent(Store(st), st.hist);
    var m, i, v := Elements(st.mem), ImmEntries(st), VersionEntries(st.levels);
    assert Store(st) == m + (i + v);
    SubsetCoherent(i + v, Store(st));
    NewestSplit(m, i + v, k, s);
    NewestSplit(i, v, k, s);
  }

  lemma UseReads(st: State, k: UserKey, s: nat)
    requires ReadsInv(st) && s >= SmallestSnapshot(st)
    ensures Lookup(Store(st), k, s) == HistoryGet(st.hist, k, s)
  {
  }

  // ---------------------------------------------------------------- write

  /** One write: the next sequence number goes to the memtable. */
  ghost function WriteOne(st: State, op: Op): State
    requires Inv(st) && |st.hist| + 1 < kMaxSequenceNumber
  {
    var hist := st.hist + [op];
    NewKey(st);
    st.(hist := hist, mem := InsertEntry(st.mem, EntryAt(hist, |hist|)))
  }

  lemma NewKey(st: State)
    requires Inv(st)
    ensures forall e :: e in Store(st) ==> e.key.sequence <= |st.hist|
    ensures forall e :: e in st.mem ==> e.key.sequence <= |st.hist|
  {
    assert forall e :: e in st.mem ==> e in Store(st);
  }

  /** A group of operations applied in order. */
  ghost function WriteAll(st: State, ops: seq<Op>): State
    requires Inv(st) && |st.hist| + |ops| < kMaxSequenceNumber
    decreases |ops|
  {
    if ops == [] then st
    else
      var st' := WriteOne(st, ops[0]);
      WriteOneInv(st, ops[0]);
      WriteAll(st', ops[1..])
  }

  lemma StoreAfterWrite(st: State, op: Op)
    requires Inv(st) && |st.hist| + 1 < kMaxSequenceNumber
    ensures Store(WriteOne(st, op)) == Store(st) + {EntryAt(st.hist + [op], |st.hist| + 1)}
  {
    var e := EntryAt(st.hist + [op], |st.hist| + 1);
    NewKey(st);
    assert Elements(InsertEntry(st.mem, e)) == Elements(st.mem) + {e};
  }

  lemma LookupNewWrite(S: set<Entry>, hist: seq<Op>, op: Op, k: UserKey, s: nat)
    requires FromHistory(S, hist)
    ensures Lookup(S + {EntryAt(hist + [op], |hist| + 1)}, k, s) ==
            if op.key == k && |hist| + 1 <= s then op.value else Lookup(S, k, s)
  {
    var e := EntryAt(hist + [op], |hist| + 1);
    var S' := S + {e};
    FromHistoryCoherent(S, hist);
    if Visible(e, k, s) {
      assert IsNewest(S', k, s, e);
      NewestUnique(S', k, s, e);
    } else if Newest(S, k, s).Some? {
      var f := Newest(S, k, s).value;
      assert IsNewest(S', k, s, f);
      NewestUnique(S', k, s, f);
    }
  }

  lemma HistoryGetSnoc(hist: seq<Op>, op: Op, k: UserKey, s: nat)
    ensures HistoryGet(hist + [op], k, s) == if op.key == k && |hist| + 1 <= s then op.value else HistoryGet(hist, k, s)
  {
    var n := if s < |hist| then s else |hist|;
    LastWriteSnoc(hist, op, k, n);
  }

  lemma {:induction false} LastWriteSnoc(hist: seq<Op>, op: Op, k: UserKey, n: nat)
    requires n <= |hist|
    ensures LastWrite(hist + [op], k, n) == LastWrite(hist, k, n)
  {
    if n > 0 {
      LastWriteSnoc(hist, op, k, n - 1);
    }
  }

  lemma FromHistorySnoc(S: set<Entry>, hist: seq<Op>, op: Op)
    requires FromHistory(S, hist)
    ensures FromHistory(S + {EntryAt(hist + [op], |hist| + 1)}, hist + [op])
  {
  }

  lemma WriteOneInv(st: State, op: Op)
    requires Inv(st) && |st.hist| + 1 < kMaxSequenceNumber
    ensures Inv(WriteOne(st, op))
  {
    hide WellFormed, FilesInv;
    var st' := WriteOne(st, op);
    var e := EntryAt(st'.hist, |st'.hist|);
    NewKey(st);
    StoreAfterWrite(st, op);
    FromHistorySnoc(Store(st), st.hist, op);
    assert FilesInv(st') by {
      SameFilesInv(st, st');
    }
    assert MemInv(st') by {
      assert Elements(st'.mem) == Elements(st.mem) + {e};
      forall x | x in ImmEntries(st) + VersionEntries(st.levels)
        ensures x.key.sequence < e.key.sequence
      {
        assert x in Store(st);
      }
    }
    assert ReadsInv(st') by {
      forall k, s | s >= SmallestSnapshot(st')
        ensures Lookup(Store(st'), k, s) == HistoryGet(st'.hist, k, s)
      {
        LookupNewWrite(Store(st), st.hist, op, k, s);
        HistoryGetSnoc(st.hist, op, k, s);
        UseReads(st, k, s);
      }
    }
  }

  lemma SameFilesInv(st: State, st': State)
    requires FilesInv(st) && st'.levels == st.levels && st'.nextFile >= st.nextFile
    ensures FilesInv(st')
  {
  }

  /** A group write keeps the invariant and appends its operations to the history. */
  lemma {:induction false} WriteAllInv(st: State, ops: seq<Op>)
    requires Inv(st) && |st.hist| + |ops| < kMaxSequenceNumber
    ensures Inv(WriteAll(st, ops))
    ensures WriteAll(st, ops).hist == st.hist + ops
    ensures WriteAll(st, ops) == st.(hist := st.hist + ops, mem := WriteAll(st, ops).mem)
    decreases |ops|
  {
    hide Inv;
    if ops == [] {
      assert st.hist + ops == st.hist;
    } else {
      WriteOneInv(st, ops[0]);
      WriteAllInv(WriteOne(st, ops[0]), ops[1..]);
      assert st.hist + [ops[0]] + ops[1..] == st.hist + ops;
    }
  }

  // ---------------------------------------------------------------- rotation

  /** MakeRoomForWrite: the memtable becomes immutable; a log number is used up. */
  function Rotate(st: State): State {
    st.(mem := [], imm := Some(st.mem), nextFile := st.nextFile + 1)
  }

  lemma RotateInv(st: State)
    requires Inv(st) && st.imm == None
    ensures Inv(Rotate(st))
  {
    hide WellFormed, FilesInv;
    var st' := Rotate(st);
    assert Elements<Entry>([]) == {};
    assert Store(st') == Store(st);
    SameFilesInv(st, st');
    forall k, s | s >= SmallestSnapshot(st')
      ensures Lookup(Store(st'), k, s) == HistoryGet(st'.hist, k, s)
    {
      UseReads(st, k, s);
    }
  }

  // ---------------------------------------------------------------- snapshots

  function NewSnapshot(st: State): State {
    st.(snapshots := st.snapshots + [|st.hist|])
  }

  function ReleaseSnapshot(st: State, i: nat): State
    requires i < |st.snapshots|
  {
    st.(snapshots := st.snapshots[..i] + st.snapshots[i + 1..])
  }

  lemma SameStoreInv(st: State, st': State)
    requires Inv(st) && st' == st.(snapshots := st'.snapshots)
    requires SnapshotsInv(st') && SmallestSnapshot(st') >= SmallestSnapshot(st)
    ensures Inv(st')
  {
    hide WellFormed, FilesInv, FromHistory;
    SameFilesInv(st, st');
    assert Store(st') == Store(st);
    forall k, s | s >= SmallestSnapshot(st')
      ensures Lookup(Store(st'), k, s) == HistoryGet(st'.hist, k, s)
    {
      UseReads(st, k, s);
    }
  }

  lemma NewSnapshotInv(st: State)
    requires Inv(st)
    ensures Inv(NewSnapshot(st))
  {
    SameStoreInv(st, NewSnapshot(st));
  }

  lemma ReleaseSnapshotInv(st: State, i: nat)
    requires Inv(st) && i < |st.snapshots|
    ensures Inv(ReleaseSnapshot(st, i))
  {
    SameStoreInv(st, ReleaseSnapshot(st, i));
  }
}
