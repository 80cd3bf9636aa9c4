/** What is on disk, and what survives a crash: logs, MANIFEST and tables under every
    step of the database, crash and recovery included. */
module Durable {
  import opened DbFormat
  import opened Version
  import opened Compaction
  import opened InputSelection
  import opened VersionBuilder
  import opened DbState
  import opened DbSteps
  import opened Manifest

  /** A write batch as logged: the sequence number of its first operation. */
  datatype Batch = Batch(sequence: nat, ops: seq<Op>)

  /** The files of the database directory.  A log holds the records that are whole;
      a record cut short by a crash is not among them. */
  datatype Disk = Disk(manifest: seq<Record>, logs: map<nat, seq<Batch>>, tables: map<nat, FileMetaData>)

  // ---------------------------------------------------------------- logs

  /** The batches of the logs numbered from `lo` on, in the order of the numbers. */
  function LogBatches(logs: map<nat, seq<Batch>>, lo: nat, hi: nat): seq<Batch>
    decreases hi - lo
  {
    if lo >= hi then [] else (if lo in logs then logs[lo] else []) + LogBatches(logs, lo + 1, hi)
  }

  ghost predicate AllBelow(logs: map<nat, seq<Batch>>, hi: nat) {
    forall n :: n in logs ==> n < hi
  }

  lemma {:induction false} LogsAgree(a: map<nat, seq<Batch>>, b: map<nat, seq<Batch>>, lo: nat, hi: nat)
    requires forall n :: lo <= n < hi ==> (n in a <==> n in b) && (n in a ==> a[n] == b[n])
    ensures LogBatches(a, lo, hi) == LogBatches(b, lo, hi)
    decreases hi - lo
  {
    if lo < hi {
      LogsAgree(a, b, lo + 1, hi);
    }
  }

  lemma {:induction false} LogsSplit(logs: map<nat, seq<Batch>>, lo: nat, mid: nat, hi: nat)
    requires lo <= mid <= hi
    ensures LogBatches(logs, lo, hi) == LogBatches(logs, lo, mid) + LogBatches(logs, mid, hi)
    decreases mid - lo
  {
    if lo < mid {
      LogsSplit(logs, lo + 1, mid, hi);
    }
  }

  lemma {:induction false} NoLogs(logs: map<nat, seq<Batch>>, lo: nat, hi: nat)
    requires forall n :: lo <= n < hi && n in logs ==> logs[n] == []
    ensures LogBatches(logs, lo, hi) == []
    decreases hi - lo
  {
    if lo < hi {
      NoLogs(logs, lo + 1, hi);
    }
  }

  /** The newest log, alone. */
  lemma NewestLog(logs: map<nat, seq<Batch>>, n: nat, hi: nat)
    requires n in logs && n < hi && forall m :: n < m < hi ==> m !in logs
    ensures LogBatches(logs, n, hi) == logs[n]
  {
    NoLogs(logs, n + 1, hi);
  }

  /** The batches are exactly the writes of `hist` after the first `a`, each carrying
      the sequence number of its first operation. */
  ghost predicate Chain(batches: seq<Batch>, hist: seq<Op>, a: nat) {
    if batches == [] then a == |hist|
    else
      && batches[0].sequence == a + 1
      && a + |batches[0].ops| <= |hist|
      && hist[a..a + |batches[0].ops|] == batches[0].ops
      && Chain(batches[1..], hist, a + |batches[0].ops|)
  }

  lemma {:induction false} ChainLength(batches: seq<Batch>, hist: seq<Op>, a: nat)
    requires Chain(batches, hist, a)
    ensures a <= |hist|
    decreases |batches|
  {
    if batches != [] {
      ChainLength(batches[1..], hist, a + |batches[0].ops|);
    }
  }

  /** Logging one more batch extends the chain by its operations. */
  lemma {:induction false} ChainSnoc(batches: seq<Batch>, hist: seq<Op>, a: nat, ops: seq<Op>)
    requires Chain(batches, hist, a)
    ensures Chain(batches + [Batch(|hist| + 1, ops)], hist + ops, a)
    decreases |batches|
  {
    var all := batches + [Batch(|hist| + 1, ops)];
    if batches == [] {
      assert all[1..] == [];
      assert (hist + ops)[a..] == ops;
    } else {
      var b := a + |batches[0].ops|;
      ChainSnoc(batches[1..], hist, b, ops);
      assert all[1..] == batches[1..] + [Batch(|hist| + 1, ops)];
      assert (hist + ops)[a..b] == hist[a..b];
    }
  }

  // ---------------------------------------------------------------- tables

  ghost predicate HasTables(tables: map<nat, FileMetaData>, levels: seq<Level>) {
    forall l, f :: 0 <= l < |levels| && f in levels[l] ==> f.number in tables && tables[f.number] == f
  }

  ghost predicate FilesBelow(levels: seq<Level>, nextFile: nat) {
    forall l, f :: 0 <= l < |levels| && f in levels[l] ==> f.number < nextFile
  }

  // ---------------------------------------------------------------- the flushed part

  /** The entries of the writes numbered above `a` and up to `b`. */
  ghost function Between(hist: seq<Op>, a: nat, b: nat): set<Entry>
    requires b <= |hist|
  {
    set n {:trigger EntryAt(hist, n)} | a < n <= b :: EntryAt(hist, n)
  }

  /** The database as it would be if only the first `a` writes had been made: these are
      the writes whose entries are in tables. */
  function Base(st: State, a: nat): State
    requires a <= |st.hist|
  {
    State(st.hist[..a], [], None, st.levels, [Min(a, SmallestSnapshot(st))], st.nextFile)
  }

  lemma ChangeNextFile(st: State, n: nat)
    requires Inv(st) && NumbersInv(st.levels, n)
    ensures Inv(st.(nextFile := n))
  {
    hide WellFormed, FromHistory, NumbersInv, MemInv;
    var st' := st.(nextFile := n);
    assert Store(st') == Store(st);
    assert FromHistory(Store(st'), st'.hist);
    SameMem(st, st');
    SameReads(st, st');
  }

  lemma SameMem(st: State, st': State)
    requires MemInv(st) && st'.mem == st.mem && st'.imm == st.imm && st'.levels == st.levels
    ensures MemInv(st')
  {
  }

  lemma {:induction false} SortedUnique(a: seq<Entry>, b: seq<Entry>)
    requires Sorted(a) && Sorted(b) && Elements(a) == Elements(b)
    ensures a == b
    decreases |a|
  {
    NonEmpty(a);
    NonEmpty(b);
    if a != [] {
      assert a[0] in Elements(b);
      assert b[0] in Elements(a);
      var i: nat :| i < |b| && b[i] == a[0];
      var j: nat :| j < |a| && a[j] == b[0];
      SortedOrder(a, 0, j);
      SortedOrder(b, 0, i);
      assert a[0] == b[0];
      forall e
        ensures e in Elements(a[1..]) <==> e in Elements(b[1..])
      {
        TailElements(a, e);
        TailElements(b, e);
      }
      SortedUnique(a[1..], b[1..]);
      assert a == [a[0]] + a[1..] && b == [b[0]] + b[1..];
    }
  }

  lemma NonEmpty(a: seq<Entry>)
    ensures a != [] <==> Elements(a) != {}
  {
    if a != [] {
      assert a[0] in Elements(a);
    }
  }

  lemma TailElements(a: seq<Entry>, e: Entry)
    requires Sorted(a) && a != []
    ensures e in Elements(a[1..]) <==> e in Elements(a) && e != a[0]
  {
    if e in Elements(a) && e != a[0] {
      var i: nat :| i < |a| && a[i] == e;
      assert a[1..][i - 1] == e;
    } else if e in Elements(a[1..]) {
      var i: nat :| i < |a[1..]| && a[1..][i] == e;
      SortedOrder(a, 0, i + 1);
    }
  }

  /** Writing a group puts exactly the new entries in the memtable. */
  lemma {:induction false} WriteAllMem(st: State, ops: seq<Op>)
    requires Inv(st) && |st.hist| + |ops| < kMaxSequenceNumber
    ensures Elements(WriteAll(st, ops).mem) == Elements(st.mem) + Between(st.hist + ops, |st.hist|, |st.hist| + |ops|)
    decreases |ops|
  {
    hide Inv, WriteOne, EntryAt, Between;
    var hist := st.hist + ops;
    BetweenStep(hist, |st.hist|, |hist|);
    if ops != [] {
      var st' := WriteOne(st, ops[0]);
      WriteOneInv(st, ops[0]);
      WriteOneHist(st, ops[0]);
      WriteAllMem(st', ops[1..]);
      assert st'.hist + ops[1..] == hist;
      OneWriteMem(st, ops[0]);
      SameEntryAt(st'.hist, hist, |st'.hist|);
    }
  }

  lemma WriteOneHist(st: State, op: Op)
    requires Inv(st) && |st.hist| + 1 < kMaxSequenceNumber
    ensures WriteOne(st, op).hist == st.hist + [op]
  {
  }

  lemma SameEntryAt(a: seq<Op>, b: seq<Op>, n: nat)
    requires a <= b && 1 <= n <= |a|
    ensures EntryAt(a, n) == EntryAt(b, n)
  {
  }

  lemma BetweenStep(hist: seq<Op>, a: nat, b: nat)
    requires a <= b <= |hist|
    ensures a == b ==> Between(hist, a, b) == {}
    ensures a < b ==> Between(hist, a, b) == {EntryAt(hist, a + 1)} + Between(hist, a + 1, b)
  {
  }

  lemma OneWriteMem(st: State, op: Op)
    requires Inv(st) && |st.hist| + 1 < kMaxSequenceNumber
    ensures Elements(WriteOne(st, op).mem) == Elements(st.mem) + {EntryAt(st.hist + [op], |st.hist| + 1)}
  {
    hide Inv;
    NewKey(st);
    var e := EntryAt(st.hist + [op], |st.hist| + 1);
    MemSorted(st);
    var r := InsertEntry(st.mem, e);
  }

  lemma MemSorted(st: State)
    requires Inv(st)
    ensures Sorted(st.mem)
  {
  }

  /** A flush moves the writes `a+1 .. b` from logs to tables: what is then flushed is
      again a consistent database. */
  lemma BaseFlush(st: State, a: nat, b: nat, f: FileMetaData, p: nat, st': State)
    requires a <= b <= |st.hist| && Inv(st) && Inv(Base(st, a))
    requires st.imm.Some? && Elements(st.imm.value) == Between(st.hist, a, b)
    requires TableOf(st, f) && p < kNumLevels && CanPlace(st.levels, f, p) && Flushed(st, f, p, st')
    ensures Inv(Base(st', b))
  {
    hide WellFormed, FromHistory, NumbersInv, ReadsInv, FilesInv, FileMetaData.Valid, CanPlace, Edited, Between;
    var full := Replayed(st, a, b);
    var r := full.(mem := [], imm := st.imm);
    RotateInv(full);
    assert NumbersInv(Rotate(full).levels, st.nextFile) by {
      FilesFacts(st);
    }
    ChangeNextFile(Rotate(full), st.nextFile);
    assert r == Rotate(full).(nextFile := st.nextFile);
    var after := r.(imm := None, levels := st'.levels, nextFile := st.nextFile + 1);
    FlushInv(r, f, p, after);
    SameStoreInv(after, Base(st', b));
  }

  /** Replaying the writes `a+1 .. b` on the flushed part rebuilds their memtable. */
  lemma Replayed(st: State, a: nat, b: nat) returns (full: State)
    requires a <= b <= |st.hist| && Inv(st) && Inv(Base(st, a))
    requires st.imm.Some? && Elements(st.imm.value) == Between(st.hist, a, b)
    ensures Inv(full) && full == Base(st, a).(hist := st.hist[..b], mem := st.imm.value)
  {
    hide WellFormed, FromHistory, NumbersInv, ReadsInv, FilesInv, Between, WriteAll;
    var base, ops := Base(st, a), st.hist[a..b];
    assert st.hist[..a] + ops == st.hist[..b];
    WriteAllInv(base, ops);
    WriteAllMem(base, ops);
    full := WriteAll(base, ops);
    BetweenPrefix(st.hist[..b], st.hist, a, b);
    assert Elements(full.mem) == Between(st.hist, a, b);
    SortedUnique(full.mem, st.imm.value);
  }

  lemma BetweenPrefix(short: seq<Op>, long: seq<Op>, a: nat, b: nat)
    requires short <= long && b <= |short|
    ensures Between(short, a, b) == Between(long, a, b)
  {
    forall n: nat | a < n <= b
      ensures EntryAt(short, n) == EntryAt(long, n)
    {
      SameEntryAt(short, long, n);
    }
    assert forall e :: e in Between(short, a, b) ==> e in Between(long, a, b);
    assert forall e :: e in Between(long, a, b) ==> e in Between(short, a, b);
  }

  lemma BaseNextFile(st: State, a: nat, st': State)
    requires a <= |st.hist| && a <= |st'.hist| && Inv(Base(st, a)) && Base(st', a) == Base(st, a).(nextFile := st'.nextFile)
    requires st.nextFile <= st'.nextFile
    ensures Inv(Base(st', a))
  {
    hide WellFormed;
    assert NumbersInv(st.levels, st'.nextFile);
    ChangeNextFile(Base(st, a), st'.nextFile);
  }

  /** Releasing or taking snapshots only raises the smallest one. */
  lemma BaseSnapshots(st: State, a: nat, st': State)
    requires a <= |st.hist| && Inv(Base(st, a)) && st' == st.(snapshots := st'.snapshots)
    requires SmallestSnapshot(st) <= SmallestSnapshot(st')
    ensures Inv(Base(st', a))
  {
    hide WellFormed, FromHistory, ReadsInv, FilesInv, MemInv;
    SameStoreInv(Base(st, a), Base(st', a));
  }

  // ------------------------------------------------------- compaction of the flushed part

  /** Entries numbered at most `a` are dropped or kept alike under a smallest snapshot
      at or above `a`. */
  lemma {:induction false} KeptClamp(input: seq<Entry>, n: nat, s: nat, a: nat, levels: seq<Level>, level: nat)
    requires n <= |input| && forall e :: e in input ==> e.key.sequence <= a
    ensures Kept(input, n, s, levels, level) == Kept(input, n, Min(a, s), levels, level)
  {
    hide BaseLevelForKey;
    if n > 0 {
      KeptClamp(input, n - 1, s, a, levels, level);
      assert input[n - 1] in input;
      assert n > 1 ==> input[n - 2] in input;
    }
  }

  lemma InputFlushed(st: State, a: nat, level: nat, inputs0: Level, inputs1: Level, input: seq<Entry>)
    requires a <= |st.hist| && |st.levels| == kNumLevels && Inv(Base(st, a)) && level + 1 < kNumLevels
    requires GoodInputs(st.levels, level, inputs0, inputs1) && MergedInput(input, inputs0, inputs1)
    ensures forall e :: e in input ==> e.key.sequence <= a
  {
    hide WellFormed, FilesInv, ReadsInv, MemInv, GoodInputs, Sorted, NumbersInv;
    LowerMembers(st.levels, level, inputs0, inputs1);
    forall e | e in input
      ensures e.key.sequence <= a
    {
      assert e in Elements(input);
      EntriesInVersion(st.levels, level, inputs0, inputs1, e);
      assert e in Store(Base(st, a));
    }
  }

  lemma EntriesInVersion(levels: seq<Level>, level: nat, inputs0: Level, inputs1: Level, e: Entry)
    requires level + 1 < |levels|
    requires forall f :: f in inputs0 ==> f in levels[level]
    requires forall f :: f in inputs1 ==> f in levels[level + 1]
    requires e in LevelEntries(inputs0) + LevelEntries(inputs1)
    ensures e in VersionEntries(levels)
  {
    if e in LevelEntries(inputs0) {
      assert e in LevelEntries(levels[level]);
    } else {
      assert e in LevelEntries(levels[level + 1]);
    }
  }

  lemma BaseCompact(
    st: State, a: nat, level: nat, inputs0: Level, inputs1: Level, input: seq<Entry>, outputs: Level,
    edit: VersionEdit, st': State)
    requires a <= |st.hist| && |st.levels| == kNumLevels && Inv(Base(st, a)) && level + 1 < kNumLevels
    requires GoodInputs(st.levels, level, inputs0, inputs1) && LowerClosed(st.levels, level, inputs1)
    requires MergedInput(input, inputs0, inputs1) && OutputsOf(st, level, input, outputs)
    requires Compacted(st, level, inputs0, inputs1, outputs, edit, st')
    ensures Inv(Base(st', a))
  {
    hide Inv, GoodInputs, LowerClosed, MergedInput, ValidFiles, Flatten, ConsecutiveFrom, CompactionEdit, Edited;
    InputFlushed(st, a, level, inputs0, inputs1, input);
    KeptClamp(input, |input|, SmallestSnapshot(st), a, st.levels, level);
    assert SmallestSnapshot(Base(st, a)) == Min(a, SmallestSnapshot(st));
    CompactInv(Base(st, a), level, inputs0, inputs1, input, outputs, edit, Base(st', a));
  }

  lemma BaseMove(st: State, a: nat, level: nat, f: FileMetaData, st': State)
    requires a <= |st.hist| && |st.levels| == kNumLevels && Inv(Base(st, a)) && level + 1 < kNumLevels
    requires GoodInputs(st.levels, level, [f], []) && Moved(st, level, f, st')
    ensures Inv(Base(st', a))
  {
    hide Inv, GoodInputs, Edited;
    MoveInv(Base(st, a), level, f, Base(st', a));
  }
}
