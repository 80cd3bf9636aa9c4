/** DBImpl: the database object.  Each method is one or more steps of the durable state
    machine, and each read answers from the history of writes. */
module DbImpl {
  import opened DbFormat
  import opened Version
  import opened Compaction
  import opened InputSelection
  import opened VersionBuilder
  import opened DbState
  import opened DbSteps
  import opened Manifest
  import opened Durable
  import opened Recovery

  class DBImpl {
    const versions: VersionSet
    var mem: seq<Entry>
    var imm: Option<seq<Entry>>
    var snapshots: seq<nat>
    var logFileNumber: nat
    var pendingOutputs: set<nat>
    // Versions other than the current one that readers hold references to.
    var olderVersions: seq<seq<Level>>
    // The directory.
    var logs: map<nat, seq<Batch>>
    var tables: map<nat, FileMetaData>
    ghost var hist: seq<Op>
    ghost var flushed: nat
    ghost var rotated: nat

    /** A database that has not been opened yet. */
    constructor (versions: VersionSet, logs: map<nat, seq<Batch>>, tables: map<nat, FileMetaData>)
      ensures this.versions == versions && this.logs == logs && this.tables == tables
      ensures snapshots == [] && pendingOutputs == {} && olderVersions == [] && imm == None && mem == []
    {
      this.versions, this.logs, this.tables := versions, logs, tables;
      mem, imm, snapshots := [], None, [];
      logFileNumber, pendingOutputs, olderVersions := 0, {}, [];
      hist, flushed, rotated := [], 0, 0;
    }

    ghost function AbsState(): State
      reads this, versions
    {
      State(hist, mem, imm, versions.current, snapshots, versions.nextFileNumber)
    }

    ghost function Abs(): Db
      reads this, versions
    {
      Db(AbsState(), versions.logNumber, logFileNumber, flushed, rotated, None, olderVersions, pendingOutputs,
         Disk(versions.manifest, logs, tables))
    }

    ghost predicate Valid()
      reads this, versions
    {
      versions.descriptorOpen && versions.lastSequence == |hist| && DbInv(Abs())
    }

    // -------------------------------------------------------------- reads

    /** Get: at any live snapshot, or at the latest sequence number, the answer is that
        of the last write to the key numbered no later. */
    method Get(k: UserKey, snapshot: Option<nat>) returns (value: Option<Value>)
      requires Valid()
      requires snapshot.Some? ==> snapshot.value in snapshots
      ensures value == HistoryGet(hist, k, if snapshot.Some? then snapshot.value else |hist|)
    {
      hide DbInv, WellFormed, ReadsInv, FromHistory, SeekAndSave;
      var s := if snapshot.Some? then snapshot.value else versions.lastSequence;
      ghost var st := AbsState();
      Readable(s);
      SearchIsHistory(st, k, s);
      SeekFindsNewest(mem, k, s);
      var r := SeekAndSave(mem, k, s);
      if r == NotFound && imm.Some? {
        SeekFindsNewest(imm.value, k, s);
        r := SeekAndSave(imm.value, k, s);
      }
      if r == NotFound {
        r := Version.Get(versions.current, k, s);
      }
      value := AnswerOf(r);
    }

    lemma Readable(s: nat)
      requires Valid() && (s == |hist| || s in snapshots)
      ensures Inv(AbsState()) && s >= SmallestSnapshot(AbsState())
      ensures Sorted(mem) && Coherent(Elements(mem)) && WellFormed(versions.current)
      ensures imm.Some? ==> Sorted(imm.value) && Coherent(Elements(imm.value))
    {
      var st := AbsState();
      SnapshotLive(st, s);
      FromHistoryCoherent(Store(st), hist);
      SubsetCoherent(Elements(mem), Store(st));
      SubsetCoherent(ImmEntries(st), Store(st));
    }

    method GetSnapshot() returns (s: nat)
      requires Valid()
      modifies this`snapshots
      ensures Valid() && s == |hist| && snapshots == old(snapshots) + [s]
    {
      hide DbInv;
      ghost var db := Abs();
      s := versions.lastSequence;
      snapshots := snapshots + [s];
      SnapshotStepInv(db, Abs());
    }

    method ReleaseSnapshot(i: nat)
      requires Valid() && i < |snapshots|
      modifies this`snapshots
      ensures Valid() && snapshots == old(snapshots)[..i] + old(snapshots)[i + 1..]
    {
      hide DbInv;
      ghost var db := Abs();
      snapshots := snapshots[..i] + snapshots[i + 1..];
      assert AbsState() == DbState.ReleaseSnapshot(db.st, i);
      SnapshotStepInv(db, Abs());
    }

    // -------------------------------------------------------------- writes

    /** WriteBatchInternal::InsertInto: operation `i` of the batch gets the sequence number
        of the batch plus `i`. */
    method InsertInto(table: seq<Entry>, batch: Batch, ghost start: State) returns (r: seq<Entry>)
      requires Inv(start) && |start.hist| + |batch.ops| < kMaxSequenceNumber
      requires batch.sequence == |start.hist| + 1 && table == start.mem
      ensures r == WriteAll(start, batch.ops).mem
    {
      hide Inv, WriteAll, WriteOne;
      r := table;
      ghost var st, ops := start, batch.ops;
      WriteAllPrefix(start, ops, 0);
      for i := 0 to |batch.ops|
        invariant st == WriteAllOf(start, ops, i)
        invariant Inv(st) && |st.hist| == |start.hist| + i && r == st.mem
      {
        WriteAllPrefix(start, ops, i);
        WriteAllPrefix(start, ops, i + 1);
        OneMoreWrite(st, ops[i], batch.sequence + i);
        r := InsertEntry(r, Entry(InternalKey(batch.ops[i].key, batch.sequence + i), batch.ops[i].value));
        st := WriteAllOf(start, ops, i + 1);
      }
      assert ops[..|ops|] == ops;
    }

    /** Write, for the batch the leader of the queue has put together: first the log, then
        the memtable, then the new last sequence number. */
    method Write(ops: seq<Op>)
      requires Valid() && |hist| + |ops| < kMaxSequenceNumber
      modifies this, versions`lastSequence
      ensures Valid() && hist == old(hist) + ops
      ensures Abs() == old(Abs()).(st := WriteAll(old(AbsState()), ops), disk := Abs().disk)
      ensures logFileNumber in old(logs)
      ensures versions.manifest == old(versions.manifest) && tables == old(tables)
      ensures logs == old(logs)[logFileNumber := old(logs)[logFileNumber] + [Batch(|old(hist)| + 1, ops)]]
    {
      hide DbInv, WriteAll;
      ghost var db := Abs();
      OpenFacts(db);
      LogStepInv(db, ops);
      ghost var logged := AfterLog(db, ops);
      ApplyStepInv(logged);
      WriteAllInv(db.st, ops);
      var lastSequence := versions.lastSequence;
      logs := logs[logFileNumber := logs[logFileNumber] + [Batch(lastSequence + 1, ops)]];
      mem := InsertInto(mem, Batch(lastSequence + 1, ops), AbsState());
      versions.lastSequence := lastSequence + |ops|;
      hist := hist + ops;
    }

    /** The branch of MakeRoomForWrite that starts a new log and a new memtable. */
    method SwitchMemTable()
      requires Valid() && imm == None
      modifies this, versions`nextFileNumber
      ensures Valid() && Abs() == AfterRotate(old(Abs()))
    {
      hide DbInv;
      ghost var db := Abs();
      RotateStepInv(db);
      var newLogNumber := versions.NewFileNumber();
      logs := logs[newLogNumber := []];
      logFileNumber := newLogNumber;
      imm := Some(mem);
      mem := [];
      rotated := |hist|;
    }

    // -------------------------------------------------------------- flush

    /** Version::PickLevelForMemTableOutput. */
    method PickLevelForMemTableOutput(f: FileMetaData, maxGrandParentOverlapBytes: nat) returns (level: nat)
      requires WellFormed(versions.current)
      ensures CanPlace(versions.current, f, level)
      ensures StopsAt(versions.current, f, maxGrandParentOverlapBytes, level)
    {
      hide WellFormed, Overlaps;
      var levels := versions.current;
      var lo, hi := Some(f.smallest.user), Some(f.largest.user);
      level := 0;
      LevelFacts(levels, 0);
      var overlap := SomeFileOverlapsRange(false, levels[0], lo, hi);
      if !overlap {
        while level < kMaxMemCompactLevel
          invariant level <= kMaxMemCompactLevel
          invariant forall l, g :: 0 <= l <= level && g in levels[l] ==> !Overlaps(lo, hi, g)
          invariant forall l :: 2 <= l < level + 2 ==> SharedBytes(levels[l], f) <= maxGrandParentOverlapBytes
        {
          LevelFacts(levels, level + 1);
          overlap := SomeFileOverlapsRange(true, levels[level + 1], lo, hi);
          if overlap {
            break;
          }
          if level + 2 < kNumLevels {
            var overlaps := GetOverlappingInputs(level + 2, levels[level + 2], lo, hi);
            if TotalFileSize(overlaps) > maxGrandParentOverlapBytes {
              break;
            }
          }
          level := level + 1;
        }
      }
    }

    /** WriteLevel0Table: the contents of a memtable become a table; nothing is written for
        an empty one. */
    method WriteLevel0Table(es: seq<Entry>, fileSize: nat, base: Option<nat>)
      returns (edit: VersionEdit, ghost p: nat, ghost f: FileMetaData)
      requires WellFormed(versions.current)
      modifies this`tables, this`pendingOutputs, versions`nextFileNumber
      ensures versions.nextFileNumber == old(versions.nextFileNumber) + 1
      ensures pendingOutputs == old(pendingOutputs) - {old(versions.nextFileNumber)}
      ensures p <= kMaxMemCompactLevel
      ensures es == [] ==> edit == VersionEdit({}, []) && tables == old(tables)
      ensures es != [] ==>
                && edit == VersionEdit({}, [(p, f)]) && tables == old(tables)[f.number := f]
                && f.entries == es && f.number == old(versions.nextFileNumber)
                && f.smallest == es[0].key && f.largest == es[|es| - 1].key
                && CanPlace(versions.current, f, p) && (base.None? ==> p == 0)
                && (base.Some? ==> StopsAt(versions.current, f, base.value, p))
    {
      hide WellFormed;
      var number := versions.NewFileNumber();
      pendingOutputs := pendingOutputs + {number};
      edit := VersionEdit({}, []);
      p, f := 0, FileMetaData(number, 0, InternalKey(0.0, 0), InternalKey(0.0, 0), []);
      if es != [] {
        var meta := FileMetaData(number, fileSize, es[0].key, es[|es| - 1].key, es);
        tables := tables[number := meta];
        var level := 0;
        if base.Some? {
          level := PickLevelForMemTableOutput(meta, base.value);
        }
        edit := VersionEdit({}, [(level, meta)]);
        p, f := level, meta;
      }
      pendingOutputs := pendingOutputs - {number};
    }

    /** CompactMemTable: write the table, log the edit, drop the immutable memtable. */
    method CompactMemTable(fileSize: nat, maxGrandParentOverlapBytes: nat)
      requires Valid() && imm.Some?
      modifies this, versions
      ensures Valid() && |old(versions.current)| == kNumLevels
      ensures old(imm.value) == [] ==> exists r :: FlushNothingStep(old(Abs()), r, Abs())
      ensures old(imm.value) != [] ==>
                exists f, p: nat, r ::
                  FlushStep(old(Abs()), f, p, r, Abs()) && StopsAt(old(versions.current), f, maxGrandParentOverlapBytes, p)
      ensures hist == old(hist) && imm == None && mem == old(mem)
      ensures flushed == old(rotated) && rotated == old(rotated)
      ensures versions.logNumber == logFileNumber == old(logFileNumber)
      ensures snapshots == old(snapshots) && logs == old(logs)
    {
      hide DbInv, Inv, WellFormed, NumbersInv, ManifestInv, SortedFiles, CanPlace, Admissible, Edited, StopsAt;
      ghost var db := Abs();
      OpenFacts(db);
      var edit;
      ghost var p, f;
      edit, p, f := WriteLevel0Table(imm.value, fileSize, Some(maxGrandParentOverlapBytes));
      ghost var next := db.st.nextFile;
      FlushAdmissible(edit, versions.current, next, p, f);
      versions.LogAndApply(edit, Some(logFileNumber), next);
      imm := None;
      flushed := rotated;
      ghost var r := Record(edit, Some(logFileNumber), Some(versions.nextFileNumber), Some(versions.lastSequence));
      if db.st.imm.value != [] {
        TableStep(db, f, p, r, Abs());
      } else {
        NoTableStep(db, r, Abs());
      }
    }

    // -------------------------------------------------------------- compaction

    /** The branch of BackgroundCompaction that moves a file down without reading it. */
    method TrivialMove(level: nat, f: FileMetaData)
      requires level + 1 < kNumLevels && |versions.current| == kNumLevels
      requires GoodInputs(versions.current, level, [f], [])
      requires Valid()
      modifies versions
      ensures Valid() && exists r :: MoveStep(old(Abs()), level, f, r, Abs())
    {
      hide DbInv, Inv, WellFormed, NumbersInv, ManifestInv, SortedFiles, Edited, GoodInputs;
      ghost var db := Abs();
      OpenFacts(db);
      InLevel(versions.current, level, f);
      var edit := VersionEdit({(level, f.number)}, [(level + 1, f)]);
      versions.LogAndApply(edit, None, db.st.nextFile);
      ghost var r := Record(edit, Some(versions.logNumber), Some(versions.nextFileNumber), Some(versions.lastSequence));
      MovedStep(db, level, f, r, Abs());
    }

    /** DoCompactionWork and InstallCompactionResults, on inputs that one of the selection
        methods has returned; `input` is what the merging iterator over them yields. */
    method DoCompaction(level: nat, inputs0: Level, inputs1: Level, input: seq<Entry>)
      requires level + 1 < kNumLevels && |versions.current| == kNumLevels
      requires GoodInputs(versions.current, level, inputs0, inputs1)
      requires LowerClosed(versions.current, level, inputs1)
      requires MergedInput(input, inputs0, inputs1)
      requires Valid()
      modifies this, versions
      ensures Valid() && hist == old(hist) && mem == old(mem) && imm == old(imm) && snapshots == old(snapshots)
      ensures exists outputs, edit, r :: CompactStep(old(Abs()), level, inputs0, inputs1, input, outputs, edit, r, Abs())
    {
      hide DbInv, Inv, WellFormed, NumbersInv, ManifestInv, SortedFiles, Edited, GoodInputs, LowerClosed, Kept, ValidFiles;
      hide Disjoint, Flatten, Admissible, CompactionEdit, AddTables;
      ghost var db := Abs();
      OpenFacts(db);
      CompactionReads(db, level, inputs0, inputs1, input);
      var smallestSnapshot := if snapshots == [] then versions.lastSequence else snapshots[0];
      var compact := new CompactionState(level, versions.current, smallestSnapshot, versions.nextFileNumber);
      compact.DoCompactionWork(input);
      versions.nextFileNumber := compact.nextFileNumber;
      var outputs := compact.outputs;
      var edit := InstallCompactionResults(level, inputs0, inputs1, outputs);
      OutputsAdmissible(edit, level, inputs0, inputs1, outputs, versions.current, db.st.nextFile);
      versions.LogAndApply(edit, None, db.st.nextFile);
      ghost var r := Record(edit, Some(versions.logNumber), Some(versions.nextFileNumber), Some(versions.lastSequence));
      CompactedStep(db, level, inputs0, inputs1, input, outputs, edit, r, Abs());
    }

    /** The outputs are on disk; the edit deletes the inputs and adds the outputs. */
    method InstallCompactionResults(level: nat, inputs0: Level, inputs1: Level, outputs: Level) returns (edit: VersionEdit)
      modifies this`tables
      ensures CompactionEdit(edit, level, inputs0, inputs1, outputs)
      ensures tables == AddTables(old(tables), outputs)
    {
      var deleted := {};
      for i := 0 to |inputs0|
        invariant deleted == set f | f in inputs0[..i] :: (level, f.number)
      {
        deleted := deleted + {(level, inputs0[i].number)};
      }
      ghost var upper := deleted;
      assert inputs0[..|inputs0|] == inputs0;
      for i := 0 to |inputs1|
        invariant deleted == upper + set f | f in inputs1[..i] :: (level + 1, f.number)
      {
        deleted := deleted + {(level + 1, inputs1[i].number)};
      }
      assert inputs1[..|inputs1|] == inputs1;
      var added := [];
      assert outputs[..0] == [];
      for i := 0 to |outputs|
        invariant added == seq(i, j requires 0 <= j < i <= |outputs| => (level + 1, outputs[j]))
        invariant tables == AddTables(old(tables), outputs[..i])
      {
        assert outputs[..i + 1][..i] == outputs[..i];
        tables := tables[outputs[i].number := outputs[i]];
        added := added + [(level + 1, outputs[i])];
      }
      assert outputs[..|outputs|] == outputs;
      edit := VersionEdit(deleted, added);
    }

    // -------------------------------------------------------------- garbage collection

    /** VersionSet::AddLiveFiles: the tables of every version some reader still holds. */
    method AddLiveFiles(pending: set<nat>) returns (live: set<nat>)
      requires pending == pendingOutputs
      ensures forall n :: n in live <==> LiveTable(Abs(), n)
    {
      hide LiveTable;
      live := pending;
      for i := 0 to |olderVersions|
        invariant forall n :: n in live <==> n in pending || InFirst(olderVersions, i, n)
      {
        var more := FileNumbers(olderVersions[i]);
        OneMoreVersion(olderVersions, i);
        live := live + more;
      }
      var more := FileNumbers(versions.current);
      live := live + more;
      forall n: nat
        ensures n in live <==> LiveTable(Abs(), n)
      {
        LiveIs(Abs(), n);
      }
    }

    method FileNumbers(levels: seq<Level>) returns (r: set<nat>)
      ensures forall n :: n in r <==> InVersion(levels, n)
    {
      r := {};
      for l := 0 to |levels|
        invariant forall n :: n in r <==> InLevels(levels, l, n)
      {
        ghost var before := r;
        for i := 0 to |levels[l]|
          invariant forall n :: n in r <==> n in before || exists f :: f in levels[l][..i] && f.number == n
        {
          r := r + {levels[l][i].number};
        }
        assert levels[l][..|levels[l]|] == levels[l];
        forall n: nat
          ensures n in r <==> InLevels(levels, l + 1, n)
        {
          OneMoreLevel(levels, l, n);
        }
      }
    }

    /** DeleteObsoleteFiles. */
    method DeleteObsoleteFiles()
      requires Valid()
      modifies this`logs, this`tables
      ensures Valid() && CollectStep(old(Abs()), Abs())
    {
      hide DbInv, LiveTable;
      ghost var db := Abs();
      var live := AddLiveFiles(pendingOutputs);
      var names := logs.Keys;
      while names != {}
        invariant tables == db.disk.tables && names <= logs.Keys <= db.disk.logs.Keys
        invariant forall n :: n in logs ==> logs[n] == db.disk.logs[n] && (n in names || n >= versions.logNumber)
        invariant forall n :: n in db.disk.logs && n >= versions.logNumber ==> n in logs
        decreases names
      {
        var n :| n in names;
        if !(n >= versions.logNumber) {
          logs := logs - {n};
        }
        names := names - {n};
      }
      ghost var kept := logs;
      names := tables.Keys;
      while names != {}
        invariant logs == kept
        invariant names <= tables.Keys <= db.disk.tables.Keys
        invariant forall n :: n in tables ==> tables[n] == db.disk.tables[n] && (n in names || n in live)
        invariant forall n :: n in db.disk.tables && n in live ==> n in tables
        decreases names
      {
        var n :| n in names;
        if n !in live {
          tables := tables - {n};
        }
        names := names - {n};
      }
      CollectStepInv(db, Abs());
    }

    // -------------------------------------------------------------- opening

    /** What the ghost recovery and the object agree on while logs are replayed. */
    ghost predicate Tracks(rec: Rec, edit: VersionEdit)
      reads this, versions
    {
      && RecInv(rec) && edit == VersionEdit({}, rec.added)
      && rec.disk == Disk(versions.manifest, logs, tables)
      && rec.st.nextFile == versions.nextFileNumber
      && rec.base == versions.current
      && rec.flushed <= |rec.st.hist|
    }

    /** RecoverLogFile: every record goes to a fresh memtable, which is written out when it
        grows large and at the end of the log. */
    method RecoverLogFile(batches: seq<Batch>, edit0: VersionEdit, max0: nat, ghost rec0: Rec, ghost rest: seq<Batch>)
      returns (edit: VersionEdit, maxSequence: nat, ghost rec: Rec)
      requires Tracks(rec0, edit0) && rec0.todo == batches + rest && rec0.st.mem == []
      requires max0 <= |rec0.st.hist| && (|rec0.st.hist| > rec0.flushed ==> max0 == |rec0.st.hist|)
      modifies this`tables, this`pendingOutputs, versions`nextFileNumber
      ensures Tracks(rec, edit) && rec.todo == rest && rec.st.mem == []
      ensures maxSequence <= |rec.st.hist| && (|rec.st.hist| > rec.flushed ==> maxSequence == |rec.st.hist|)
      ensures rec.hist == rec0.hist && rec.flushed == rec0.flushed && rec.logNumber == rec0.logNumber && rec.hi == rec0.hi
      ensures old(versions.nextFileNumber) <= versions.nextFileNumber
      ensures pendingOutputs <= old(pendingOutputs)
    {
      hide RecInv, Inv;
      edit, maxSequence, rec := edit0, max0, rec0;
      var table: Option<seq<Entry>> := None;
      for i := 0 to |batches|
        invariant Tracks(rec, edit) && rec.todo == batches[i..] + rest
        invariant rec.st.mem == (if table.Some? then table.value else [])
        invariant maxSequence <= |rec.st.hist| && (|rec.st.hist| > rec.flushed ==> maxSequence == |rec.st.hist|)
        invariant rec.hist == rec0.hist && rec.flushed == rec0.flushed && rec.logNumber == rec0.logNumber && rec.hi == rec0.hi
        invariant old(versions.nextFileNumber) <= versions.nextFileNumber && pendingOutputs <= old(pendingOutputs)
      {
        var batch := batches[i];
        assert rec.todo[0] == batch && rec.todo[1..] == batches[i + 1..] + rest;
        if table.None? {
          table := Some([]);
        }
        ghost var before := rec;
        rec := ReplayedOne(rec);
        var filled := InsertInto(table.value, batch, before.st);
        table := Some(filled);
        var lastSeq := batch.sequence + |batch.ops| - 1;
        if lastSeq > maxSequence {
          maxSequence := lastSeq;
        }
        var large: bool := *;
        if large {
          edit, rec := FlushRecovered(table.value, edit, rec);
          table := None;
        }
      }
      if table.Some? {
        edit, rec := FlushRecovered(table.value, edit, rec);
      }
    }

    /** WriteLevel0Table as recovery calls it: without a base version, so at level 0. */
    method FlushRecovered(es: seq<Entry>, edit0: VersionEdit, ghost rec0: Rec)
      returns (edit: VersionEdit, ghost rec: Rec)
      requires Tracks(rec0, edit0) && rec0.st.mem == es
      modifies this`tables, this`pendingOutputs, versions`nextFileNumber
      ensures Tracks(rec, edit) && rec.st.mem == [] && rec.st.hist == rec0.st.hist
      ensures rec.todo == rec0.todo && rec.hist == rec0.hist && rec.flushed == rec0.flushed
      ensures rec.logNumber == rec0.logNumber && rec.hi == rec0.hi
      ensures old(versions.nextFileNumber) <= versions.nextFileNumber && pendingOutputs <= old(pendingOutputs)
    {
      hide RecInv, Inv, WellFormed;
      BaseWellFormed(rec0);
      var more;
      ghost var p, f;
      more, p, f := WriteLevel0Table(es, 0, None);
      edit := VersionEdit({}, edit0.newFiles + more.newFiles);
      rec := FlushedOne(rec0, f, es);
    }

    /** The logs numbered from `min` on, in the order in which they were generated. */
    method LogsFrom(min: nat) returns (r: seq<nat>)
      ensures SortedNumbers(r)
      ensures forall n :: n in r <==> n in logs && n >= min
    {
      r := [];
      var names := logs.Keys;
      while names != {}
        invariant names <= logs.Keys && SortedNumbers(r)
        invariant forall n :: n in r <==> n in logs && n >= min && n !in names
        decreases names
      {
        var n :| n in names;
        if n >= min {
          r := InsertNumber(r, n);
        }
        names := names - {n};
      }
    }

    /** The fields a database has before it is opened. */
    ghost predicate Unopened()
      reads this, versions
    {
      !versions.descriptorOpen && snapshots == [] && pendingOutputs == {} && olderVersions == []
    }

    /** Replay every needed log in the order of the numbers. */
    method ReplayLogs(ghost rec0: Rec) returns (edit: VersionEdit, maxSequence: nat, ghost rec: Rec)
      requires Tracks(rec0, VersionEdit({}, [])) && rec0.st.mem == [] && rec0.flushed == |rec0.st.hist|
      requires rec0.todo == LogBatches(logs, versions.logNumber, rec0.hi) && AllBelow(logs, rec0.hi)
      modifies this`tables, this`pendingOutputs, versions`nextFileNumber
      ensures Tracks(rec, edit) && rec.todo == [] && rec.st.mem == []
      ensures maxSequence <= |rec.st.hist| && (|rec.st.hist| > rec.flushed ==> maxSequence == |rec.st.hist|)
      ensures rec.hist == rec0.hist && rec.flushed == rec0.flushed && rec.logNumber == rec0.logNumber && rec.hi == rec0.hi
      ensures old(versions.nextFileNumber) <= versions.nextFileNumber && pendingOutputs <= old(pendingOutputs)
      ensures forall n :: n in logs && n >= versions.logNumber ==> n < versions.nextFileNumber
    {
      hide RecInv, Inv, AllBelow, LogBatches;
      var numbers := LogsFrom(versions.logNumber);
      SortedBatches(logs, numbers, versions.logNumber, rec0.hi);
      edit, maxSequence, rec := VersionEdit({}, []), 0, rec0;
      assert numbers[0..] == numbers;
      for i := 0 to |numbers|
        invariant Tracks(rec, edit) && rec.todo == BatchesOf(logs, numbers[i..]) && rec.st.mem == []
        invariant maxSequence <= |rec.st.hist| && (|rec.st.hist| > rec.flushed ==> maxSequence == |rec.st.hist|)
        invariant rec.hist == rec0.hist && rec.flushed == rec0.flushed && rec.logNumber == rec0.logNumber && rec.hi == rec0.hi
        invariant old(versions.nextFileNumber) <= versions.nextFileNumber && pendingOutputs <= old(pendingOutputs)
        invariant forall j :: 0 <= j < i ==> numbers[j] < versions.nextFileNumber
      {
        var number := numbers[i];
        assert numbers[i..][0] == number && numbers[i..][1..] == numbers[i + 1..];
        edit, maxSequence, rec := RecoverLogFile(logs[number], edit, maxSequence, rec, BatchesOf(logs, numbers[i + 1..]));
        versions.MarkFileNumberUsed(number);
        RecNextFile(rec, versions.nextFileNumber);
        rec := rec.(st := rec.st.(nextFile := versions.nextFileNumber));
      }
      assert numbers[|numbers|..] == [];
      assert forall n :: n in numbers ==> n < versions.nextFileNumber;
    }

    /** The end of Open: a new log and a new MANIFEST. */
    method FinishOpen(edit: VersionEdit, maxSequence: nat, ghost rec: Rec)
      requires Unopened() && Tracks(rec, edit) && rec.todo == [] && rec.st.mem == []
      requires maxSequence <= |rec.st.hist| && (|rec.st.hist| > rec.flushed ==> maxSequence == |rec.st.hist|)
      requires LastLastSequence(versions.manifest) == Some(versions.lastSequence)
      requires rec.flushed <= versions.lastSequence <= |rec.hist| < kMaxSequenceNumber
      requires AllBelow(logs, versions.nextFileNumber)
      modifies this, versions
      ensures Valid() && hist == rec.hist && mem == [] && imm == None
    {
      hide RecInv, Inv, DbInv, Admissible, Edited, NumbersInv, SortedFiles, ManifestInv, SnapshotRecord, MaxSequence;
      Finished(rec);
      if versions.lastSequence < maxSequence {
        versions.lastSequence := maxSequence;
      }
      var newLogNumber := versions.NewFileNumber();
      logs := logs[newLogNumber := []];
      logFileNumber := newLogNumber;
      mem, imm := [], None;
      RecoveredEdit(rec, edit);
      versions.LogAndApply(edit, Some(newLogNumber), LastNextFileOr0(rec.disk) + 1);
      hist, flushed, rotated := rec.hist, |rec.hist|, |rec.hist|;
      SameEdited(rec.base, edit, rec.st.levels, versions.current);
      RecoveredLast(rec);
      CommitStepInv(rec, newLogNumber, Abs());
    }

    /** DB::Open on a directory from which `h` can be recovered: the database it opens has
        exactly the writes `h`, whatever the crash that left the directory. */
    method Open(ghost h: seq<Op>, ghost flushed0: nat, ghost levels: seq<Level>, ghost hi: nat) returns (ok: bool)
      requires Unopened() && LastLogNumber(versions.manifest).Some?
      requires DiskInv(Disk(versions.manifest, logs, tables), h, flushed0, levels, LastLogNumber(versions.manifest).value, hi)
      modifies this, versions
      ensures ok && Valid() && hist == h && versions.lastSequence == |h|
      ensures mem == [] && imm == None
    {
      hide Inv, DiskInv, RecInv, DbInv;
      ghost var disk, minLog := Disk(versions.manifest, logs, tables), LastLogNumber(versions.manifest).value;
      ReadableDisk(disk, h, flushed0, levels, minLog, hi);
      ok := versions.Recover();
      if !ok {
        assert false;
      }
      SameLevels(versions.manifest, versions.current, levels);
      var expected := FileNumbers(versions.current);
      AllTables(levels, tables, expected);
      if !(expected <= tables.Keys) {
        assert false;
      }
      ghost var rec := Begun(disk, h, flushed0, levels, minLog, hi);
      var edit, maxSequence;
      edit, maxSequence, rec := ReplayLogs(rec);
      FinishOpen(edit, maxSequence, rec);
      DeleteObsoleteFiles();
    }
  }

  // ---------------------------------------------------------------- facts about opening

  ghost predicate SortedNumbers(r: seq<nat>) {
    forall i, j :: 0 <= i < j < |r| ==> r[i] < r[j]
  }

  lemma NumbersCons(n: nat, rest: seq<nat>)
    requires SortedNumbers(rest) && forall m :: m in rest ==> n < m
    ensures SortedNumbers([n] + rest)
  {
    assert forall j :: 0 <= j < |rest| ==> rest[j] in rest;
  }

  lemma HeadIsMember(numbers: seq<nat>)
    ensures numbers == [] || numbers[0] in numbers
  {
  }

  function InsertNumber(r: seq<nat>, n: nat): (s: seq<nat>)
    requires SortedNumbers(r) && n !in r
    ensures SortedNumbers(s) && forall m :: m in s <==> m in r || m == n
  {
    if r == [] then [n]
    else if n < r[0] then
      assert [n] + r == [n, r[0]] + r[1..];
      [n] + r
    else
      assert r == [r[0]] + r[1..];
      var rest := InsertNumber(r[1..], n);
      NumbersCons(r[0], rest);
      [r[0]] + rest
  }

  /** The batches of the listed logs, in the order of the list. */
  ghost function BatchesOf(logs: map<nat, seq<Batch>>, numbers: seq<nat>): seq<Batch>
    requires forall n :: n in numbers ==> n in logs
  {
    if numbers == [] then [] else logs[numbers[0]] + BatchesOf(logs, numbers[1..])
  }

  lemma TailNumbers(numbers: seq<nat>, lo: nat)
    requires SortedNumbers(numbers) && lo in numbers && forall n :: n in numbers ==> n >= lo
    ensures numbers[0] == lo && SortedNumbers(numbers[1..])
    ensures forall n :: n in numbers[1..] <==> n in numbers && n >= lo + 1
  {
    var i: nat :| i < |numbers| && numbers[i] == lo;
    assert numbers[0] in numbers;
    assert numbers == [numbers[0]] + numbers[1..];
    forall n | n in numbers[1..]
      ensures n >= lo + 1
    {
      var j: nat :| j < |numbers[1..]| && numbers[1..][j] == n;
      assert numbers[j + 1] == n;
    }
  }

  /** Reading the listed logs in order is reading the needed part of the directory. */
  lemma {:induction false} SortedBatches(logs: map<nat, seq<Batch>>, numbers: seq<nat>, lo: nat, hi: nat)
    requires SortedNumbers(numbers) && AllBelow(logs, hi)
    requires forall n :: n in numbers <==> n in logs && n >= lo
    ensures BatchesOf(logs, numbers) == LogBatches(logs, lo, hi)
    decreases hi - lo
  {
    HeadIsMember(numbers);
    if lo < hi {
      if lo in logs {
        TailNumbers(numbers, lo);
        SortedBatches(logs, numbers[1..], lo + 1, hi);
      } else {
        SortedBatches(logs, numbers, lo + 1, hi);
      }
    }
  }

  /** The state after the first `i` operations. */
  ghost function WriteAllOf(st: State, ops: seq<Op>, i: nat): State
    requires Inv(st) && i <= |ops| && |st.hist| + |ops| < kMaxSequenceNumber
  {
    WriteAll(st, ops[..i])
  }

  lemma {:induction false} WriteAllPrefix(st: State, ops: seq<Op>, i: nat)
    requires Inv(st) && i <= |ops| && |st.hist| + |ops| < kMaxSequenceNumber
    ensures Inv(WriteAllOf(st, ops, i)) && |WriteAllOf(st, ops, i).hist| == |st.hist| + i
    ensures i == 0 ==> WriteAllOf(st, ops, i) == st
    ensures i < |ops| ==> WriteAllOf(st, ops, i + 1) == WriteOne(WriteAllOf(st, ops, i), ops[i])
  {
    hide Inv, WriteOne;
    WriteAllInv(st, ops[..i]);
    if i < |ops| {
      assert ops[..i + 1] == ops[..i] + [ops[i]];
      WriteAllSnoc(st, ops[..i], ops[i]);
    }
  }

  lemma {:induction false} WriteAllSnoc(st: State, ops: seq<Op>, op: Op)
    requires Inv(st) && |st.hist| + |ops| + 1 < kMaxSequenceNumber
    ensures Inv(WriteAll(st, ops)) && |WriteAll(st, ops).hist| == |st.hist| + |ops|
    ensures WriteAll(st, ops + [op]) == WriteOne(WriteAll(st, ops), op)
    decreases |ops|
  {
    hide Inv, WriteOne;
    WriteAllInv(st, ops);
    if ops == [] {
      WriteOneInv(st, op);
      assert ([] + [op])[1..] == [];
    } else {
      WriteOneInv(st, ops[0]);
      WriteOneHist(st, ops[0]);
      WriteAllSnoc(WriteOne(st, ops[0]), ops[1..], op);
      assert (ops + [op])[1..] == ops[1..] + [op];
    }
  }

  lemma OneMoreWrite(st: State, op: Op, n: nat)
    requires Inv(st) && |st.hist| + 1 < kMaxSequenceNumber && n == |st.hist| + 1
    ensures Sorted(st.mem) && forall e :: e in st.mem ==> e.key.sequence < n
    ensures WriteOne(st, op).mem == InsertEntry(st.mem, Entry(InternalKey(op.key, n), op.value))
  {
    NewKey(st);
    MemSorted(st);
  }

  lemma BaseWellFormed(rec: Rec)
    requires RecInv(rec)
    ensures WellFormed(rec.base)
  {
    hide ManifestOk, HasTables, LogBatches, Chain, Edited, AllNew;
  }

  /** The next batch of the log, replayed. */
  lemma ReplayedOne(rec: Rec) returns (rec': Rec)
    requires RecInv(rec) && rec.todo != []
    ensures RecInv(rec') && rec.todo[0].sequence == |rec.st.hist| + 1
    ensures Inv(rec.st) && |rec.st.hist| + |rec.todo[0].ops| < kMaxSequenceNumber
    ensures rec' == rec.(st := WriteAll(rec.st, rec.todo[0].ops), todo := rec.todo[1..])
    ensures rec'.st == rec.st.(hist := rec.st.hist + rec.todo[0].ops, mem := rec'.st.mem)
  {
    hide Inv, HasTables, Edited, AllNew, ManifestOk;
    WriteAllInv(rec.st, rec.todo[0].ops);
    rec' := rec.(st := WriteAll(rec.st, rec.todo[0].ops), todo := rec.todo[1..]);
    ReplayStepInv(rec, rec');
  }

  /** The recovery memtable, written out; an empty one only uses up a number. */
  lemma FlushedOne(rec: Rec, f: FileMetaData, es: seq<Entry>) returns (rec': Rec)
    requires RecInv(rec) && rec.st.mem == es
    requires es != [] ==> && f.entries == es && f.number == rec.st.nextFile
                          && f.smallest == es[0].key && f.largest == es[|es| - 1].key
    ensures RecInv(rec')
    ensures rec' == rec.(st := rec.st.(mem := [], levels := rec'.st.levels, nextFile := rec.st.nextFile + 1),
                         added := rec.added + (if es == [] then [] else [(0, f)]),
                         disk := rec.disk.(tables := if es == [] then rec.disk.tables else rec.disk.tables[f.number := f]))
  {
    hide Inv, RecInv, Edited, FileMetaData.Valid, NumbersInv, SortedFiles;
    RecoveredParts(rec);
    if es == [] {
      rec' := rec.(st := rec.st.(nextFile := rec.st.nextFile + 1));
      RecNextFile(rec, rec.st.nextFile + 1);
    } else {
      MemIsTable(rec.st, f);
      var levels' := WithFile(rec.st.levels, rec.st.nextFile, f);
      rec' := rec.(st := rec.st.(mem := [], levels := levels', nextFile := rec.st.nextFile + 1),
                   added := rec.added + [(0, f)], disk := rec.disk.(tables := rec.disk.tables[f.number := f]));
      RecoverFlushStepInv(rec, f, rec');
    }
  }

  lemma RecoveredParts(rec: Rec)
    requires RecInv(rec)
    ensures Inv(rec.st) && rec.st.imm == None
  {
  }

  lemma RecNextFile(rec: Rec, n: nat)
    requires RecInv(rec) && rec.st.nextFile <= n
    ensures RecInv(rec.(st := rec.st.(nextFile := n)))
  {
    hide Inv, HasTables, ManifestOk, LogBatches, Chain, Edited;
    NextFileLater(rec.st, n);
  }

  lemma MemIsTable(st: State, f: FileMetaData)
    requires Inv(st) && st.mem != [] && st.imm == None
    requires f.entries == st.mem && f.number == st.nextFile
    requires f.smallest == f.entries[0].key && f.largest == f.entries[|f.entries| - 1].key
    ensures f.Valid() && |st.levels| == kNumLevels && NumbersInv(st.levels, st.nextFile)
    ensures forall l :: 0 <= l < kNumLevels ==> SortedFiles(st.levels[l])
  {
    hide WellFormed, ReadsInv, NumbersInv;
    FilesFacts(st);
    forall i | 0 <= i < |f.entries|
      ensures f.entries[i].key.sequence <= kMaxSequenceNumber
    {
      assert f.entries[i] in Elements(st.mem);
      assert f.entries[i] in Store(st);
    }
  }

  lemma WithFile(levels: seq<Level>, next: nat, f: FileMetaData) returns (levels': seq<Level>)
    requires |levels| == kNumLevels && NumbersInv(levels, next) && f.number == next
    requires forall l :: 0 <= l < kNumLevels ==> SortedFiles(levels[l])
    ensures Edited(levels, VersionEdit({}, [(0, f)]), levels')
  {
    hide SortedFiles;
    assert forall g :: g in levels[0] ==> g.number < f.number;
    levels' := levels[0 := InsertFile(levels[0], f)];
    forall l: nat | l < kNumLevels
      ensures Elements(levels'[l]) == NextFiles(Elements(levels[l]), VersionEdit({}, [(0, f)]), l)
    {
      AddedOne([], f, l);
      assert [] + [(0, f)] == [(0, f)];
    }
  }

  ghost predicate InFirst(versions: seq<seq<Level>>, i: nat, n: nat)
    requires i <= |versions|
  {
    exists j :: 0 <= j < i && InVersion(versions[j], n)
  }

  lemma OneMoreVersion(versions: seq<seq<Level>>, i: nat)
    requires i < |versions|
    ensures forall n :: InFirst(versions, i + 1, n) <==> InFirst(versions, i, n) || InVersion(versions[i], n)
  {
  }

  lemma LiveIs(db: Db, n: nat)
    ensures LiveTable(db, n) <==> n in db.pending || InVersion(db.st.levels, n) || InFirst(db.versions, |db.versions|, n)
  {
  }

  ghost predicate InLevels(levels: seq<Level>, l: nat, n: nat)
    requires l <= |levels|
  {
    exists k, f :: 0 <= k < l && f in levels[k] && f.number == n
  }

  lemma OneMoreLevel(levels: seq<Level>, l: nat, n: nat)
    requires l < |levels|
    ensures InLevels(levels, l + 1, n) <==> InLevels(levels, l, n) || exists f :: f in levels[l] && f.number == n
  {
    if k, f :| 0 <= k < l + 1 && f in levels[k] && f.number == n {
      assert k < l || f in levels[l];
    }
  }

  lemma MovedStep(db: Db, level: nat, f: FileMetaData, r: Record, db': Db)
    requires |db.st.levels| == kNumLevels && level + 1 < kNumLevels
    requires GoodInputs(db.st.levels, level, [f], []) && Moved(db.st, level, f, db'.st)
    requires r == Record(VersionEdit({(level, f.number)}, [(level + 1, f)]), Some(db.logNumber), Some(db.st.nextFile), Some(|db.st.hist|))
    requires db' == db.(st := db'.st, disk := db.disk.(manifest := db.disk.manifest + [r]))
    requires DbInv(db)
    ensures DbInv(db') && MoveStep(db, level, f, r, db')
  {
    hide DbInv, Inv, NumbersInv, WellFormed, ManifestInv, SortedFiles, Edited, GoodInputs;
    OpenFacts(db);
    MoveInv(db.st, level, f, db'.st);
    NumbersOf(db'.st, db'.st.nextFile);
    MoveStepInv(db, level, f, r, db');
  }

  /** What DoCompactionWork needs to know about the files it reads. */
  lemma CompactionReads(db: Db, level: nat, inputs0: Level, inputs1: Level, input: seq<Entry>)
    requires |db.st.levels| == kNumLevels && level + 1 < kNumLevels
    requires GoodInputs(db.st.levels, level, inputs0, inputs1) && MergedInput(input, inputs0, inputs1)
    requires DbInv(db)
    ensures forall l :: 0 <= l < kNumLevels ==> ValidFiles(db.st.levels[l])
    ensures forall l :: 1 <= l < kNumLevels ==> Disjoint(db.st.levels[l])
    ensures forall i :: 0 <= i < |input| ==> input[i].key.sequence <= kMaxSequenceNumber
    ensures SmallestSnapshot(db.st) < kMaxSequenceNumber
  {
    hide Inv, GoodInputs, MergedInput, ManifestOk, LogsInv, TablesInv;
    OpenFacts(db);
    InputFlushed(db.st, db.flushed, level, inputs0, inputs1, input);
    assert forall i :: 0 <= i < |input| ==> input[i] in input;
    SnapshotsBounded(db.st);
  }

  lemma SnapshotsBounded(st: State)
    requires Inv(st)
    ensures SmallestSnapshot(st) <= |st.hist| < kMaxSequenceNumber
  {
  }

  lemma OutputsAdmissible(edit: VersionEdit, level: nat, inputs0: Level, inputs1: Level, outputs: Level, levels: seq<Level>, next: nat)
    requires |levels| == kNumLevels && level + 1 < kNumLevels
    requires CompactionEdit(edit, level, inputs0, inputs1, outputs) && ConsecutiveFrom(outputs, next)
    ensures Admissible(edit, levels, next, next + |outputs|)
  {
  }

  lemma CompactedStep(db: Db, level: nat, inputs0: Level, inputs1: Level, input: seq<Entry>, outputs: Level,
                      edit: VersionEdit, r: Record, db': Db)
    requires |db.st.levels| == kNumLevels && level + 1 < kNumLevels
    requires GoodInputs(db.st.levels, level, inputs0, inputs1) && LowerClosed(db.st.levels, level, inputs1)
    requires MergedInput(input, inputs0, inputs1) && OutputsOf(db.st, level, input, outputs)
    requires Compacted(db.st, level, inputs0, inputs1, outputs, edit, db'.st)
    requires r == Record(edit, Some(db.logNumber), Some(db'.st.nextFile), Some(|db.st.hist|))
    requires db' == db.(st := db'.st, disk := Disk(db.disk.manifest + [r], db.disk.logs, AddTables(db.disk.tables, outputs)))
    requires DbInv(db)
    ensures DbInv(db') && CompactStep(db, level, inputs0, inputs1, input, outputs, edit, r, db')
  {
    hide DbInv, Inv, NumbersInv, WellFormed, ManifestInv, SortedFiles, Edited, GoodInputs, LowerClosed, MergedInput, OutputsOf;
    hide CompactionEdit, AddTables;
    OpenFacts(db);
    CompactInv(db.st, level, inputs0, inputs1, input, outputs, edit, db'.st);
    NumbersOf(db'.st, db'.st.nextFile);
    CompactStepInv(db, level, inputs0, inputs1, input, outputs, edit, r, db');
  }

  lemma FlushAdmissible(edit: VersionEdit, levels: seq<Level>, next: nat, p: nat, f: FileMetaData)
    requires |levels| == kNumLevels
    requires edit == VersionEdit({}, []) || (edit == VersionEdit({}, [(p, f)]) && f.number == next && CanPlace(levels, f, p))
    ensures Admissible(edit, levels, next, next + 1)
  {
  }

  lemma OpenFacts(db: Db)
    requires DbInv(db)
    ensures Inv(db.st) && WellFormed(db.st.levels) && |db.st.levels| == kNumLevels
    ensures forall l :: 0 <= l < kNumLevels ==> SortedFiles(db.st.levels[l])
    ensures NumbersInv(db.st.levels, db.st.nextFile) && ManifestInv(db.disk.manifest, db.st.levels, db.st.nextFile)
    ensures LastNextFileOr0(db.disk) <= db.st.nextFile
    ensures db.logFile in db.disk.logs && db.logFile < db.st.nextFile && db.logNumber < db.st.nextFile
    ensures db.flushed <= db.rotated <= |db.st.hist| < kMaxSequenceNumber
    ensures forall n :: n in db.pending ==> n < db.st.nextFile
  {
    hide FreshManifest, FilesOf, AddsBelow, OnlyAbove, WellFormed;
    FilesFacts(db.st);
    ManifestLater(db.disk.manifest, db.st.levels, LastNextFile(db.disk.manifest).value, db.st.nextFile);
  }

  /** The immutable memtable makes a valid table. */
  lemma ImmIsTable(st: State, f: FileMetaData)
    requires Inv(st) && st.imm.Some? && st.imm.value != []
    requires f.entries == st.imm.value && f.number == st.nextFile
    requires f.smallest == f.entries[0].key && f.largest == f.entries[|f.entries| - 1].key
    ensures TableOf(st, f)
  {
    hide WellFormed, FilesInv, ReadsInv;
    forall i | 0 <= i < |f.entries|
      ensures f.entries[i].key.sequence <= kMaxSequenceNumber
    {
      assert f.entries[i] in ImmEntries(st);
      assert f.entries[i] in Store(st);
    }
  }

  lemma TableStep(db: Db, f: FileMetaData, p: nat, r: Record, db': Db)
    requires |db.st.levels| == kNumLevels && p < kNumLevels
    requires db.st.imm.Some? && db.st.imm.value != [] && f.entries == db.st.imm.value && f.number == db.st.nextFile
    requires f.smallest == f.entries[0].key && f.largest == f.entries[|f.entries| - 1].key
    requires CanPlace(db.st.levels, f, p) && Flushed(db.st, f, p, db'.st)
    requires r == Record(VersionEdit({}, [(p, f)]), Some(db.logFile), Some(db'.st.nextFile), Some(|db.st.hist|))
    requires db' == db.(st := db'.st, logNumber := db.logFile, flushed := db.rotated,
                        disk := Disk(db.disk.manifest + [r], db.disk.logs, db.disk.tables[f.number := f]))
    requires DbInv(db)
    ensures DbInv(db') && FlushStep(db, f, p, r, db')
  {
    hide DbInv, Inv, CanPlace, Flushed, NumbersInv, WellFormed, ManifestInv, SortedFiles;
    OpenFacts(db);
    ImmIsTable(db.st, f);
    FlushInv(db.st, f, p, db'.st);
    FlushNext(db.st, f, p, db'.st);
    NumbersOf(db'.st, db'.st.nextFile);
    FlushStepInv(db, f, p, r, db');
  }

  lemma FlushNext(st: State, f: FileMetaData, p: nat, st': State)
    requires |st.levels| == kNumLevels && p < kNumLevels && Flushed(st, f, p, st')
    ensures st'.nextFile == st.nextFile + 1
  {
  }

  lemma NoTableStep(db: Db, r: Record, db': Db)
    requires |db.st.levels| == kNumLevels && db.st.imm == Some([])
    requires Edited(db.st.levels, VersionEdit({}, []), db'.st.levels)
    requires db'.st == db.st.(imm := None, levels := db'.st.levels, nextFile := db.st.nextFile + 1)
    requires r == Record(VersionEdit({}, []), Some(db.logFile), Some(db'.st.nextFile), Some(|db.st.hist|))
    requires db' == db.(st := db'.st, logNumber := db.logFile, flushed := db.rotated,
                        disk := db.disk.(manifest := db.disk.manifest + [r]))
    requires DbInv(db)
    ensures DbInv(db') && FlushNothingStep(db, r, db')
  {
    hide DbInv, Inv, NumbersInv, WellFormed, ManifestInv, SortedFiles, Edited;
    OpenFacts(db);
    EmptyEdit(db.st.levels, db'.st.levels);
    NumbersOf(db.st, db'.st.nextFile);
    FlushNothingStepInv(db, r, db');
  }

  lemma EmptyEdit(levels: seq<Level>, levels': seq<Level>)
    requires |levels| == kNumLevels && Edited(levels, VersionEdit({}, []), levels')
    requires forall l :: 0 <= l < kNumLevels ==> SortedFiles(levels[l])
    ensures levels' == levels
  {
    hide SortedFiles;
    forall l: nat | l < kNumLevels
      ensures levels'[l] == levels[l]
    {
      assert Elements(levels'[l]) == NextFiles(Elements(levels[l]), VersionEdit({}, []), l);
      assert Elements(levels'[l]) == Elements(levels[l]);
      assert forall f :: f in levels'[l] <==> f in Elements(levels'[l]);
      assert forall f :: f in levels[l] <==> f in Elements(levels[l]);
      SortedFilesUnique(levels'[l], levels[l]);
    }
  }

  // ---------------------------------------------------------------- more facts about opening

  lemma ReadableDisk(disk: Disk, h: seq<Op>, a: nat, levels: seq<Level>, log: nat, hi: nat)
    requires DiskInv(disk, h, a, levels, log, hi)
    ensures FreshManifest(disk.manifest) && AllBelow(disk.logs, hi)
    ensures LastNextFile(disk.manifest).Some? && LastLastSequence(disk.manifest).Some?
    ensures a <= LastLastSequence(disk.manifest).value <= |h| < kMaxSequenceNumber
    ensures log < LastNextFile(disk.manifest).value
    ensures ManifestInv(disk.manifest, levels, LastNextFile(disk.manifest).value)
    ensures HasTables(disk.tables, levels)
  {
  }

  lemma SameLevels(m: seq<Record>, current: seq<Level>, levels: seq<Level>)
    requires |current| == kNumLevels
    requires forall l :: 0 <= l < kNumLevels ==> SortedFiles(current[l]) && Elements(current[l]) == FilesOf(m, l)
    requires LastNextFile(m).Some? && ManifestInv(m, levels, LastNextFile(m).value)
    ensures current == levels
  {
    hide FilesOf, SortedFiles;
    forall l: nat | l < kNumLevels
      ensures current[l] == levels[l]
    {
      assert forall f :: f in current[l] <==> f in Elements(current[l]);
      assert forall f :: f in levels[l] <==> f in Elements(levels[l]);
      SortedFilesUnique(current[l], levels[l]);
    }
  }

  lemma AllTables(levels: seq<Level>, tables: map<nat, FileMetaData>, expected: set<nat>)
    requires HasTables(tables, levels) && forall n :: n in expected <==> InVersion(levels, n)
    ensures expected <= tables.Keys
  {
  }

  lemma Begun(disk: Disk, h: seq<Op>, a: nat, levels: seq<Level>, log: nat, hi: nat) returns (rec: Rec)
    requires DiskInv(disk, h, a, levels, log, hi)
    ensures RecInv(rec)
    ensures rec == Rec(disk, h, a, levels, log, hi, OnTables(h, a, levels, LastNextFileOr0(disk) + 1), [],
                       LogBatches(disk.logs, log, hi))
  {
    hide DiskInv, RecInv;
    ChainStart(disk, h, a, levels, log, hi);
    rec := Rec(disk, h, a, levels, log, hi, OnTables(h, a, levels, LastNextFileOr0(disk) + 1), [],
               LogBatches(disk.logs, log, hi));
    BeginStepInv(disk, h, rec);
  }

  lemma ChainStart(disk: Disk, h: seq<Op>, a: nat, levels: seq<Level>, log: nat, hi: nat)
    requires DiskInv(disk, h, a, levels, log, hi)
    ensures a <= |h|
  {
  }

  lemma Finished(rec: Rec)
    requires RecInv(rec) && rec.todo == []
    ensures rec.st.hist == rec.hist && |rec.base| == kNumLevels
    ensures rec.st.imm == None && rec.st.snapshots == []
  {
  }

  lemma RecoveredLast(rec: Rec)
    requires RecInv(rec) && LastLastSequence(rec.disk.manifest).Some?
    ensures MaxSequence(LogBatches(rec.disk.logs, rec.logNumber, rec.hi), LastLastSequence(rec.disk.manifest).value) == |rec.hist|
  {
    hide Inv, HasTables, Edited, AllNew, LogBatches, Chain, MaxSequence, ManifestInv, NumbersInv;
    RecoveredSequence(LogBatches(rec.disk.logs, rec.logNumber, rec.hi), rec.hist, rec.flushed,
                      LastLastSequence(rec.disk.manifest).value);
  }

  lemma RecoveredEdit(rec: Rec, edit: VersionEdit)
    requires RecInv(rec) && edit == VersionEdit({}, rec.added)
    ensures |rec.base| == kNumLevels && forall l :: 0 <= l < kNumLevels ==> SortedFiles(rec.base[l])
    ensures NumbersInv(rec.base, LastNextFileOr0(rec.disk) + 1)
    ensures Admissible(edit, rec.base, LastNextFileOr0(rec.disk) + 1, rec.st.nextFile + 1)
    ensures Edited(rec.base, edit, rec.st.levels) && LastNextFileOr0(rec.disk) < rec.st.nextFile
  {
    hide DiskInv, Inv, Chain, HasTables, SortedFiles, Edited;
    BaseSorted(rec);
  }

  lemma SameEdited(base: seq<Level>, edit: VersionEdit, a: seq<Level>, b: seq<Level>)
    requires |base| == kNumLevels && Edited(base, edit, a) && Edited(base, edit, b)
    ensures a == b
  {
    hide SortedFiles, NextFiles;
    forall l: nat | l < kNumLevels
      ensures a[l] == b[l]
    {
      assert forall f :: f in a[l] <==> f in Elements(a[l]);
      assert forall f :: f in b[l] <==> f in Elements(b[l]);
      SortedFilesUnique(a[l], b[l]);
    }
  }
}
