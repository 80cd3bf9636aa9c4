/** Every run of the durable database, with crashes at any point and recoveries that
    may themselves be cut short: what recovery finds is exactly what was written. */
module Recovery {
  import opened DbFormat
  import opened Version
  import opened Compaction
  import opened InputSelection
  import opened VersionBuilder
  import opened DbState
  import opened DbSteps
  import opened Manifest
  import opened Durable

  // ---------------------------------------------------------------- what is on disk

  /** The MANIFEST describes `levels`, its numbers are in order, and its last sequence
      number is not below the `flushed` writes it has tables for. */
  ghost predicate ManifestOk(m: seq<Record>, levels: seq<Level>, nextFile: nat, logNumber: nat, flushed: nat, last: nat) {
    && LastNextFile(m).Some? && LastLogNumber(m) == Some(logNumber) && LastLastSequence(m).Some?
    && logNumber < LastNextFile(m).value <= nextFile
    && flushed <= LastLastSequence(m).value <= last
    && ManifestInv(m, levels, LastNextFile(m).value)
    && NumbersInv(levels, LastNextFile(m).value)
  }

  /** A directory from which `hist` can be recovered: its tables hold the first `flushed`
      writes and its logs from `logNumber` on, all numbered below `hi`, the others. */
  ghost predicate DiskInv(disk: Disk, hist: seq<Op>, flushed: nat, levels: seq<Level>, logNumber: nat, hi: nat) {
    && flushed <= |hist| < kMaxSequenceNumber
    && ManifestOk(disk.manifest, levels, LastNextFileOr0(disk), logNumber, flushed, |hist|)
    && Inv(OnTables(hist, flushed, levels, LastNextFileOr0(disk)))
    && AllBelow(disk.logs, hi)
    && Chain(LogBatches(disk.logs, logNumber, hi), hist, flushed)
    && HasTables(disk.tables, levels)
  }

  ghost function LastNextFileOr0(disk: Disk): nat {
    match LastNextFile(disk.manifest)
    case None => 0
    case Some(n) => n
  }

  /** The database that consists of the tables alone. */
  ghost function OnTables(hist: seq<Op>, flushed: nat, levels: seq<Level>, nextFile: nat): State
    requires flushed <= |hist|
  {
    State(hist[..flushed], [], None, levels, [], nextFile)
  }

  // ---------------------------------------------------------------- the open database

  /** `flushed` and `rotated` count the writes whose entries are in tables and the writes
      that have left the memtable.  `inflight` is a batch that is in the log but not yet
      in the memtable, `versions` are older versions that readers still hold, `pending`
      the tables being written. */
  datatype Db = Db(
    st: State, logNumber: nat, logFile: nat, flushed: nat, rotated: nat, inflight: Option<seq<Op>>,
    versions: seq<seq<Level>>, pending: set<nat>, disk: Disk)

  /** All writes that a crash may not lose, and the one it may. */
  function Logged(db: Db): seq<Op> {
    if db.inflight.Some? then db.st.hist + db.inflight.value else db.st.hist
  }

  ghost predicate MemtablesInv(db: Db) {
    && db.flushed <= db.rotated <= |db.st.hist|
    && Elements(db.st.mem) == Between(db.st.hist, db.rotated, |db.st.hist|)
    && (db.st.imm.None? ==> db.flushed == db.rotated)
    && (db.st.imm.Some? ==> Elements(db.st.imm.value) == Between(db.st.hist, db.flushed, db.rotated))
  }

  ghost predicate LogsInv(db: Db) {
    && db.logNumber <= db.logFile < db.st.nextFile
    && db.logFile in db.disk.logs
    && AllBelow(db.disk.logs, db.logFile + 1)
    && Chain(LogBatches(db.disk.logs, db.logNumber, db.logFile + 1), Logged(db), db.flushed)
    && Chain(db.disk.logs[db.logFile], Logged(db), db.rotated)
    && (db.inflight.Some? ==> EndsWith(db.disk.logs[db.logFile], Batch(|db.st.hist| + 1, db.inflight.value)))
  }

  predicate EndsWith(batches: seq<Batch>, last: Batch) {
    batches != [] && batches[|batches| - 1] == last
  }

  /** Every table that a live version or a running compaction needs is on disk. */
  ghost predicate TablesInv(db: Db) {
    && HasTables(db.disk.tables, db.st.levels)
    && (forall i :: 0 <= i < |db.versions| ==> Held(db, db.versions[i]))
    && (forall n :: n in db.pending ==> n in db.disk.tables && n < db.st.nextFile)
  }

  ghost predicate Held(db: Db, levels: seq<Level>) {
    HasTables(db.disk.tables, levels) && FilesBelow(levels, db.st.nextFile)
  }

  ghost predicate DbInv(db: Db) {
    && Inv(db.st)
    && |Logged(db)| < kMaxSequenceNumber
    && MemtablesInv(db)
    && Inv(Base(db.st, db.flushed))
    && LogsInv(db)
    && ManifestOk(db.disk.manifest, db.st.levels, db.st.nextFile, db.logNumber, db.flushed, |db.st.hist|)
    && TablesInv(db)
  }

  // ---------------------------------------------------------------- writes

  /** Write, first half: the batch goes to the log. */
  ghost predicate LogStep(db: Db, db': Db) {
    exists ops ::
      && db.inflight.None? && db.logFile in db.disk.logs
      && |db.st.hist| + |ops| < kMaxSequenceNumber
      && db' == AfterLog(db, ops)
  }

  function AfterLog(db: Db, ops: seq<Op>): Db
    requires db.logFile in db.disk.logs
  {
    var batch := Batch(|db.st.hist| + 1, ops);
    var log := db.disk.logs[db.logFile] + [batch];
    db.(inflight := Some(ops), disk := db.disk.(logs := db.disk.logs[db.logFile := log]))
  }

  lemma LogStepInv(db: Db, ops: seq<Op>)
    requires DbInv(db) && db.inflight.None? && |db.st.hist| + |ops| < kMaxSequenceNumber
    ensures db.logFile in db.disk.logs
    ensures DbInv(AfterLog(db, ops))
  {
    hide Inv, ManifestOk, Between, HasTables, FilesBelow, LogBatches, Chain, TablesInv, LogsInv;
    LoggedInv(db, ops);
    var db' := AfterLog(db, ops);
    SameTables(db, db');
  }

  lemma LoggedInv(db: Db, ops: seq<Op>)
    requires LogsInv(db) && db.inflight.None?
    ensures db.logFile in db.disk.logs
    ensures LogsInv(AfterLog(db, ops))
  {
    hide Chain;
    var db' := AfterLog(db, ops);
    var logs, logs' := db.disk.logs, db'.disk.logs;
    LogsAgree(logs, logs', db.logNumber, db.logFile);
    LogsSplit(logs, db.logNumber, db.logFile, db.logFile + 1);
    LogsSplit(logs', db.logNumber, db.logFile, db.logFile + 1);
    NewestLog(logs, db.logFile, db.logFile + 1);
    NewestLog(logs', db.logFile, db.logFile + 1);
    var before := LogBatches(logs, db.logNumber, db.logFile);
    var batch := Batch(|db.st.hist| + 1, ops);
    assert before + (logs[db.logFile] + [batch]) == before + logs[db.logFile] + [batch];
    ChainSnoc(before + logs[db.logFile], db.st.hist, db.flushed, ops);
    ChainSnoc(logs[db.logFile], db.st.hist, db.rotated, ops);
  }

  lemma SameTables(db: Db, db': Db)
    requires TablesInv(db) && db'.st.levels == db.st.levels && db'.st.nextFile >= db.st.nextFile
    requires db'.disk.tables == db.disk.tables && db'.versions == db.versions && db'.pending == db.pending
    ensures TablesInv(db')
  {
    forall i | 0 <= i < |db'.versions|
      ensures Held(db', db'.versions[i])
    {
      assert Held(db, db.versions[i]);
    }
  }

  /** Write, second half: the batch goes to the memtable and is acknowledged. */
  ghost function AfterApply(db: Db): Db
    requires DbInv(db) && db.inflight.Some?
  {
    db.(st := WriteAll(db.st, db.inflight.value), inflight := None)
  }

  lemma ApplyStepInv(db: Db)
    requires DbInv(db) && db.inflight.Some?
    ensures DbInv(AfterApply(db)) && AfterApply(db).st.hist == Logged(db)
  {
    hide Inv, ManifestInv, NumbersInv, LogBatches, Chain, AllBelow, HasTables, FilesBelow;
    var ops, db' := db.inflight.value, AfterApply(db);
    WriteAllInv(db.st, ops);
    WriteAllMem(db.st, ops);
    assert MemtablesInv(db') by {
      BetweenJoin(db.st.hist, db'.st.hist, db.rotated);
      BetweenPrefix(db.st.hist, db'.st.hist, db.flushed, db.rotated);
    }
    assert Base(db'.st, db.flushed) == Base(db.st, db.flushed) by {
      BaseAfterWrite(db.st, db'.st, db.flushed);
    }
    SameTables(db, db');
  }

  lemma BetweenJoin(short: seq<Op>, long: seq<Op>, a: nat)
    requires short <= long && a <= |short|
    ensures Between(long, a, |long|) == Between(short, a, |short|) + Between(long, |short|, |long|)
  {
    BetweenPrefix(short, long, a, |short|);
  }

  lemma BaseAfterWrite(st: State, st': State, a: nat)
    requires a <= |st.hist| && st.hist <= st'.hist
    requires st' == st.(hist := st'.hist, mem := st'.mem)
    ensures Base(st', a) == Base(st, a)
  {
  }

  // ---------------------------------------------------------------- rotation

  /** MakeRoomForWrite: a new log and a new memtable. */
  function AfterRotate(db: Db): Db {
    var n := db.st.nextFile;
    db.(st := Rotate(db.st), logFile := n, rotated := |db.st.hist|,
        disk := db.disk.(logs := db.disk.logs[n := []]))
  }

  lemma RotateStepInv(db: Db)
    requires DbInv(db) && db.inflight.None? && db.st.imm == None
    ensures DbInv(AfterRotate(db))
  {
    hide Inv, ManifestInv, NumbersInv, HasTables, FilesBelow, LogBatches, Between;
    var db' := AfterRotate(db);
    RotateInv(db.st);
    BaseNextFile(db.st, db.flushed, db'.st);
    assert MemtablesInv(db') by {
      BetweenStep(db.st.hist, |db.st.hist|, |db.st.hist|);
    }
    NewLog(db.disk.logs, db.logNumber, db.logFile + 1, db'.logFile);
    SameTables(db, db');
  }

  /** A new empty log adds no batch. */
  lemma NewLog(logs: map<nat, seq<Batch>>, lo: nat, hi: nat, n: nat)
    requires lo <= hi <= n && AllBelow(logs, hi)
    ensures LogBatches(logs[n := []], lo, n + 1) == LogBatches(logs, lo, hi)
  {
    var logs' := logs[n := []];
    LogsAgree(logs, logs', lo, hi);
    LogsSplit(logs', lo, hi, n + 1);
    NoLogs(logs', hi, n + 1);
    assert LogBatches(logs, lo, hi) + [] == LogBatches(logs, lo, hi);
  }

  // ---------------------------------------------------------------- flush

  /** The record a file-list step appends to the MANIFEST.  The sequence and file
      numbers in it may be older than those of the moment it reaches the disk. */
  ghost predicate RecordOf(db: Db, edit: VersionEdit, log: nat, low: nat, st': State, r: Record) {
    && r.edit == edit && r.logNumber == Some(log)
    && r.nextFile.Some? && r.lastSequence.Some?
    && log < r.nextFile.value <= st'.nextFile
    && NumbersInv(st'.levels, r.nextFile.value)
    && LastNextFileOr0(db.disk) <= r.nextFile.value
    && low <= r.lastSequence.value <= |db.st.hist|
  }

  /** CompactMemTable: the table is written, then the edit that adds it and retires the
      older log, then the immutable memtable is dropped. */
  ghost predicate FlushStep(db: Db, f: FileMetaData, p: nat, r: Record, db': Db)
    requires |db.st.levels| == kNumLevels
  {
    && p < kNumLevels && TableOf(db.st, f) && CanPlace(db.st.levels, f, p) && Flushed(db.st, f, p, db'.st)
    && RecordOf(db, VersionEdit({}, [(p, f)]), db.logFile, db.rotated, db'.st, r)
    && db' == db.(st := db'.st, logNumber := db.logFile, flushed := db.rotated,
                  disk := Disk(db.disk.manifest + [r], db.disk.logs, db.disk.tables[f.number := f]))
  }

  lemma FlushStepInv(db: Db, f: FileMetaData, p: nat, r: Record, db': Db)
    requires DbInv(db) && |db.st.levels| == kNumLevels && FlushStep(db, f, p, r, db')
    ensures DbInv(db')
  {
    hide Inv, ManifestInv, NumbersInv, HasTables, FilesBelow, CanPlace, FileMetaData.Valid, Edited, ManifestOk;
    hide TablesInv, LogBatches, Between;
    FlushInv(db.st, f, p, db'.st);
    BaseFlush(db.st, db.flushed, db.rotated, f, p, db'.st);
    NewestLog(db.disk.logs, db.logFile, db.logFile + 1);
    FlushManifest(db, f, p, r, db');
    FilesBelowNext(db.st);
    FlushTables(db, f, p, db');
    Empties(db.st.hist, db.rotated);
  }

  lemma FilesBelowNext(st: State)
    requires Inv(st)
    ensures FilesBelow(st.levels, st.nextFile)
  {
  }

  lemma Empties(hist: seq<Op>, a: nat)
    requires a <= |hist|
    ensures Between(hist, a, a) == {}
  {
  }

  lemma FlushManifest(db: Db, f: FileMetaData, p: nat, r: Record, db': Db)
    requires DbInv(db) && |db.st.levels| == kNumLevels && FlushStep(db, f, p, r, db')
    ensures ManifestOk(db'.disk.manifest, db'.st.levels, db'.st.nextFile, db'.logNumber, db'.flushed, |db'.st.hist|)
  {
    hide Inv, ManifestInv, NumbersInv, TablesInv, MemtablesInv, LogsInv, CanPlace, FileMetaData.Valid, Edited;
    var m, next := db.disk.manifest, LastNextFileOr0(db.disk);
    LastOfSnoc(m, r);
    assert f.number < r.nextFile.value by {
      FlushFiles(db.st, f, p, db'.st);
      OldNumber(db'.st.levels, r.nextFile.value, p, f);
    }
    assert AllNew(r.edit, next, r.nextFile.value);
    AppendNew(m, db.st.levels, next, r, db'.st.levels, r.nextFile.value);
  }

  lemma LastOfSnoc(m: seq<Record>, r: Record)
    requires r.logNumber.Some? && r.nextFile.Some? && r.lastSequence.Some?
    ensures LastLogNumber(m + [r]) == r.logNumber && LastNextFile(m + [r]) == r.nextFile
    ensures LastLastSequence(m + [r]) == r.lastSequence
  {
  }

  lemma FlushTables(db: Db, f: FileMetaData, p: nat, db': Db)
    requires TablesInv(db) && |db.st.levels| == kNumLevels && FilesBelow(db.st.levels, db.st.nextFile)
    requires p < kNumLevels && f.number == db.st.nextFile && Flushed(db.st, f, p, db'.st)
    requires db'.disk.tables == db.disk.tables[f.number := f] && db'.versions == db.versions && db'.pending == db.pending
    ensures TablesInv(db')
  {
    FlushFiles(db.st, f, p, db'.st);
    forall i | 0 <= i < |db'.versions|
      ensures Held(db', db'.versions[i])
    {
      assert Held(db, db.versions[i]);
    }
  }

  /** Flushing an empty memtable: no table, but the older log is retired all the same. */
  ghost predicate FlushNothingStep(db: Db, r: Record, db': Db)
    requires |db.st.levels| == kNumLevels
  {
    && db.st.imm == Some([])
    && db'.st == db.st.(imm := None, nextFile := db.st.nextFile + 1)
    && RecordOf(db, VersionEdit({}, []), db.logFile, db.rotated, db'.st, r)
    && db' == db.(st := db'.st, logNumber := db.logFile, flushed := db.rotated,
                  disk := db.disk.(manifest := db.disk.manifest + [r]))
  }

  lemma FlushNothingStepInv(db: Db, r: Record, db': Db)
    requires DbInv(db) && |db.st.levels| == kNumLevels && FlushNothingStep(db, r, db')
    ensures DbInv(db')
  {
    hide Inv, ManifestInv, NumbersInv, HasTables, FilesBelow, TablesInv, LogBatches;
    FlushNothingInv(db.st);
    assert db.flushed == db.rotated by {
      NothingBetween(db.st.hist, db.flushed, db.rotated);
    }
    BaseNextFile(db.st, db.flushed, db'.st);
    NewestLog(db.disk.logs, db.logFile, db.logFile + 1);
    NothingManifest(db, r, db');
    SameTables(db, db');
  }

  lemma NothingBetween(hist: seq<Op>, a: nat, b: nat)
    requires a <= b <= |hist| && Between(hist, a, b) == {}
    ensures a == b
  {
    BetweenStep(hist, a, b);
  }

  lemma NothingManifest(db: Db, r: Record, db': Db)
    requires DbInv(db) && |db.st.levels| == kNumLevels && FlushNothingStep(db, r, db')
    ensures ManifestOk(db'.disk.manifest, db'.st.levels, db'.st.nextFile, db'.logNumber, db'.flushed, |db'.st.hist|)
  {
    hide Inv, ManifestInv, TablesInv, MemtablesInv, LogsInv, FileMetaData.Valid, NumbersInv, SortedFiles;
    var m, next := db.disk.manifest, LastNextFileOr0(db.disk);
    LastOfSnoc(m, r);
    forall l | 0 <= l < kNumLevels
      ensures SortedFiles(db.st.levels[l]) && Elements(db.st.levels[l]) == NextFiles(Elements(db.st.levels[l]), r.edit, l)
    {
      SortedLevel(m, db.st.levels, next, l);
    }
    AppendNew(m, db.st.levels, next, r, db.st.levels, r.nextFile.value);
  }

  lemma SortedLevel(m: seq<Record>, levels: seq<Level>, nextFile: nat, l: nat)
    requires ManifestInv(m, levels, nextFile) && l < kNumLevels
    ensures |levels| == kNumLevels && SortedFiles(levels[l])
  {
  }

  // ---------------------------------------------------------------- compaction and move

  function AddTables(tables: map<nat, FileMetaData>, outputs: Level): map<nat, FileMetaData> {
    if outputs == [] then tables
    else
      var f := outputs[|outputs| - 1];
      AddTables(tables, outputs[..|outputs| - 1])[f.number := f]
  }

  lemma {:induction false} AddTablesHas(tables: map<nat, FileMetaData>, outputs: Level, next: nat)
    requires ConsecutiveFrom(outputs, next)
    ensures forall n :: n in tables && n < next ==> n in AddTables(tables, outputs) && AddTables(tables, outputs)[n] == tables[n]
    ensures forall f :: f in outputs ==>
              f.number in AddTables(tables, outputs) && AddTables(tables, outputs)[f.number] == f && next <= f.number
    decreases |outputs|
  {
    if outputs != [] {
      var k := |outputs| - 1;
      AddTablesHas(tables, outputs[..k], next);
      forall f | f in outputs
        ensures f == outputs[k] || (f in outputs[..k] && f.number != outputs[k].number)
      {
      }
    }
  }

  /** A compaction writes its outputs and then the edit that puts them in place. */
  ghost predicate CompactStep(db: Db, level: nat, inputs0: Level, inputs1: Level, input: seq<Entry>,
                              outputs: Level, edit: VersionEdit, r: Record, db': Db)
    requires |db.st.levels| == kNumLevels
  {
    && level + 1 < kNumLevels && GoodInputs(db.st.levels, level, inputs0, inputs1)
    && LowerClosed(db.st.levels, level, inputs1)
    && MergedInput(input, inputs0, inputs1) && OutputsOf(db.st, level, input, outputs)
    && Compacted(db.st, level, inputs0, inputs1, outputs, edit, db'.st)
    && RecordOf(db, edit, db.logNumber, db.flushed, db'.st, r)
    && db' == db.(st := db'.st, disk := Disk(db.disk.manifest + [r], db.disk.logs, AddTables(db.disk.tables, outputs)))
  }

  ghost predicate MoveStep(db: Db, level: nat, f: FileMetaData, r: Record, db': Db)
    requires |db.st.levels| == kNumLevels
  {
    && level + 1 < kNumLevels && GoodInputs(db.st.levels, level, [f], []) && Moved(db.st, level, f, db'.st)
    && RecordOf(db, VersionEdit({(level, f.number)}, [(level + 1, f)]), db.logNumber, db.flushed, db'.st, r)
    && db' == db.(st := db'.st, disk := db.disk.(manifest := db.disk.manifest + [r]))
  }

  lemma MoveStepInv(db: Db, level: nat, f: FileMetaData, r: Record, db': Db)
    requires DbInv(db) && |db.st.levels| == kNumLevels && MoveStep(db, level, f, r, db')
    ensures DbInv(db')
  {
    hide Inv, ManifestInv, NumbersInv, HasTables, FilesBelow, TablesInv, LogBatches, Between, GoodInputs, Edited, ManifestOk,
      Chain, AllBelow, EndsWith, Base;
    MoveInv(db.st, level, f, db'.st);
    BaseMove(db.st, db.flushed, level, f, db'.st);
    InLevel(db.st.levels, level, f);
    MoveManifest(db, level, f, r, db');
    MoveTables(db, level, f, db');
  }

  lemma InLevel(levels: seq<Level>, level: nat, f: FileMetaData)
    requires level + 1 < |levels| && GoodInputs(levels, level, [f], [])
    ensures f in levels[level]
  {
    assert f in [f];
  }

  lemma MoveManifest(db: Db, level: nat, f: FileMetaData, r: Record, db': Db)
    requires DbInv(db) && |db.st.levels| == kNumLevels && MoveStep(db, level, f, r, db') && f in db.st.levels[level]
    ensures ManifestOk(db'.disk.manifest, db'.st.levels, db'.st.nextFile, db'.logNumber, db'.flushed, |db'.st.hist|)
  {
    hide Inv, ManifestInv, NumbersInv, TablesInv, MemtablesInv, LogsInv, GoodInputs, Edited;
    var m, next := db.disk.manifest, LastNextFileOr0(db.disk);
    LastOfSnoc(m, r);
    AppendMove(m, db.st.levels, next, r, db'.st.levels, level, f);
    ManifestLater(m + [r], db'.st.levels, next, r.nextFile.value);
  }

  lemma ManifestLater(m: seq<Record>, levels: seq<Level>, n: nat, n': nat)
    requires ManifestInv(m, levels, n) && n <= n'
    ensures ManifestInv(m, levels, n')
  {
  }

  lemma MoveTables(db: Db, level: nat, f: FileMetaData, db': Db)
    requires TablesInv(db) && |db.st.levels| == kNumLevels && level + 1 < kNumLevels && f in db.st.levels[level]
    requires Moved(db.st, level, f, db'.st)
    requires db'.disk.tables == db.disk.tables && db'.versions == db.versions && db'.pending == db.pending
    ensures TablesInv(db')
  {
    hide FilesBelow;
    forall l, g | 0 <= l < kNumLevels && g in db'.st.levels[l]
      ensures g.number in db.disk.tables && db.disk.tables[g.number] == g
    {
      EditedMembers(db.st.levels, VersionEdit({(level, f.number)}, [(level + 1, f)]), db'.st.levels, l, g);
    }
    forall i | 0 <= i < |db'.versions|
      ensures Held(db', db'.versions[i])
    {
      assert Held(db, db.versions[i]);
    }
  }

  lemma CompactStepInv(db: Db, level: nat, inputs0: Level, inputs1: Level, input: seq<Entry>,
                       outputs: Level, edit: VersionEdit, r: Record, db': Db)
    requires DbInv(db) && |db.st.levels| == kNumLevels
    requires CompactStep(db, level, inputs0, inputs1, input, outputs, edit, r, db')
    ensures DbInv(db')
  {
    hide Inv, ManifestInv, NumbersInv, HasTables, FilesBelow, TablesInv, LogBatches, Between, GoodInputs, Edited, ManifestOk;
    hide LowerClosed, MergedInput, ValidFiles, Flatten, ConsecutiveFrom, Kept, RecordOf, AddTables, CompactionEdit;
    CompactInv(db.st, level, inputs0, inputs1, input, outputs, edit, db'.st);
    BaseCompact(db.st, db.flushed, level, inputs0, inputs1, input, outputs, edit, db'.st);
    FilesBelowNext(db.st);
    CompactManifest(db, level, inputs0, inputs1, outputs, edit, r, db'.st);
    CompactTables(db, level, inputs0, inputs1, outputs, edit, db');
  }

  lemma CompactManifest(db: Db, level: nat, inputs0: Level, inputs1: Level, outputs: Level, edit: VersionEdit, r: Record, st': State)
    requires DbInv(db) && |db.st.levels| == kNumLevels && level + 1 < kNumLevels
    requires ConsecutiveFrom(outputs, db.st.nextFile) && Compacted(db.st, level, inputs0, inputs1, outputs, edit, st')
    requires RecordOf(db, edit, db.logNumber, db.flushed, st', r)
    ensures ManifestOk(db.disk.manifest + [r], st'.levels, st'.nextFile, db.logNumber, db.flushed, |db.st.hist|)
  {
    hide Inv, ManifestInv, NumbersInv, TablesInv, MemtablesInv, LogsInv, Edited;
    var m, next := db.disk.manifest, LastNextFileOr0(db.disk);
    LastOfSnoc(m, r);
    OutputsAllNew(db.st, level, inputs0, inputs1, outputs, edit, st', r.nextFile.value);
    assert AllNew(edit, next, r.nextFile.value);
    AppendNew(m, db.st.levels, next, r, st'.levels, r.nextFile.value);
  }

  lemma OutputsAllNew(st: State, level: nat, inputs0: Level, inputs1: Level, outputs: Level, edit: VersionEdit, st': State, next: nat)
    requires |st.levels| == kNumLevels && level + 1 < kNumLevels
    requires ConsecutiveFrom(outputs, st.nextFile) && Compacted(st, level, inputs0, inputs1, outputs, edit, st')
    requires NumbersInv(st'.levels, next)
    ensures AllNew(edit, st.nextFile, next)
  {
    assert Edited(st.levels, edit, st'.levels);
    forall f | f in outputs
      ensures f.number < next
    {
      NewOutputs(edit, level, inputs0, inputs1, outputs, level + 1);
      assert f in Elements(st'.levels[level + 1]);
    }
  }

  lemma CompactTables(db: Db, level: nat, inputs0: Level, inputs1: Level, outputs: Level, edit: VersionEdit, db': Db)
    requires TablesInv(db) && |db.st.levels| == kNumLevels && FilesBelow(db.st.levels, db.st.nextFile)
    requires ConsecutiveFrom(outputs, db.st.nextFile) && Compacted(db.st, level, inputs0, inputs1, outputs, edit, db'.st)
    requires db'.disk.tables == AddTables(db.disk.tables, outputs) && db'.versions == db.versions && db'.pending == db.pending
    ensures TablesInv(db')
  {
    hide AddTables, ConsecutiveFrom, NextFiles;
    AddTablesHas(db.disk.tables, outputs, db.st.nextFile);
    forall l: nat, g | l < kNumLevels && g in db'.st.levels[l]
      ensures g.number in db'.disk.tables && db'.disk.tables[g.number] == g
    {
      EditedMembers(db.st.levels, edit, db'.st.levels, l, g);
    }
    forall i | 0 <= i < |db'.versions|
      ensures Held(db', db'.versions[i])
    {
      assert Held(db, db.versions[i]);
    }
  }

  // ---------------------------------------------------------------- readers and snapshots

  /** NewSnapshot and ReleaseSnapshot touch nothing on disk. */
  ghost predicate SnapshotStep(db: Db, db': Db) {
    && db' == db.(st := db'.st)
    && (db'.st == NewSnapshot(db.st) || exists i: nat :: i < |db.st.snapshots| && db'.st == ReleaseSnapshot(db.st, i))
  }

  lemma SnapshotStepInv(db: Db, db': Db)
    requires DbInv(db) && SnapshotStep(db, db')
    ensures DbInv(db')
  {
    hide Inv, ManifestOk, LogBatches, Chain, Between, Held, HasTables, TablesInv;
    if db'.st == NewSnapshot(db.st) {
      NewSnapshotInv(db.st);
    } else {
      var i: nat :| i < |db.st.snapshots| && db'.st == ReleaseSnapshot(db.st, i);
      ReleaseSnapshotInv(db.st, i);
    }
    SmallestRises(db, db');
    BaseSnapshots(db.st, db.flushed, db'.st);
    SameTables(db, db');
  }

  lemma SmallestRises(db: Db, db': Db)
    requires Inv(db.st) && SnapshotStep(db, db')
    ensures SmallestSnapshot(db.st) <= SmallestSnapshot(db'.st)
  {
    hide FromHistory, MemInv, FilesInv, ReadsInv;
  }

  /** A reader takes a reference to the current version, or drops one. */
  ghost predicate ReaderStep(db: Db, db': Db) {
    || db' == db.(versions := db.versions + [db.st.levels])
    || exists i: nat :: i < |db.versions| && db' == db.(versions := db.versions[..i] + db.versions[i + 1..])
  }

  lemma ReaderStepInv(db: Db, db': Db)
    requires DbInv(db) && ReaderStep(db, db')
    ensures DbInv(db')
  {
    hide Inv, ManifestOk, LogBatches, Between, Held, HasTables, FilesBelow;
    forall v | v in db'.versions
      ensures Held(db', v)
    {
      assert Held(db, v) by {
        if v in db.versions {
          var j: nat :| j < |db.versions| && db.versions[j] == v;
          assert Held(db, db.versions[j]);
        } else {
          CurrentHeld(db);
        }
      }
      SameHeld(db, db', v);
    }
    assert forall i :: 0 <= i < |db'.versions| ==> db'.versions[i] in db'.versions;
  }

  lemma CurrentHeld(db: Db)
    requires DbInv(db)
    ensures Held(db, db.st.levels)
  {
    FilesBelowNext(db.st);
  }

  lemma SameHeld(db: Db, db': Db, v: seq<Level>)
    requires Held(db, v) && db'.disk.tables == db.disk.tables && db'.st.nextFile >= db.st.nextFile
    ensures Held(db', v)
  {
  }

  /** A running compaction writes a table that no version knows yet, or gives it up. */
  ghost predicate PendingStep(db: Db, db': Db) {
    || (exists f :: db' == BeginTable(db, f))
    || exists n :: db' == GiveUpTable(db, n)
  }

  function BeginTable(db: Db, f: FileMetaData): Db {
    var n := db.st.nextFile;
    db.(st := db.st.(nextFile := n + 1), pending := db.pending + {n}, disk := db.disk.(tables := db.disk.tables[n := f]))
  }

  function GiveUpTable(db: Db, n: nat): Db {
    db.(pending := db.pending - {n})
  }

  lemma PendingStepInv(db: Db, db': Db)
    requires DbInv(db) && PendingStep(db, db')
    ensures DbInv(db')
  {
    hide Inv, ManifestInv, NumbersInv, LogBatches, Between;
    FilesBelowNext(db.st);
    if n :| db' == GiveUpTable(db, n) {
      SameVersions(db, db');
    } else {
      NextFileLater(db.st, db.st.nextFile + 1);
      BaseNextFile(db.st, db.flushed, db'.st);
      SameVersions(db, db');
    }
  }

  lemma NextFileLater(st: State, n: nat)
    requires Inv(st) && st.nextFile <= n
    ensures Inv(st.(nextFile := n))
  {
    hide WellFormed;
    assert NumbersInv(st.levels, n);
    ChangeNextFile(st, n);
  }

  lemma SameVersions(db: Db, db': Db)
    requires TablesInv(db) && db'.st.levels == db.st.levels && db'.versions == db.versions
    requires db.st.nextFile <= db'.st.nextFile && FilesBelow(db.st.levels, db.st.nextFile)
    requires forall n :: n in db.disk.tables && n < db.st.nextFile ==> n in db'.disk.tables && db'.disk.tables[n] == db.disk.tables[n]
    requires forall n :: n in db'.pending ==> n in db'.disk.tables && n < db'.st.nextFile
    ensures TablesInv(db')
  {
    forall i | 0 <= i < |db'.versions|
      ensures Held(db', db'.versions[i])
    {
      assert Held(db, db.versions[i]);
    }
  }

  // ---------------------------------------------------------------- deleting obsolete files

  ghost predicate LiveTable(db: Db, n: nat) {
    || n in db.pending
    || InVersion(db.st.levels, n)
    || exists i :: 0 <= i < |db.versions| && InVersion(db.versions[i], n)
  }

  ghost predicate InVersion(levels: seq<Level>, n: nat) {
    exists l, f :: 0 <= l < |levels| && f in levels[l] && f.number == n
  }

  /** DeleteObsoleteFiles: every log from the current log number on and every table of a
      live version or a running compaction stays as it is; nothing else does. */
  ghost predicate CollectStep(db: Db, db': Db) {
    && db' == db.(disk := Disk(db.disk.manifest, db'.disk.logs, db'.disk.tables))
    && (forall n :: n in db'.disk.logs <==> n in db.disk.logs && n >= db.logNumber)
    && (forall n :: n in db'.disk.logs ==> db'.disk.logs[n] == db.disk.logs[n])
    && (forall n :: n in db'.disk.tables <==> n in db.disk.tables && LiveTable(db, n))
    && (forall n :: n in db'.disk.tables ==> db'.disk.tables[n] == db.disk.tables[n])
  }

  lemma CollectStepInv(db: Db, db': Db)
    requires DbInv(db) && CollectStep(db, db')
    ensures DbInv(db')
  {
    hide Inv, ManifestOk, Between, LiveTable;
    LogsAgree(db.disk.logs, db'.disk.logs, db.logNumber, db.logFile + 1);
    LiveStay(db, db', db.st.levels);
    forall i | 0 <= i < |db'.versions|
      ensures Held(db', db'.versions[i])
    {
      assert Held(db, db.versions[i]);
      LiveStay(db, db', db.versions[i]);
    }
    forall n | n in db.pending
      ensures LiveTable(db, n)
    {
      PendingIsLive(db, n);
    }
  }

  lemma PendingIsLive(db: Db, n: nat)
    requires n in db.pending
    ensures LiveTable(db, n)
  {
  }

  lemma LiveStay(db: Db, db': Db, levels: seq<Level>)
    requires HasTables(db.disk.tables, levels) && CollectStep(db, db')
    requires levels == db.st.levels || exists i :: 0 <= i < |db.versions| && db.versions[i] == levels
    ensures HasTables(db'.disk.tables, levels)
  {
    forall l, f | 0 <= l < |levels| && f in levels[l]
      ensures f.number in db'.disk.tables
    {
      assert InVersion(levels, f.number);
      assert LiveTable(db, f.number);
    }
  }

  // ---------------------------------------------------------------- crash

  /** The process stops.  The record being appended to the log, if any, is on disk as a
      whole or not at all: a record cut short is one the log reader does not return. */
  ghost predicate CrashStep(db: Db, disk: Disk, hist: seq<Op>) {
    || (disk == db.disk && hist == Logged(db))
    || (db.inflight.Some? && db.logFile in db.disk.logs && db.disk.logs[db.logFile] != []
        && disk == WithoutLast(db) && hist == db.st.hist)
  }

  function WithoutLast(db: Db): Disk
    requires db.logFile in db.disk.logs && db.disk.logs[db.logFile] != []
  {
    var log := db.disk.logs[db.logFile];
    db.disk.(logs := db.disk.logs[db.logFile := log[..|log| - 1]])
  }

  /** Whenever the process stops, the directory holds exactly the writes acknowledged so
      far and, at most, the one in flight. */
  lemma CrashLeaves(db: Db, disk: Disk, hist: seq<Op>)
    requires DbInv(db) && CrashStep(db, disk, hist)
    ensures DiskInv(disk, hist, db.flushed, db.st.levels, db.logNumber, db.logFile + 1)
    ensures hist == db.st.hist || hist == Logged(db)
  {
    hide Inv, ManifestInv, NumbersInv, HasTables, FilesBelow, Between, LogBatches, Chain, MemtablesInv, CrashStep;
    CrashKeeps(db, disk, hist);
    TablesAlone(db, hist);
    if !(disk == db.disk && hist == Logged(db)) {
      CrashTorn(db, disk, hist);
      TornLogs(db, disk, hist);
    }
  }

  lemma CrashKeeps(db: Db, disk: Disk, hist: seq<Op>)
    requires CrashStep(db, disk, hist)
    ensures db.st.hist <= hist <= Logged(db)
  {
  }

  lemma CrashTorn(db: Db, disk: Disk, hist: seq<Op>)
    requires CrashStep(db, disk, hist) && !(disk == db.disk && hist == Logged(db))
    ensures db.inflight.Some? && db.logFile in db.disk.logs && db.disk.logs[db.logFile] != []
    ensures disk == WithoutLast(db) && hist == db.st.hist
  {
  }

  lemma TablesAlone(db: Db, hist: seq<Op>)
    requires DbInv(db) && db.st.hist <= hist
    ensures Inv(OnTables(hist, db.flushed, db.st.levels, LastNextFileOr0(db.disk)))
  {
    hide WellFormed, FromHistory, ReadsInv, FilesInv, MemInv, LogsInv, TablesInv;
    var base := Base(db.st, db.flushed);
    var bare := base.(snapshots := []);
    SameStoreInv(base, bare);
    ChangeNextFile(bare, LastNextFileOr0(db.disk));
    assert hist[..db.flushed] == db.st.hist[..db.flushed];
  }

  lemma TornLogs(db: Db, disk: Disk, hist: seq<Op>)
    requires LogsInv(db) && db.inflight.Some? && disk == WithoutLast(db) && hist == db.st.hist
    ensures AllBelow(disk.logs, db.logFile + 1)
    ensures Chain(LogBatches(disk.logs, db.logNumber, db.logFile + 1), hist, db.flushed)
  {
    hide Chain;
    var logs, logs', n := db.disk.logs, disk.logs, db.logFile;
    LogsAgree(logs, logs', db.logNumber, n);
    LogsSplit(logs, db.logNumber, n, n + 1);
    LogsSplit(logs', db.logNumber, n, n + 1);
    NewestLog(logs, n, n + 1);
    NewestLog(logs', n, n + 1);
    var before, batch := LogBatches(logs, db.logNumber, n), Batch(|hist| + 1, db.inflight.value);
    assert logs[n] == logs'[n] + [batch];
    assert before + logs[n] == before + logs'[n] + [batch];
    ChainInit(before + logs'[n], hist, db.flushed, db.inflight.value);
  }

  lemma {:induction false} ChainInit(batches: seq<Batch>, hist: seq<Op>, a: nat, ops: seq<Op>)
    requires Chain(batches + [Batch(|hist| + 1, ops)], hist + ops, a)
    ensures Chain(batches, hist, a)
    decreases |batches|
  {
    var all := batches + [Batch(|hist| + 1, ops)];
    if batches != [] {
      var b := a + |batches[0].ops|;
      assert all[1..] == batches[1..] + [Batch(|hist| + 1, ops)];
      ChainInit(batches[1..], hist, b, ops);
      ChainLength(batches[1..], hist, b);
      assert (hist + ops)[a..b] == hist[a..b];
    }
  }

  // ---------------------------------------------------------------- recovery

  /** A recovery in progress: `base` is the version the MANIFEST describes, `added` the
      tables written so far, `todo` the logged batches still to be replayed.  `st` is
      the database rebuilt from what has been replayed. */
  datatype Rec = Rec(
    disk: Disk, hist: seq<Op>, flushed: nat, base: seq<Level>, logNumber: nat, hi: nat,
    st: State, added: seq<(nat, FileMetaData)>, todo: seq<Batch>)

  ghost predicate RecInv(rec: Rec) {
    && DiskInv(rec.disk, rec.hist, rec.flushed, rec.base, rec.logNumber, rec.hi)
    && Inv(rec.st) && rec.st.imm == None && rec.st.snapshots == []
    && rec.st.hist <= rec.hist && Chain(rec.todo, rec.hist, |rec.st.hist|)
    && |rec.base| == kNumLevels && Edited(rec.base, VersionEdit({}, rec.added), rec.st.levels)
    && LastNextFileOr0(rec.disk) < rec.st.nextFile
    && AllNew(VersionEdit({}, rec.added), LastNextFileOr0(rec.disk) + 1, rec.st.nextFile)
    && HasTables(rec.disk.tables, rec.st.levels)
  }

  /** VersionSet::Recover and the listing of the logs. */
  ghost predicate BeginStep(disk: Disk, hist: seq<Op>, rec: Rec) {
    && DiskInv(disk, hist, rec.flushed, rec.base, rec.logNumber, rec.hi)
    && rec == Rec(disk, hist, rec.flushed, rec.base, rec.logNumber, rec.hi,
                  OnTables(hist, rec.flushed, rec.base, LastNextFileOr0(disk) + 1), [],
                  LogBatches(disk.logs, rec.logNumber, rec.hi))
  }

  lemma BeginStepInv(disk: Disk, hist: seq<Op>, rec: Rec)
    requires BeginStep(disk, hist, rec)
    ensures RecInv(rec)
  {
    hide Inv, HasTables, LogBatches, Chain, NumbersInv, SortedFiles;
    var bare := OnTables(hist, rec.flushed, rec.base, LastNextFileOr0(disk));
    NextFileLater(bare, LastNextFileOr0(disk) + 1);
    NothingAdded(rec.disk.manifest, rec.base, LastNextFileOr0(disk));
  }

  lemma NothingAdded(m: seq<Record>, levels: seq<Level>, next: nat)
    requires ManifestInv(m, levels, next)
    ensures |levels| == kNumLevels && Edited(levels, VersionEdit({}, []), levels)
    ensures AllNew(VersionEdit({}, []), next + 1, next + 1)
  {
  }

  /** RecoverLogFile, one record: its operations go to the recovery memtable. */
  ghost predicate ReplayStep(rec: Rec, rec': Rec)
    requires Inv(rec.st)
  {
    && rec.todo != []
    && |rec.st.hist| + |rec.todo[0].ops| < kMaxSequenceNumber
    && rec' == rec.(st := WriteAll(rec.st, rec.todo[0].ops), todo := rec.todo[1..])
  }

  lemma ReplayStepInv(rec: Rec, rec': Rec)
    requires RecInv(rec) && ReplayStep(rec, rec')
    ensures RecInv(rec')
  {
    hide Inv, DiskInv, HasTables, AllNew, Edited;
    WriteAllInv(rec.st, rec.todo[0].ops);
    var n, ops := |rec.st.hist|, rec.todo[0].ops;
    assert rec.hist[..n] + rec.hist[n..n + |ops|] == rec.hist[..n + |ops|];
  }

  /** WriteLevel0Table during recovery: the table always goes to level 0. */
  ghost predicate RecoverFlushStep(rec: Rec, f: FileMetaData, rec': Rec) {
    && f.Valid() && f.entries == rec.st.mem && f.number == rec.st.nextFile
    && |rec.st.levels| == kNumLevels && Edited(rec.st.levels, VersionEdit({}, [(0, f)]), rec'.st.levels)
    && rec' == rec.(st := rec.st.(mem := [], levels := rec'.st.levels, nextFile := rec.st.nextFile + 1),
                    added := rec.added + [(0, f)],
                    disk := rec.disk.(tables := rec.disk.tables[f.number := f]))
  }

  lemma RecoverFlushStepInv(rec: Rec, f: FileMetaData, rec': Rec)
    requires RecInv(rec) && RecoverFlushStep(rec, f, rec')
    ensures RecInv(rec')
  {
    hide Inv, ManifestOk, NumbersInv, LogBatches, Chain, FileMetaData.Valid, Edited;
    MemToTable(rec.st, f, rec'.st);
    FlushFiles(rec.st.(imm := Some(rec.st.mem), mem := []), f, 0, rec'.st);
    FilesBelowNext(rec.st);
    BaseBelow(rec);
    MoreAdded(rec.base, rec.added, rec.st.levels, f, rec'.st.levels);
    assert AllNew(VersionEdit({}, rec'.added), LastNextFileOr0(rec'.disk) + 1, rec'.st.nextFile) by {
      hide DiskInv, HasTables;
    }
  }

  /** Numbers of the base version are below those recovery hands out. */
  lemma BaseBelow(rec: Rec)
    requires RecInv(rec)
    ensures FilesBelow(rec.base, rec.st.nextFile)
  {
    hide Inv, Edited, AllNew, Chain, LogBatches, HasTables;
  }

  lemma MemToTable(st: State, f: FileMetaData, st': State)
    requires Inv(st) && st.imm == None && |st.levels| == kNumLevels
    requires f.Valid() && f.entries == st.mem && f.number == st.nextFile
    requires Edited(st.levels, VersionEdit({}, [(0, f)]), st'.levels)
    requires st' == st.(mem := [], levels := st'.levels, nextFile := st.nextFile + 1)
    ensures Inv(st')
  {
    hide WellFormed, FromHistory, ReadsInv, FilesInv, MemInv, NumbersInv, FileMetaData.Valid, Edited;
    RotateInv(st);
    assert NumbersInv(st.levels, st.nextFile) by {
      FilesFacts(st);
    }
    ChangeNextFile(Rotate(st), st.nextFile);
    var r := st.(mem := [], imm := Some(st.mem));
    assert r == Rotate(st).(nextFile := st.nextFile);
    FlushInv(r, f, 0, st');
  }

  /** One accumulated edit does what adding the tables one at a time does. */
  lemma MoreAdded(base: seq<Level>, added: seq<(nat, FileMetaData)>, levels: seq<Level>, f: FileMetaData, levels': seq<Level>)
    requires |base| == |levels| == kNumLevels
    requires Edited(base, VersionEdit({}, added), levels) && Edited(levels, VersionEdit({}, [(0, f)]), levels')
    ensures Edited(base, VersionEdit({}, added + [(0, f)]), levels')
  {
    hide SortedFiles;
    forall l: nat | l < kNumLevels
      ensures Elements(levels'[l]) == NextFiles(Elements(base[l]), VersionEdit({}, added + [(0, f)]), l)
    {
      AddedOne(added, f, l);
      AddedOne([], f, l);
      assert [] + [(0, f)] == [(0, f)];
    }
  }

  lemma AddedOne(added: seq<(nat, FileMetaData)>, f: FileMetaData, l: nat)
    ensures NewAt(VersionEdit({}, added + [(0, f)]), l) == NewAt(VersionEdit({}, added), l) + if l == 0 then {f} else {}
    ensures DeletedAt(VersionEdit({}, added + [(0, f)]), l) == {}
  {
    var all := added + [(0, f)];
    assert forall p :: p in all <==> p in added || p == (0, f);
  }

  // ---------------------------------------------------------------- commit

  /** The last sequence number recovery arrives at: the MANIFEST's, or the last one in
      the replayed logs if that is larger. */
  function MaxSequence(batches: seq<Batch>, m: nat): nat {
    if batches == [] then m
    else
      var last := batches[0].sequence + |batches[0].ops|;
      MaxSequence(batches[1..], if last > m + 1 then last - 1 else m)
  }

  /** It is the number of the last write, hence at least every sequence number stored. */
  lemma {:induction false} RecoveredSequence(batches: seq<Batch>, hist: seq<Op>, a: nat, m: nat)
    requires Chain(batches, hist, a) && a <= m <= |hist|
    ensures MaxSequence(batches, m) == |hist|
    decreases |batches|
  {
    if batches != [] {
      var b := a + |batches[0].ops|;
      RecoveredSequence(batches[1..], hist, b, if b > m then b else m);
    }
  }

  /** Opening ends: a new log above all others, and a new MANIFEST that starts with a
      snapshot of the recovered version and adds the new tables.  `log` is the number
      the new log gets. */
  ghost predicate CommitStep(rec: Rec, log: nat, db: Db) {
    && rec.todo == [] && rec.st.mem == [] && |rec.base| == kNumLevels
    && rec.st.nextFile <= log && AllBelow(rec.disk.logs, log)
    && LastLastSequence(rec.disk.manifest).Some?
    && var n, last := |rec.st.hist|,
         MaxSequence(LogBatches(rec.disk.logs, rec.logNumber, rec.hi), LastLastSequence(rec.disk.manifest).value);
       db == Db(rec.st.(nextFile := log + 1), log, log, n, n, None, [], {},
                Disk([SnapshotRecord(rec.base),
                      Record(VersionEdit({}, rec.added), Some(log), Some(log + 1), Some(last))],
                     rec.disk.logs[log := []], rec.disk.tables))
  }

  /** What recovery opens is a database with exactly the writes that were on disk. */
  lemma CommitStepInv(rec: Rec, log: nat, db: Db)
    requires RecInv(rec) && CommitStep(rec, log, db)
    ensures DbInv(db) && db.st.hist == rec.hist && Logged(db) == rec.hist
    ensures LastLastSequence(db.disk.manifest) == Some(|rec.hist|)
  {
    hide Inv, NumbersInv, AllNew, Edited, SnapshotRecord, ManifestInv, HasTables;
    RecoveredSequence(LogBatches(rec.disk.logs, rec.logNumber, rec.hi), rec.hist, rec.flushed,
                      LastLastSequence(rec.disk.manifest).value);
    NextFileLater(rec.st, log + 1);
    var n := |rec.st.hist|;
    assert rec.st.hist == rec.hist;
    BetweenStep(rec.st.hist, n, n);
    NewestLog(db.disk.logs, log, log + 1);
    assert Inv(Base(db.st, n)) by {
      AllFlushed(db.st);
    }
    CommitManifest(rec, log, db);
  }

  lemma AllFlushed(st: State)
    requires Inv(st) && st.mem == [] && st.imm == None && st.snapshots == []
    ensures Inv(Base(st, |st.hist|))
  {
    hide WellFormed, FromHistory, ReadsInv, FilesInv, MemInv;
    assert st.hist[..|st.hist|] == st.hist;
    SameStoreInv(st, Base(st, |st.hist|));
  }

  lemma CommitManifest(rec: Rec, log: nat, db: Db)
    requires RecInv(rec) && CommitStep(rec, log, db) && |rec.st.hist| == |rec.hist|
    requires MaxSequence(LogBatches(rec.disk.logs, rec.logNumber, rec.hi), LastLastSequence(rec.disk.manifest).value) == |rec.hist|
    ensures ManifestOk(db.disk.manifest, db.st.levels, db.st.nextFile, log, |rec.hist|, |rec.hist|)
    ensures LastLastSequence(db.disk.manifest) == Some(|rec.hist|)
  {
    hide Inv, SnapshotRecord, ManifestInv, HasTables, MaxSequence, LogBatches, Chain, Edited, LastLogNumber,
      LastNextFile, LastLastSequence;
    var next := LastNextFileOr0(rec.disk);
    var first, r := SnapshotRecord(rec.base), db.disk.manifest[1];
    assert db.disk.manifest == [first] + [r];
    LastOfSnoc([first], r);
    BaseSorted(rec);
    SnapshotRebuilds(rec.base, next + 1);
    AppendNew([first], rec.base, next + 1, r, rec.st.levels, log + 1);
    assert NumbersInv(db.st.levels, log + 1) by {
      NumbersOf(rec.st, log + 1);
    }
  }

  lemma NumbersOf(st: State, n: nat)
    requires Inv(st) && st.nextFile <= n
    ensures NumbersInv(st.levels, n)
  {
  }

  lemma BaseSorted(rec: Rec)
    requires RecInv(rec)
    ensures |rec.base| == kNumLevels && forall l :: 0 <= l < kNumLevels ==> SortedFiles(rec.base[l])
    ensures NumbersInv(rec.base, LastNextFileOr0(rec.disk) + 1)
  {
    hide Inv, SortedFiles, HasTables, Edited, AllNew, LogBatches, Chain;
  }

  /** A recovery may itself be cut short; at most a new empty log and some tables that
      no version names are left behind. */
  ghost predicate AbortStep(rec: Rec, disk: Disk, hist: seq<Op>) {
    && hist == rec.hist
    && (disk == rec.disk ||
        exists n :: rec.hi <= n && disk == WithEmptyLog(rec.disk, n))
  }

  function WithEmptyLog(disk: Disk, n: nat): Disk {
    disk.(logs := disk.logs[n := []])
  }

  lemma AbortLeaves(rec: Rec, disk: Disk, hist: seq<Op>) returns (hi: nat)
    requires RecInv(rec) && AbortStep(rec, disk, hist)
    ensures DiskInv(disk, hist, rec.flushed, rec.base, rec.logNumber, hi)
  {
    hide Inv, ManifestInv, NumbersInv, HasTables, LogBatches, Chain;
    hi := rec.hi;
    if disk != rec.disk {
      var n: nat :| rec.hi <= n && disk == WithEmptyLog(rec.disk, n);
      hi := n + 1;
      if rec.logNumber <= rec.hi {
        NewLog(rec.disk.logs, rec.logNumber, rec.hi, n);
      } else {
        NoBatches(rec.disk.logs, rec.logNumber, rec.hi);
        LateLog(rec.disk.logs, rec.logNumber, n);
      }
    }
  }

  lemma NoBatches(logs: map<nat, seq<Batch>>, lo: nat, hi: nat)
    requires hi <= lo
    ensures LogBatches(logs, lo, hi) == []
  {
  }

  lemma LateLog(logs: map<nat, seq<Batch>>, lo: nat, n: nat)
    requires AllBelow(logs, lo)
    ensures LogBatches(logs[n := []], lo, n + 1) == []
  {
    NoLogs(logs[n := []], lo, n + 1);
  }

  // ---------------------------------------------------------------- all runs

  datatype Phase = Running(db: Db) | Down(disk: Disk, hist: seq<Op>) | Recovering(rec: Rec)

  ghost predicate PhaseInv(p: Phase) {
    match p
    case Running(db) => DbInv(db)
    case Down(disk, hist) => exists a, levels, log, hi :: DiskInv(disk, hist, a, levels, log, hi)
    case Recovering(rec) => RecInv(rec)
  }

  /** The writes that have been acknowledged to a client, or that a crash has kept. */
  function Written(p: Phase): seq<Op> {
    match p
    case Running(db) => db.st.hist
    case Down(_, hist) => hist
    case Recovering(rec) => rec.hist
  }

  ghost predicate DbStep(db: Db, db': Db)
    requires DbInv(db)
  {
    || LogStep(db, db')
    || (db.inflight.Some? && db' == AfterApply(db))
    || (db.inflight.None? && db.st.imm == None && db' == AfterRotate(db))
    || FileStep(db, db')
    || SnapshotStep(db, db')
    || ReaderStep(db, db')
    || PendingStep(db, db')
    || CollectStep(db, db')
  }

  ghost predicate FileStep(db: Db, db': Db) {
    && |db.st.levels| == kNumLevels
    && (|| (exists f, p: nat, r :: FlushStep(db, f, p, r, db'))
        || (exists r :: FlushNothingStep(db, r, db'))
        || (exists level: nat, f, r :: MoveStep(db, level, f, r, db'))
        || (exists level: nat, inputs0, inputs1, input, outputs, edit, r ::
              CompactStep(db, level, inputs0, inputs1, input, outputs, edit, r, db')))
  }

  lemma FileStepInv(db: Db, db': Db)
    requires DbInv(db) && FileStep(db, db')
    ensures DbInv(db') && db'.st.hist == db.st.hist
  {
    hide DbInv, FlushStep, FlushNothingStep, MoveStep, CompactStep;
    if f, p: nat, r :| FlushStep(db, f, p, r, db') {
      FlushStepInv(db, f, p, r, db');
      assert db'.st.hist == db.st.hist by {
        FlushHist(db, f, p, r, db');
      }
    } else if r :| FlushNothingStep(db, r, db') {
      FlushNothingStepInv(db, r, db');
      assert db'.st.hist == db.st.hist by {
        FlushNothingHist(db, r, db');
      }
    } else if level: nat, f, r :| MoveStep(db, level, f, r, db') {
      MoveStepInv(db, level, f, r, db');
      assert db'.st.hist == db.st.hist by {
        MoveHist(db, level, f, r, db');
      }
    } else {
      var level: nat, inputs0, inputs1, input, outputs, edit, r :|
        CompactStep(db, level, inputs0, inputs1, input, outputs, edit, r, db');
      CompactStepInv(db, level, inputs0, inputs1, input, outputs, edit, r, db');
      assert db'.st.hist == db.st.hist by {
        CompactHist(db, level, inputs0, inputs1, input, outputs, edit, r, db');
      }
    }
  }

  lemma FlushHist(db: Db, f: FileMetaData, p: nat, r: Record, db': Db)
    requires |db.st.levels| == kNumLevels && FlushStep(db, f, p, r, db')
    ensures db'.st.hist == db.st.hist
  {
  }

  lemma FlushNothingHist(db: Db, r: Record, db': Db)
    requires |db.st.levels| == kNumLevels && FlushNothingStep(db, r, db')
    ensures db'.st.hist == db.st.hist
  {
  }

  lemma MoveHist(db: Db, level: nat, f: FileMetaData, r: Record, db': Db)
    requires |db.st.levels| == kNumLevels && MoveStep(db, level, f, r, db')
    ensures db'.st.hist == db.st.hist
  {
  }

  lemma CompactHist(db: Db, level: nat, inputs0: Level, inputs1: Level, input: seq<Entry>,
                    outputs: Level, edit: VersionEdit, r: Record, db': Db)
    requires |db.st.levels| == kNumLevels && CompactStep(db, level, inputs0, inputs1, input, outputs, edit, r, db')
    ensures db'.st.hist == db.st.hist
  {
  }

  /** Every step keeps the invariant, and the history only grows: by the batch in
      flight when it is applied, and by nothing otherwise. */
  lemma DbStepInv(db: Db, db': Db)
    requires DbInv(db) && DbStep(db, db')
    ensures DbInv(db')
    ensures db'.st.hist == db.st.hist || db'.st.hist == Logged(db)
  {
    hide DbInv, FileStep, SnapshotStep, ReaderStep, PendingStep, CollectStep;
    if LogStep(db, db') {
      var ops :| && db.inflight.None? && db.logFile in db.disk.logs
                 && |db.st.hist| + |ops| < kMaxSequenceNumber && db' == AfterLog(db, ops);
      LogStepInv(db, ops);
    } else if db.inflight.Some? && db' == AfterApply(db) {
      ApplyStepInv(db);
    } else if db.inflight.None? && db.st.imm == None && db' == AfterRotate(db) {
      RotateStepInv(db);
    } else if FileStep(db, db') {
      FileStepInv(db, db');
    } else {
      OtherStepInv(db, db');
    }
  }

  lemma OtherStepInv(db: Db, db': Db)
    requires DbInv(db)
    requires SnapshotStep(db, db') || ReaderStep(db, db') || PendingStep(db, db') || CollectStep(db, db')
    ensures DbInv(db') && db'.st.hist == db.st.hist
  {
    hide DbInv;
    if SnapshotStep(db, db') {
      SnapshotStepInv(db, db');
    } else if ReaderStep(db, db') {
      ReaderStepInv(db, db');
    } else if PendingStep(db, db') {
      PendingStepInv(db, db');
    } else {
      CollectStepInv(db, db');
    }
  }

  ghost predicate PhaseStep(p: Phase, p': Phase)
    requires PhaseInv(p)
  {
    match (p, p')
    case (Running(db), Running(db')) => DbStep(db, db')
    case (Running(db), Down(disk, hist)) => CrashStep(db, disk, hist)
    case (Down(disk, hist), Recovering(rec)) => BeginStep(disk, hist, rec)
    case (Recovering(rec), Recovering(rec')) => ReplayStep(rec, rec') || exists f :: RecoverFlushStep(rec, f, rec')
    case (Recovering(rec), Running(db)) => exists log :: CommitStep(rec, log, db)
    case (Recovering(rec), Down(disk, hist)) => AbortStep(rec, disk, hist)
    case _ => false
  }

  lemma PhaseStepInv(p: Phase, p': Phase)
    requires PhaseInv(p) && PhaseStep(p, p')
    ensures PhaseInv(p')
    ensures Written(p) <= Written(p')
    ensures Written(p') == Written(p) || (p.Running? && Written(p') == Logged(p.db))
  {
    hide DbInv, DiskInv, RecInv, CrashStep, BeginStep, ReplayStep, RecoverFlushStep, CommitStep, AbortStep, DbStep;
    match (p, p')
    case (Running(db), Running(db')) =>
      DbStepInv(db, db');
    case (Running(db), Down(disk, hist)) =>
      CrashLeaves(db, disk, hist);
    case (Down(disk, hist), Recovering(rec)) =>
      BeginStepInv(disk, hist, rec);
      BeginHist(disk, hist, rec);
    case (Recovering(rec), Recovering(rec')) =>
      assert Inv(rec.st) by {
        RecoveredInv(rec);
      }
      if ReplayStep(rec, rec') {
        ReplayStepInv(rec, rec');
        ReplayHist(rec, rec');
      } else {
        var f :| RecoverFlushStep(rec, f, rec');
        RecoverFlushStepInv(rec, f, rec');
        RecoverFlushHist(rec, f, rec');
      }
    case (Recovering(rec), Running(db)) =>
      var log :| CommitStep(rec, log, db);
      CommitStepInv(rec, log, db);
    case (Recovering(rec), Down(disk, hist)) =>
      var hi := AbortLeaves(rec, disk, hist);
      AbortHist(rec, disk, hist);
  }

  lemma RecoveredInv(rec: Rec)
    requires RecInv(rec)
    ensures Inv(rec.st)
  {
  }

  lemma BeginHist(disk: Disk, hist: seq<Op>, rec: Rec)
    requires BeginStep(disk, hist, rec)
    ensures rec.hist == hist
  {
  }

  lemma ReplayHist(rec: Rec, rec': Rec)
    requires Inv(rec.st) && ReplayStep(rec, rec')
    ensures rec'.hist == rec.hist
  {
  }

  lemma RecoverFlushHist(rec: Rec, f: FileMetaData, rec': Rec)
    requires RecoverFlushStep(rec, f, rec')
    ensures rec'.hist == rec.hist
  {
  }

  lemma AbortHist(rec: Rec, disk: Disk, hist: seq<Op>)
    requires AbortStep(rec, disk, hist)
    ensures hist == rec.hist
  {
  }

  // ---------------------------------------------------------------- a new database

  /** What NewDB leaves: a MANIFEST with one record, and nothing else. */
  const NewDb: Disk := Disk([Record(VersionEdit({}, []), Some(0), Some(2), Some(0))], map[], map[])

  lemma NewDbInv()
    ensures DiskInv(NewDb, [], 0, EMPTY.levels, 0, 0)
  {
    hide Inv, NumbersInv, SortedFiles;
    EmptyLevels();
    NoFiles(EMPTY.levels);
    EmptyInv();
    var m := NewDb.manifest;
    assert OnTables([], 0, EMPTY.levels, 2) == EMPTY;
    assert m[..0] == [];
    NewManifest();
  }

  lemma NewManifest()
    ensures ManifestInv(NewDb.manifest, EMPTY.levels, 2)
  {
    EmptyLevels();
    var m := NewDb.manifest;
    AddsSnoc([], m[0]);
    assert [] + [m[0]] == m;
    forall l: nat | l < kNumLevels
      ensures Elements(EMPTY.levels[l]) == FilesOf(m, l)
    {
      FilesOfSnoc([], m[0], l);
    }
  }

  ghost predicate IsRun(run: seq<Phase>) {
    && run != [] && run[0] == Down(NewDb, [])
    && forall i, j :: 0 <= i < j < |run| && j == i + 1 ==> PhaseStepsTo(run[i], run[j])
  }

  ghost predicate PhaseStepsTo(p: Phase, p': Phase) {
    PhaseInv(p) ==> PhaseStep(p, p')
  }

  /** The invariant holds throughout every run, whatever crashes it contains. */
  lemma {:induction false} EveryPhaseInv(run: seq<Phase>, i: nat)
    requires IsRun(run) && i < |run|
    ensures PhaseInv(run[i])
  {
    hide PhaseInv, PhaseStep;
    if i == 0 {
      NewPhaseInv(run[0]);
    } else {
      EveryPhaseInv(run, i - 1);
      assert PhaseStepsTo(run[i - 1], run[i]);
      PhaseStepInv(run[i - 1], run[i]);
    }
  }

  lemma NewPhaseInv(p: Phase)
    requires p == Down(NewDb, [])
    ensures PhaseInv(p)
  {
    hide DiskInv;
    NewDbInv();
  }

  /** Durability: no write that was ever acknowledged is missing from any later state,
      crashes and interrupted recoveries notwithstanding. */
  lemma {:induction false} NothingIsLost(run: seq<Phase>, i: nat, j: nat)
    requires IsRun(run) && i <= j < |run|
    ensures Written(run[i]) <= Written(run[j])
    decreases j - i
  {
    hide PhaseInv, PhaseStep, Written;
    if i < j {
      NothingIsLost(run, i, j - 1);
      EveryPhaseInv(run, j - 1);
      assert PhaseStepsTo(run[j - 1], run[j]);
      PhaseStepInv(run[j - 1], run[j]);
    }
  }

  /** Nothing is made up: from a crash to the end of the recovery that follows, the
      recovered history is the one acknowledged before the crash, or that and the one
      batch in flight, applied as a whole. */
  lemma {:induction false} RecoveredExactly(run: seq<Phase>, i: nat, j: nat)
    requires IsRun(run) && i < j < |run| && run[i].Running?
    requires forall k :: i < k < j ==> !run[k].Running?
    ensures Written(run[j]) == Written(run[i]) || Written(run[j]) == Logged(run[i].db)
    decreases j - i
  {
    hide PhaseInv, PhaseStep, Written, Logged;
    EveryPhaseInv(run, j - 1);
    assert PhaseStepsTo(run[j - 1], run[j]);
    PhaseStepInv(run[j - 1], run[j]);
    if i < j - 1 {
      RecoveredExactly(run, i, j - 1);
    }
  }

  /** Every read of an open database, before or after any number of crashes, answers what
      the history of acknowledged writes says. */
  lemma ReadsAfterCrashes(run: seq<Phase>, i: nat, k: UserKey, s: nat)
    requires IsRun(run) && i < |run| && run[i].Running?
    requires s == |run[i].db.st.hist| || s in run[i].db.st.snapshots
    ensures ValueOf(Searched(run[i].db.st, k, s)) == HistoryGet(Written(run[i]), k, s)
  {
    EveryPhaseInv(run, i);
    assert DbInv(run[i].db);
    SnapshotLive(run[i].db.st, s);
    SearchIsHistory(run[i].db.st, k, s);
  }

  lemma SnapshotLive(st: State, s: nat)
    requires Inv(st) && (s == |st.hist| || s in st.snapshots)
    ensures s >= SmallestSnapshot(st)
  {
    hide FromHistory, MemInv, FilesInv, ReadsInv;
  }

  /** Whatever is running, every table that a live version or a running compaction needs,
      and every log that a recovery would need, is on disk. */
  lemma NeededFilesExist(run: seq<Phase>, i: nat, n: nat)
    requires IsRun(run) && i < |run| && run[i].Running? && LiveTable(run[i].db, n)
    ensures n in run[i].db.disk.tables
    ensures run[i].db.logFile in run[i].db.disk.logs
  {
    EveryPhaseInv(run, i);
    var db := run[i].db;
    assert DbInv(db);
    if j :| 0 <= j < |db.versions| && InVersion(db.versions[j], n) {
      assert Held(db, db.versions[j]);
    }
  }
}
