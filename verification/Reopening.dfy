/** A directory left by a crash can always be opened again: recovery has a next step until
    the database runs, and none of its steps can be taken forever. */
module Reopening {
  import opened DbFormat
  import opened Version
  import opened VersionBuilder
  import opened DbState
  import opened DbSteps
  import opened Durable
  import opened Manifest
  import opened Recovery
  import opened DbImpl

  ghost predicate Leads(p: Phase, p': Phase) {
    PhaseInv(p) && PhaseStep(p, p')
  }

  /** One step after another from `p` to `p'`. */
  ghost predicate Path(run: seq<Phase>, p: Phase, p': Phase) {
    && run != [] && run[0] == p && run[|run| - 1] == p'
    && forall i, j :: 0 <= i < j < |run| && j == i + 1 ==> Leads(run[i], run[j])
  }

  lemma PathMore(p: Phase, run: seq<Phase>, p': Phase, p'': Phase)
    requires Leads(p, p') && Path(run, p', p'')
    ensures Path([p] + run, p, p'')
  {
    hide Leads;
    var all := [p] + run;
    forall i, j | 0 <= i < j < |all| && j == i + 1
      ensures Leads(all[i], all[j])
    {
      if i > 0 {
        var h := i - 1;
        assert Leads(run[h], run[i]);
      }
    }
  }

  /** A batch that is left can be replayed. */
  lemma CanReplay(rec: Rec) returns (rec': Rec)
    requires RecInv(rec) && rec.todo != []
    ensures Leads(Recovering(rec), Recovering(rec')) && RecInv(rec') && rec'.hist == rec.hist && |rec'.todo| < |rec.todo|
  {
    hide RecInv;
    rec' := ReplayedOne(rec);
    assert ReplayStep(rec, rec');
  }

  /** A memtable that is not empty can be written out. */
  lemma CanFlush(rec: Rec) returns (rec': Rec)
    requires RecInv(rec) && rec.st.mem != []
    ensures Leads(Recovering(rec), Recovering(rec')) && RecInv(rec') && rec'.hist == rec.hist
    ensures rec'.todo == rec.todo && rec'.st.mem == []
  {
    hide RecInv, Inv, Edited, FileMetaData.Valid, NumbersInv, SortedFiles;
    RecoveredParts(rec);
    var es := rec.st.mem;
    var f := FileMetaData(rec.st.nextFile, 0, es[0].key, es[|es| - 1].key, es);
    MemIsTable(rec.st, f);
    var levels' := WithFile(rec.st.levels, rec.st.nextFile, f);
    rec' := rec.(st := rec.st.(mem := [], levels := levels', nextFile := rec.st.nextFile + 1),
                 added := rec.added + [(0, f)], disk := rec.disk.(tables := rec.disk.tables[f.number := f]));
    assert RecoverFlushStep(rec, f, rec');
    RecoverFlushStepInv(rec, f, rec');
  }

  /** When nothing is left to do, the recovered database can be opened. */
  lemma CanCommit(rec: Rec) returns (db: Db)
    requires RecInv(rec) && rec.todo == [] && rec.st.mem == []
    ensures Leads(Recovering(rec), Running(db)) && db.st.hist == rec.hist
  {
    hide RecInv, CommitStep, Leads, AllBelow, LastLastSequence, DbInv;
    var log := if rec.st.nextFile > rec.hi then rec.st.nextFile else rec.hi;
    LogsBelow(rec, log);
    db := Opened(rec, log);
    CommitStepInv(rec, log, db);
    Committed(rec, log, db);
  }

  lemma Opened(rec: Rec, log: nat) returns (db: Db)
    requires rec.todo == [] && rec.st.mem == [] && |rec.base| == kNumLevels
    requires rec.st.nextFile <= log && AllBelow(rec.disk.logs, log) && LastLastSequence(rec.disk.manifest).Some?
    ensures CommitStep(rec, log, db)
  {
    hide MaxSequence, LogBatches, SnapshotRecord, AllBelow, LastLastSequence;
    var n, last := |rec.st.hist|,
      MaxSequence(LogBatches(rec.disk.logs, rec.logNumber, rec.hi), LastLastSequence(rec.disk.manifest).value);
    db := Db(rec.st.(nextFile := log + 1), log, log, n, n, None, [], {},
             Disk([SnapshotRecord(rec.base), Record(VersionEdit({}, rec.added), Some(log), Some(log + 1), Some(last))],
                  rec.disk.logs[log := []], rec.disk.tables));
  }

  lemma Committed(rec: Rec, log: nat, db: Db)
    requires RecInv(rec) && CommitStep(rec, log, db)
    ensures Leads(Recovering(rec), Running(db))
  {
    hide RecInv, CommitStep;
  }

  lemma LogsBelow(rec: Rec, log: nat)
    requires RecInv(rec) && rec.hi <= log
    ensures AllBelow(rec.disk.logs, log) && LastLastSequence(rec.disk.manifest).Some? && |rec.base| == kNumLevels
  {
    hide Inv, ManifestInv, NumbersInv, HasTables, LogBatches, Chain, Edited, AllNew;
  }

  /** From any point of a recovery some run ends with the database open, and nothing lost or
      made up. */
  lemma {:induction false} RecoveryEnds(rec: Rec) returns (run: seq<Phase>, db: Db)
    requires RecInv(rec)
    ensures Path(run, Recovering(rec), Running(db)) && db.st.hist == rec.hist
    decreases |rec.todo|, |rec.st.mem|
  {
    hide RecInv, Leads, Path;
    if rec.todo != [] {
      var rec' := CanReplay(rec);
      run, db := RecoveryEnds(rec');
      PathMore(Recovering(rec), run, Recovering(rec'), Running(db));
      run := [Recovering(rec)] + run;
    } else if rec.st.mem != [] {
      var rec' := CanFlush(rec);
      run, db := RecoveryEnds(rec');
      PathMore(Recovering(rec), run, Recovering(rec'), Running(db));
      run := [Recovering(rec)] + run;
    } else {
      db := CanCommit(rec);
      run := [Recovering(rec), Running(db)];
      assert Path(run, Recovering(rec), Running(db)) by {
        TwoPhases(Recovering(rec), Running(db));
      }
    }
  }

  lemma TwoPhases(p: Phase, p': Phase)
    requires Leads(p, p')
    ensures Path([p, p'], p, p')
  {
    hide Leads;
  }

  /** Whenever a running database crashes, with its last log record whole or not, there is a
      run from what is left to a running database with exactly the writes that are left. */
  lemma AlwaysOpens(db: Db, disk: Disk, hist: seq<Op>) returns (run: seq<Phase>, db': Db)
    requires DbInv(db) && CrashStep(db, disk, hist)
    ensures Path(run, Down(disk, hist), Running(db')) && db'.st.hist == hist
  {
    hide DbInv, DiskInv, RecInv, CrashStep, Leads, Path;
    CrashLeaves(db, disk, hist);
    var rec := Rec(disk, hist, db.flushed, db.st.levels, db.logNumber, db.logFile + 1,
                   StartOf(db, disk, hist), [], LogBatches(disk.logs, db.logNumber, db.logFile + 1));
    assert BeginStep(disk, hist, rec);
    BeginStepInv(disk, hist, rec);
    run, db' := RecoveryEnds(rec);
    Begun(disk, hist, rec);
    PathMore(Down(disk, hist), run, Recovering(rec), Running(db'));
    run := [Down(disk, hist)] + run;
  }

  ghost function StartOf(db: Db, disk: Disk, hist: seq<Op>): State
    requires DiskInv(disk, hist, db.flushed, db.st.levels, db.logNumber, db.logFile + 1)
  {
    OnTables(hist, db.flushed, db.st.levels, LastNextFileOr0(disk) + 1)
  }

  lemma Begun(disk: Disk, hist: seq<Op>, rec: Rec)
    requires BeginStep(disk, hist, rec)
    ensures Leads(Down(disk, hist), Recovering(rec))
  {
    hide DiskInv;
  }
}
