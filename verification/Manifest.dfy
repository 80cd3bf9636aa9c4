/** The MANIFEST: the sequence of version edits on disk, and the VersionSet that
    appends to it and is rebuilt from it. */
module Manifest {
  import opened DbFormat
  import opened Version
  import opened VersionBuilder
  import opened DbState
  import opened DbSteps

  /** One MANIFEST record.  The numbers are absent from the record that WriteSnapshot
      puts first; LogAndApply sets all of them. */
  datatype Record = Record(
    edit: VersionEdit, logNumber: Option<nat>, nextFile: Option<nat>, lastSequence: Option<nat>)

  ghost function Edits(m: seq<Record>): seq<VersionEdit> {
    seq(|m|, i requires 0 <= i < |m| => m[i].edit)
  }

  /** The files of level `l` that the records leave, starting from nothing. */
  ghost function FilesOf(m: seq<Record>, l: nat): set<FileMetaData> {
    FilesAfter({}, Edits(m), l)
  }

  lemma FilesOfSnoc(m: seq<Record>, r: Record, l: nat)
    ensures FilesOf(m + [r], l) == NextFiles(FilesOf(m, l), r.edit, l)
  {
    assert Edits(m + [r]) == Edits(m) + [r.edit];
    FilesAfterSnoc({}, Edits(m), r.edit, l);
  }

  // ------------------------------------------------------- a number is added once

  /** The (level, number) pairs an edit adds. */
  ghost function AddsOf(edit: VersionEdit): set<(nat, nat)> {
    set p | p in edit.newFiles :: (p.0, p.1.number)
  }

  ghost function Adds(m: seq<Record>): set<(nat, nat)> {
    if m == [] then {} else Adds(m[..|m| - 1]) + AddsOf(m[|m| - 1].edit)
  }

  /** No record adds a number to a level that an earlier one has added it to. */
  ghost predicate FreshManifest(m: seq<Record>) {
    m == [] || (
      && FreshManifest(m[..|m| - 1])
      && ValidEdit(m[|m| - 1].edit)
      && AddsOf(m[|m| - 1].edit) !! Adds(m[..|m| - 1]))
  }

  lemma AddsSnoc(m: seq<Record>, r: Record)
    ensures Adds(m + [r]) == Adds(m) + AddsOf(r.edit)
    ensures FreshManifest(m + [r]) <==> FreshManifest(m) && ValidEdit(r.edit) && AddsOf(r.edit) !! Adds(m)
  {
    assert (m + [r])[..|m|] == m;
  }

  /** A file's number has never been added below the level the file is at. */
  ghost predicate OnlyAbove(adds: set<(nat, nat)>, levels: seq<Level>) {
    forall l: nat, l': nat, f :: l < |levels| && l < l' && f in levels[l] ==> (l', f.number) !in adds
  }

  ghost predicate AddsBelow(adds: set<(nat, nat)>, nextFile: nat) {
    forall p :: p in adds ==> p.1 < nextFile
  }

  /** The MANIFEST describes the current version. */
  ghost predicate ManifestInv(m: seq<Record>, levels: seq<Level>, nextFile: nat) {
    && |levels| == kNumLevels
    && FreshManifest(m)
    && (forall l :: 0 <= l < kNumLevels ==> SortedFiles(levels[l]) && Elements(levels[l]) == FilesOf(m, l))
    && AddsBelow(Adds(m), nextFile)
    && OnlyAbove(Adds(m), levels)
  }

  /** An edit whose new files all have numbers never used before. */
  ghost predicate AllNew(edit: VersionEdit, nextFile: nat, nextFile': nat) {
    && ValidEdit(edit)
    && (forall i :: 0 <= i < |edit.newFiles| ==> nextFile <= edit.newFiles[i].1.number < nextFile')
    && forall i, j :: 0 <= i < j < |edit.newFiles| ==> edit.newFiles[i].1.number != edit.newFiles[j].1.number
  }

  lemma EditedMembers(levels: seq<Level>, edit: VersionEdit, levels': seq<Level>, l: nat, f: FileMetaData)
    requires |levels| == kNumLevels && Edited(levels, edit, levels') && l < kNumLevels && f in levels'[l]
    ensures (f in levels[l] && (l, f.number) !in edit.deletedFiles) || (l, f) in edit.newFiles
  {
    assert f in Elements(levels'[l]);
    DeletedAtIff(edit, l, f.number);
  }

  lemma DeletedAtIff(edit: VersionEdit, l: nat, n: nat)
    ensures n in DeletedAt(edit, l) <==> (l, n) in edit.deletedFiles
  {
    assert (l, n).0 == l && (l, n).1 == n;
  }

  lemma OldNumber(levels: seq<Level>, nextFile: nat, l: nat, f: FileMetaData)
    requires NumbersInv(levels, nextFile) && l < |levels| && f in levels[l]
    ensures f.number < nextFile
  {
  }

  /** Flushes, compactions and recovery add only new numbers. */
  lemma AppendNew(m: seq<Record>, levels: seq<Level>, nextFile: nat, r: Record, levels': seq<Level>, nextFile': nat)
    requires ManifestInv(m, levels, nextFile) && NumbersInv(levels, nextFile)
    requires Edited(levels, r.edit, levels') && AllNew(r.edit, nextFile, nextFile') && nextFile <= nextFile'
    ensures ManifestInv(m + [r], levels', nextFile')
  {
    hide NumbersInv, NextFiles, SortedFiles, ValidEdit, FilesOf;
    AddsSnoc(m, r);
    forall l | 0 <= l < kNumLevels
      ensures Elements(levels'[l]) == FilesOf(m + [r], l)
    {
      FilesOfSnoc(m, r, l);
    }
    forall l: nat, l': nat, f | l < kNumLevels && l < l' && f in levels'[l]
      ensures (l', f.number) !in Adds(m) + AddsOf(r.edit)
    {
      EditedMembers(levels, r.edit, levels', l, f);
      if f in levels[l] {
        OldNumber(levels, nextFile, l, f);
      }
    }
  }

  /** A trivial move adds a number to a level it has never been at. */
  lemma AppendMove(m: seq<Record>, levels: seq<Level>, nextFile: nat, r: Record, levels': seq<Level>, level: nat, f: FileMetaData)
    requires ManifestInv(m, levels, nextFile) && NumbersInv(levels, nextFile)
    requires level + 1 < kNumLevels && f in levels[level]
    requires r.edit == VersionEdit({(level, f.number)}, [(level + 1, f)]) && Edited(levels, r.edit, levels')
    ensures ManifestInv(m + [r], levels', nextFile)
  {
    hide NumbersInv, NextFiles, SortedFiles, FilesOf;
    AddsSnoc(m, r);
    assert AddsOf(r.edit) == {(level + 1, f.number)};
    OldNumber(levels, nextFile, level, f);
    forall l | 0 <= l < kNumLevels
      ensures Elements(levels'[l]) == FilesOf(m + [r], l)
    {
      FilesOfSnoc(m, r, l);
    }
    forall l: nat, l': nat, g | l < kNumLevels && l < l' && g in levels'[l]
      ensures (l', g.number) !in Adds(m) + AddsOf(r.edit)
    {
      EditedMembers(levels, r.edit, levels', l, g);
      if g in levels[l] && (l, g.number) !in r.edit.deletedFiles && g.number == f.number {
        UniqueNumber(levels, nextFile, l, level, g, f);
      }
    }
  }

  /** The edits the database makes: only new numbers, or a move one level down. */
  ghost predicate Admissible(edit: VersionEdit, levels: seq<Level>, nextFile: nat, nextFile': nat)
    requires |levels| == kNumLevels
  {
    || AllNew(edit, nextFile, nextFile')
    || exists level: nat, f ::
         && level + 1 < kNumLevels && f in levels[level]
         && edit == VersionEdit({(level, f.number)}, [(level + 1, f)])
  }

  lemma AppendAdmissible(m: seq<Record>, levels: seq<Level>, nextFile: nat, r: Record, levels': seq<Level>, nextFile': nat)
    requires ManifestInv(m, levels, nextFile) && NumbersInv(levels, nextFile) && nextFile <= nextFile'
    requires Admissible(r.edit, levels, nextFile, nextFile') && Edited(levels, r.edit, levels')
    ensures ManifestInv(m + [r], levels', nextFile')
  {
    hide NumbersInv, Edited, FilesOf, AllNew, FreshManifest;
    if AllNew(r.edit, nextFile, nextFile') {
      AppendNew(m, levels, nextFile, r, levels', nextFile');
    } else {
      var level: nat, f :|
        && level + 1 < kNumLevels && f in levels[level]
        && r.edit == VersionEdit({(level, f.number)}, [(level + 1, f)]);
      AppendMove(m, levels, nextFile, r, levels', level, f);
    }
  }

  /** An admissible edit can be given to a builder on the current version. */
  lemma ApplicableNow(edit: VersionEdit, levels: seq<Level>, nextFile: nat, nextFile': nat, added: seq<Level>)
    requires |levels| == |added| == kNumLevels && NumbersInv(levels, nextFile)
    requires forall l :: 0 <= l < kNumLevels ==> added[l] == []
    requires Admissible(edit, levels, nextFile, nextFile')
    ensures ValidEdit(edit)
    ensures forall l :: 0 <= l < kNumLevels ==>
              Numbers(NewAt(edit, l)) !! Numbers(Elements(levels[l]) + Elements(added[l]))
  {
    hide NumbersInv, AllNew, Admissible;
    AdmissibleIsValid(edit, levels, nextFile, nextFile');
    forall l: nat, n: nat | l < kNumLevels && n in Numbers(NewAt(edit, l))
      ensures n !in Numbers(Elements(levels[l]) + Elements(added[l]))
    {
      var f :| f in NewAt(edit, l) && f.number == n;
      var p :| p in edit.newFiles && p.0 == l && p.1 == f;
      NewNumberUnused(edit, levels, nextFile, nextFile', l, f);
    }
  }

  lemma AdmissibleIsValid(edit: VersionEdit, levels: seq<Level>, nextFile: nat, nextFile': nat)
    requires |levels| == kNumLevels && Admissible(edit, levels, nextFile, nextFile')
    ensures ValidEdit(edit)
  {
  }

  lemma NewNumberUnused(edit: VersionEdit, levels: seq<Level>, nextFile: nat, nextFile': nat, l: nat, f: FileMetaData)
    requires |levels| == kNumLevels && NumbersInv(levels, nextFile) && Admissible(edit, levels, nextFile, nextFile')
    requires l < kNumLevels && (l, f) in edit.newFiles
    ensures forall g :: g in levels[l] ==> g.number != f.number
  {
    hide NumbersInv;
    forall g | g in levels[l]
      ensures g.number != f.number
    {
      OldNumber(levels, nextFile, l, g);
      if level: nat :| level + 1 < kNumLevels && f in levels[level] && level + 1 == l && g.number == f.number {
        UniqueNumber(levels, nextFile, level, l, f, g);
      }
    }
  }

  lemma OneEdit(levels: seq<Level>, edit: VersionEdit, edits: seq<VersionEdit>, v: seq<Level>)
    requires |levels| == |v| == kNumLevels && edits == [] + [edit]
    requires forall l :: 0 <= l < kNumLevels ==> SortedFiles(v[l]) && Elements(v[l]) == FilesAfter(Elements(levels[l]), edits, l)
    ensures Edited(levels, edit, v)
  {
    hide SortedFiles, NextFiles;
    forall l | 0 <= l < kNumLevels
      ensures Elements(v[l]) == NextFiles(Elements(levels[l]), edit, l)
    {
      FilesAfterSnoc(Elements(levels[l]), [], edit, l);
    }
  }

  // ---------------------------------------------------------------- the numbers

  function LastLogNumber(m: seq<Record>): Option<nat> {
    if m == [] then None
    else if m[|m| - 1].logNumber.Some? then m[|m| - 1].logNumber
    else LastLogNumber(m[..|m| - 1])
  }

  function LastNextFile(m: seq<Record>): Option<nat> {
    if m == [] then None
    else if m[|m| - 1].nextFile.Some? then m[|m| - 1].nextFile
    else LastNextFile(m[..|m| - 1])
  }

  function LastLastSequence(m: seq<Record>): Option<nat> {
    if m == [] then None
    else if m[|m| - 1].lastSequence.Some? then m[|m| - 1].lastSequence
    else LastLastSequence(m[..|m| - 1])
  }

  // ---------------------------------------------------------------- snapshots

  function Tagged(l: nat, files: Level): seq<(nat, FileMetaData)> {
    seq(|files|, i requires 0 <= i < |files| => (l, files[i]))
  }

  /** Every file of the first `n` levels with its level. */
  function AllFiles(levels: seq<Level>, n: nat): seq<(nat, FileMetaData)>
    requires n <= |levels|
  {
    if n == 0 then [] else AllFiles(levels, n - 1) + Tagged(n - 1, levels[n - 1])
  }

  /** The record WriteSnapshot starts a new MANIFEST with. */
  function SnapshotRecord(levels: seq<Level>): Record {
    Record(VersionEdit({}, AllFiles(levels, |levels|)), None, None, None)
  }

  lemma {:induction false} AllFilesMembers(levels: seq<Level>, n: nat, l: nat, f: FileMetaData)
    requires n <= |levels|
    ensures (l, f) in AllFiles(levels, n) <==> l < n && f in levels[l]
  {
    if n > 0 {
      AllFilesMembers(levels, n - 1, l, f);
      var tagged := Tagged(n - 1, levels[n - 1]);
      if l == n - 1 && f in levels[l] {
        var i: nat :| i < |levels[l]| && levels[l][i] == f;
        assert tagged[i] == (l, f);
      }
    }
  }

  lemma {:induction false} AllFilesDistinct(levels: seq<Level>, n: nat, i: nat, j: nat)
    requires n <= |levels| && i < j < |AllFiles(levels, n)|
    requires forall l :: 0 <= l < |levels| ==> DistinctNumbers(levels[l])
    ensures AllFiles(levels, n)[i].0 < n && AllFiles(levels, n)[j].0 < n
    ensures AllFiles(levels, n)[i].0 == AllFiles(levels, n)[j].0 ==>
              AllFiles(levels, n)[i].1.number != AllFiles(levels, n)[j].1.number
  {
    var before := AllFiles(levels, n - 1);
    var k := |before|;
    if j < k {
      AllFilesDistinct(levels, n - 1, i, j);
    } else if i < k {
      assert before[i] in before;
      AllFilesMembers(levels, n - 1, before[i].0, before[i].1);
    }
  }

  /** A snapshot record, applied to nothing, rebuilds the version it was taken from. */
  lemma SnapshotRebuilds(levels: seq<Level>, nextFile: nat)
    requires |levels| == kNumLevels && NumbersInv(levels, nextFile)
    requires forall l :: 0 <= l < kNumLevels ==> SortedFiles(levels[l])
    ensures ManifestInv([SnapshotRecord(levels)], levels, nextFile)
  {
    hide NumbersInv, SortedFiles;
    var r := SnapshotRecord(levels);
    AddsSnoc([], r);
    assert [] + [r] == [r];
    forall l: nat | l < kNumLevels
      ensures DistinctNumbers(levels[l])
    {
      NumbersDistinct(levels, nextFile, l);
    }
    forall l: nat | l < kNumLevels
      ensures Elements(levels[l]) == FilesOf([r], l)
    {
      FilesOfSnoc([], r, l);
      forall f
        ensures f in NewAt(r.edit, l) <==> f in levels[l]
      {
        AllFilesMembers(levels, kNumLevels, l, f);
        assert (l, f) in r.edit.newFiles <==> f in NewAt(r.edit, l) by {
          assert (l, f).0 == l && (l, f).1 == f;
        }
      }
    }
    SnapshotValid(levels);
    SnapshotAdds(levels, nextFile);
  }

  lemma SnapshotValid(levels: seq<Level>)
    requires |levels| == kNumLevels && forall l :: 0 <= l < kNumLevels ==> DistinctNumbers(levels[l])
    ensures ValidEdit(SnapshotRecord(levels).edit)
  {
    var files := AllFiles(levels, kNumLevels);
    forall i: nat | i < |files|
      ensures files[i].0 < kNumLevels
    {
      assert files[i] in files;
      AllFilesMembers(levels, kNumLevels, files[i].0, files[i].1);
    }
    forall i: nat, j: nat | i < j < |files| && files[i].0 == files[j].0
      ensures files[i].1.number != files[j].1.number
    {
      AllFilesDistinct(levels, kNumLevels, i, j);
    }
  }

  lemma SnapshotAdds(levels: seq<Level>, nextFile: nat)
    requires |levels| == kNumLevels && NumbersInv(levels, nextFile)
    ensures AddsBelow(AddsOf(SnapshotRecord(levels).edit), nextFile)
    ensures OnlyAbove(AddsOf(SnapshotRecord(levels).edit), levels)
  {
    hide NumbersInv;
    var edit := SnapshotRecord(levels).edit;
    forall p | p in AddsOf(edit)
      ensures p.1 < nextFile
      ensures forall l: nat, f :: l < kNumLevels && l < p.0 && f in levels[l] ==> f.number != p.1
    {
      var q :| q in edit.newFiles && (q.0, q.1.number) == p;
      AllFilesMembers(levels, kNumLevels, q.0, q.1);
      hide AllFiles;
      NumberElsewhere(levels, nextFile, q.0, q.1);
    }
  }

  /** A file's number is below the next one and is not found at another level. */
  lemma NumberElsewhere(levels: seq<Level>, nextFile: nat, m: nat, g: FileMetaData)
    requires NumbersInv(levels, nextFile) && m < |levels| && g in levels[m]
    ensures g.number < nextFile
    ensures forall l: nat, f :: l < |levels| && l < m && f in levels[l] ==> f.number != g.number
  {
  }

  // ---------------------------------------------------------------- VersionSet

  /** The set of versions: the current one, its counters, and the MANIFEST behind it. */
  class VersionSet {
    var current: seq<Level>
    var logNumber: nat
    var nextFileNumber: nat
    var lastSequence: nat
    var manifestFileNumber: nat
    // The MANIFEST that CURRENT names.
    var manifest: seq<Record>
    // Whether descriptor_log_ is open for appending.
    var descriptorOpen: bool

    ghost predicate Valid()
      reads this
    {
      && |current| == kNumLevels
      && NumbersInv(current, nextFileNumber)
      && ManifestInv(manifest, current, nextFileNumber)
    }

    constructor ()
      ensures current == EMPTY.levels && !descriptorOpen
      ensures manifest == [] && nextFileNumber == 2 && lastSequence == 0 && logNumber == 0
    {
      current := EMPTY.levels;
      logNumber, nextFileNumber, lastSequence, manifestFileNumber := 0, 2, 0, 0;
      manifest, descriptorOpen := [], false;
    }

    /** Rebuild the current version from the MANIFEST that CURRENT names. */
    method Recover() returns (ok: bool)
      requires FreshManifest(manifest)
      modifies this
      ensures manifest == old(manifest) && descriptorOpen == old(descriptorOpen)
      ensures ok <==> && LastNextFile(manifest).Some? && LastLogNumber(manifest).Some?
                      && LastLastSequence(manifest).Some?
      ensures ok ==>
                && logNumber == LastLogNumber(manifest).value
                && manifestFileNumber == LastNextFile(manifest).value
                && nextFileNumber == manifestFileNumber + 1
                && lastSequence == LastLastSequence(manifest).value
                && |current| == kNumLevels
                && forall l :: 0 <= l < kNumLevels ==>
                     SortedFiles(current[l]) && Elements(current[l]) == FilesOf(manifest, l)
    {
      hide ValidEdit, SortedFiles, AddsOf, NewAt;
      var log, next, last: Option<nat> := None, None, None;
      NothingSorted();
      var builder := new Builder(EMPTY.levels);
      assert Edits(manifest[..0]) == [];
      for i := 0 to |manifest|
        invariant fresh(builder) && builder.Valid()
        invariant manifest == old(manifest) && descriptorOpen == old(descriptorOpen)
        invariant builder.applied == Edits(manifest[..i])
        invariant builder.base == EMPTY.levels
        invariant AddedIn(builder.addedFiles, Adds(manifest[..i]))
        invariant log == LastLogNumber(manifest[..i]) && next == LastNextFile(manifest[..i])
        invariant last == LastLastSequence(manifest[..i])
      {
        var r := manifest[i];
        assert manifest[..i + 1] == manifest[..i] + [r];
        FreshPrefix(manifest, i);
        NextIsFresh(builder.base, builder.addedFiles, manifest[..i], r);
        ghost var before := builder.addedFiles;
        builder.Apply(r.edit);
        StillAddedIn(before, builder.addedFiles, manifest[..i], r);
        assert Edits(manifest[..i + 1]) == Edits(manifest[..i]) + [r.edit];
        log := if r.logNumber.Some? then r.logNumber else log;
        next := if r.nextFile.Some? then r.nextFile else next;
        last := if r.lastSequence.Some? then r.lastSequence else last;
      }
      assert manifest[..|manifest|] == manifest;
      ok := next.Some? && log.Some? && last.Some?;
      if ok {
        current := builder.SaveTo();
        manifestFileNumber := next.value;
        nextFileNumber := next.value + 1;
        lastSequence := last.value;
        logNumber := log.value;
      }
    }

    /** The record a new MANIFEST starts with. */
    method WriteSnapshot() returns (r: Record)
      requires |current| == kNumLevels
      ensures r == SnapshotRecord(current)
    {
      var files := [];
      for l := 0 to kNumLevels
        invariant files == AllFiles(current, l)
      {
        for i := 0 to |current[l]|
          invariant files == AllFiles(current, l) + Tagged(l, current[l])[..i]
        {
          files := files + [(l, current[l][i])];
        }
        assert Tagged(l, current[l])[..|current[l]|] == Tagged(l, current[l]);
      }
      r := Record(VersionEdit({}, files), None, None, None);
    }

    /** Install an edit: the new version is the old one with the edit applied, and the
        MANIFEST that CURRENT names describes it. */
    method LogAndApply(edit: VersionEdit, newLog: Option<nat>, ghost next: nat)
      requires |current| == kNumLevels && NumbersInv(current, next) && next <= nextFileNumber
      requires forall l :: 0 <= l < kNumLevels ==> SortedFiles(current[l])
      requires descriptorOpen ==> ManifestInv(manifest, current, next)
      requires Admissible(edit, current, next, nextFileNumber)
      modifies this
      ensures nextFileNumber == old(nextFileNumber) && lastSequence == old(lastSequence)
      ensures descriptorOpen
      ensures logNumber == if newLog.Some? then newLog.value else old(logNumber)
      ensures Edited(old(current), edit, current)
      ensures ManifestInv(manifest, current, nextFileNumber)
      ensures var before := if old(descriptorOpen) then old(manifest) else [SnapshotRecord(old(current))];
              manifest == before + [Record(edit, Some(logNumber), Some(nextFileNumber), Some(lastSequence))]
    {
      hide NumbersInv, SortedFiles, Admissible, Edited, ManifestInv, SnapshotRecord;
      var log := if newLog.Some? then newLog.value else logNumber;
      var r := Record(edit, Some(log), Some(nextFileNumber), Some(lastSequence));
      var v := NextVersion(edit, next);
      if !descriptorOpen {
        SnapshotRebuilds(current, next);
        var first := WriteSnapshot();
        manifest := [first];
        descriptorOpen := true;
      }
      AppendAdmissible(manifest, current, next, r, v, nextFileNumber);
      manifest := manifest + [r];
      current, logNumber := v, log;
    }

    method NextVersion(edit: VersionEdit, ghost next: nat) returns (v: seq<Level>)
      requires |current| == kNumLevels && NumbersInv(current, next)
      requires forall l :: 0 <= l < kNumLevels ==> SortedFiles(current[l])
      requires Admissible(edit, current, next, nextFileNumber)
      ensures Edited(current, edit, v)
    {
      hide NumbersInv, SortedFiles, ValidEdit, Admissible, NewAt;
      var builder := new Builder(current);
      ApplicableNow(edit, current, next, nextFileNumber, builder.addedFiles);
      builder.Apply(edit);
      v := builder.SaveTo();
      OneEdit(current, edit, builder.applied, v);
    }

    method NewFileNumber() returns (n: nat)
      modifies this`nextFileNumber
      ensures n == old(nextFileNumber) && nextFileNumber == n + 1
    {
      n := nextFileNumber;
      nextFileNumber := n + 1;
    }

    method MarkFileNumberUsed(n: nat)
      modifies this`nextFileNumber
      ensures nextFileNumber == if old(nextFileNumber) <= n then n + 1 else old(nextFileNumber)
    {
      if nextFileNumber <= n {
        nextFileNumber := n + 1;
      }
    }
  }

  lemma NothingSorted()
    ensures |EMPTY.levels| == kNumLevels && forall l :: 0 <= l < kNumLevels ==> SortedFiles(EMPTY.levels[l])
    ensures forall l :: 0 <= l < kNumLevels ==> EMPTY.levels[l] == [] && Elements(EMPTY.levels[l]) == {}
  {
    EmptyLevels();
  }

  /** Every file a builder has seen is one the records added. */
  ghost predicate AddedIn(addedFiles: seq<Level>, adds: set<(nat, nat)>) {
    forall l: nat, f :: l < |addedFiles| && f in addedFiles[l] ==> (l, f.number) in adds
  }

  lemma {:induction false} FreshPrefix(m: seq<Record>, i: nat)
    requires FreshManifest(m) && i < |m|
    ensures FreshManifest(m[..i]) && ValidEdit(m[i].edit) && AddsOf(m[i].edit) !! Adds(m[..i])
  {
    if i < |m| - 1 {
      FreshPrefix(m[..|m| - 1], i);
      assert m[..|m| - 1][..i] == m[..i];
    }
  }

  lemma NextIsFresh(base: seq<Level>, addedFiles: seq<Level>, m: seq<Record>, r: Record)
    requires |base| == |addedFiles| == kNumLevels && forall l :: 0 <= l < kNumLevels ==> base[l] == []
    requires AddedIn(addedFiles, Adds(m)) && AddsOf(r.edit) !! Adds(m)
    ensures forall l :: 0 <= l < kNumLevels ==>
              Numbers(NewAt(r.edit, l)) !! Numbers(Elements(base[l]) + Elements(addedFiles[l]))
  {
    forall l: nat, n: nat | l < kNumLevels && n in Numbers(NewAt(r.edit, l))
      ensures n !in Numbers(Elements(base[l]) + Elements(addedFiles[l]))
    {
      var f :| f in NewAt(r.edit, l) && f.number == n;
      var p :| p in r.edit.newFiles && p.0 == l && p.1 == f;
      assert (l, n) in AddsOf(r.edit);
    }
  }

  lemma StillAddedIn(before: seq<Level>, after: seq<Level>, m: seq<Record>, r: Record)
    requires |before| == |after| == kNumLevels && AddedIn(before, Adds(m))
    requires forall l :: 0 <= l < kNumLevels ==> Elements(after[l]) == Elements(before[l]) + NewAt(r.edit, l)
    ensures AddedIn(after, Adds(m + [r]))
  {
    AddsSnoc(m, r);
    forall l: nat, f | l < kNumLevels && f in after[l]
      ensures (l, f.number) in Adds(m) + AddsOf(r.edit)
    {
      assert f in Elements(after[l]);
      if f in NewAt(r.edit, l) {
        var p :| p in r.edit.newFiles && p.0 == l && p.1 == f;
      }
    }
  }
}
