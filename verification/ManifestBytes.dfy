/** The first record of a MANIFEST, from the version to bytes and back. */
module ManifestBytes {
  import opened DbFormat
  import opened Version
  import opened VersionBuilder
  import opened DbState
  import opened Manifest
  import Durable
  import Codec = EditCodec

  /** How internal keys are written. */
  type KeyEncoding = InternalKey -> Bytes

  /** What a record keeps of a file; the entries are in the table itself. */
  function StoredFile(f: FileMetaData, enc: KeyEncoding): Codec.NewFile {
    Codec.NewFile(f.number, f.fileSize, enc(f.smallest), enc(f.largest))
  }

  function StoredFiles(files: seq<(nat, FileMetaData)>, enc: KeyEncoding): (r: seq<(nat, Codec.NewFile)>)
    ensures |r| == |files| && forall i :: 0 <= i < |r| ==> r[i] == (files[i].0, StoredFile(files[i].1, enc))
  {
    seq(|files|, i requires 0 <= i < |files| => (files[i].0, StoredFile(files[i].1, enc)))
  }

  /** VersionSet::WriteSnapshot: the comparator's name, the compaction pointers, all files. */
  function WriteSnapshot(levels: seq<Level>, name: Bytes, pointers: seq<(nat, Bytes)>, enc: KeyEncoding): Codec.Edit {
    Codec.EMPTY.(comparator := Some(name), compactPointers := pointers, newFiles := StoredFiles(AllFiles(levels, |levels|), enc))
  }

  /** What a decoded record means, given the tables: files are found by their numbers, and
      the record has their sizes and ranges. */
  ghost predicate Means(e: Codec.Edit, tables: map<nat, FileMetaData>, enc: KeyEncoding, edit: VersionEdit) {
    && edit.deletedFiles == (set p | p in e.deletedFiles)
    && |edit.newFiles| == |e.newFiles|
    && forall i :: 0 <= i < |e.newFiles| ==>
         MeansFile(e.newFiles[i], tables, enc, edit.newFiles[i])
  }

  ghost predicate MeansFile(p: (nat, Codec.NewFile), tables: map<nat, FileMetaData>, enc: KeyEncoding, q: (nat, FileMetaData)) {
    p.1.number in tables && q == (p.0, tables[p.1.number]) && p.1 == StoredFile(q.1, enc)
  }

  /** A version written as a snapshot record, encoded, decoded and applied to nothing is
      that version again. */
  lemma SnapshotRoundTrip(
    levels: seq<Level>, nextFile: nat, name: Bytes, pointers: seq<(nat, Bytes)>, enc: KeyEncoding, tables: map<nat, FileMetaData>)
    returns (e: Codec.Edit, edit: VersionEdit)
    requires |levels| == kNumLevels && NumbersInv(levels, nextFile) && Durable.HasTables(tables, levels)
    requires forall l :: 0 <= l < kNumLevels ==> SortedFiles(levels[l])
    requires Codec.EditOk(WriteSnapshot(levels, name, pointers, enc))
    ensures Codec.DecodeAll(Codec.Encode(WriteSnapshot(levels, name, pointers, enc)), Codec.EMPTY) == Some(e)
    ensures Means(e, tables, enc, edit) && edit == SnapshotRecord(levels).edit
    ensures ManifestInv([Record(edit, None, None, None)], levels, nextFile)
  {
    hide NumbersInv, SortedFiles, Codec.EditOk, Codec.Encode, Codec.DecodeAll, ManifestInv;
    e := WriteSnapshot(levels, name, pointers, enc);
    Codec.EditRoundTrip(e, []);
    assert [] + e.compactPointers == e.compactPointers;
    edit := SnapshotRecord(levels).edit;
    SnapshotRebuilds(levels, nextFile);
    forall i | 0 <= i < |e.newFiles|
      ensures MeansFile(e.newFiles[i], tables, enc, edit.newFiles[i])
    {
      var p := edit.newFiles[i];
      AllFilesMembers(levels, kNumLevels, p.0, p.1);
    }
  }

  /** A record means one edit at most. */
  lemma MeansOne(e: Codec.Edit, tables: map<nat, FileMetaData>, enc: KeyEncoding, a: VersionEdit, b: VersionEdit)
    requires Means(e, tables, enc, a) && Means(e, tables, enc, b)
    ensures a == b
  {
    assert a.newFiles == b.newFiles;
  }
}
