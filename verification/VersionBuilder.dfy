/** VersionSet::Builder: applying a whole sequence of edits to a version at once. */
module VersionBuilder {
  import opened DbFormat
  import opened Version

  /** The part of a VersionEdit that changes the file lists. */
  datatype VersionEdit = VersionEdit(deletedFiles: set<(nat, nat)>, newFiles: seq<(nat, FileMetaData)>)

  /** BySmallestKey: smallest key first, ties broken by file number. */
  predicate FileLess(f: FileMetaData, g: FileMetaData) {
    Before(f.smallest, g.smallest) || (f.smallest == g.smallest && f.number < g.number)
  }

  ghost predicate SortedFiles(files: Level) {
    forall i, j :: 0 <= i < j < |files| ==> FileLess(files[i], files[j])
  }

  /** Sorted file lists with the same members are the same list. */
  lemma {:induction false} SortedFilesUnique(a: Level, b: Level)
    requires SortedFiles(a) && SortedFiles(b)
    requires forall f :: f in a <==> f in b
    ensures a == b
  {
    if a != [] || b != [] {
      assert (a != [] ==> a[0] in b) && (b != [] ==> b[0] in a);
      assert a[0] == b[0];
      assert a == [a[0]] + a[1..] && b == [b[0]] + b[1..];
      forall f
        ensures f in a[1..] <==> f in b[1..]
      {
        HeadNotInTail(a);
        HeadNotInTail(b);
        assert f in a <==> f == a[0] || f in a[1..];
        assert f in b <==> f == b[0] || f in b[1..];
      }
      SortedFilesUnique(a[1..], b[1..]);
    }
  }

  lemma HeadNotInTail(a: Level)
    requires SortedFiles(a) && a != []
    ensures a[0] !in a[1..]
  {
  }

  // ---------------------------------------------------------------- one level

  /** Insertion into the ordered set of added files. */
  function InsertFile(added: Level, f: FileMetaData): (r: Level)
    requires SortedFiles(added)
    requires forall g :: g in added && g.smallest == f.smallest && g.number == f.number ==> g == f
    ensures SortedFiles(r)
    ensures forall g :: g in r <==> g in added || g == f
  {
    if added == [] then [f]
    else if FileLess(f, added[0]) then
      assert added == [added[0]] + added[1..];
      [f] + added
    else if f == added[0] then added
    else
      var rest := InsertFile(added[1..], f);
      assert added == [added[0]] + added[1..];
      assert forall g :: g in rest ==> FileLess(added[0], g);
      [added[0]] + rest
  }

  /** The list that SaveTo must produce for one level. */
  ghost predicate IsSaved(r: Level, base: Level, added: Level, deleted: set<nat>) {
    && SortedFiles(r)
    && forall f :: f in r <==> (f in base || f in added) && f.number !in deleted
  }

  /** No added file has the sort key of a base file. */
  ghost predicate Separate(base: Level, added: Level) {
    forall f, g :: f in base && g in added ==> f.number != g.number
  }

  /** First position whose file sorts after `f`. */
  method UpperBound(files: Level, from: nat, f: FileMetaData) returns (pos: nat)
    requires SortedFiles(files) && from <= |files|
    ensures from <= pos <= |files|
    ensures forall i :: from <= i < pos ==> !FileLess(f, files[i])
    ensures forall i :: pos <= i < |files| ==> FileLess(f, files[i])
  {
    var hi := |files|;
    pos := from;
    while pos < hi
      invariant from <= pos <= hi <= |files|
      invariant forall i :: from <= i < pos ==> !FileLess(f, files[i])
      invariant forall i :: hi <= i < |files| ==> FileLess(f, files[i])
    {
      var mid := (pos + hi) / 2;
      if FileLess(f, files[mid]) {
        hi := mid;
      } else {
        pos := mid + 1;
      }
    }
  }

  /** What the output list must look like when `b` base files and `a` added files
      have been offered to it. */
  ghost predicate Merged(r: Level, base: Level, b: nat, added: Level, a: nat, deleted: set<nat>)
    requires b <= |base| && a <= |added|
  {
    && SortedFiles(r)
    && (forall f :: f in r <==> (f in base[..b] || f in added[..a]) && f.number !in deleted)
    && (forall f, i :: f in r && b <= i < |base| ==> FileLess(f, base[i]))
    && (forall f, i :: f in r && a <= i < |added| ==> FileLess(f, added[i]))
  }

  /** MaybeAddFile. */
  function MaybeAddFile(r: Level, f: FileMetaData, deleted: set<nat>): Level {
    if f.number in deleted then r else r + [f]
  }

  lemma SortedSnoc(r: Level, f: FileMetaData)
    requires SortedFiles(r) && forall g :: g in r ==> FileLess(g, f)
    ensures SortedFiles(r + [f])
  {
  }

  lemma OfferBase(r: Level, base: Level, b: nat, added: Level, a: nat, deleted: set<nat>)
    requires SortedFiles(base) && b < |base| && a <= |added|
    requires Merged(r, base, b, added, a, deleted)
    requires forall i :: a <= i < |added| ==> FileLess(base[b], added[i])
    ensures Merged(MaybeAddFile(r, base[b], deleted), base, b + 1, added, a, deleted)
  {
    assert base[..b + 1] == base[..b] + [base[b]];
    if base[b].number !in deleted {
      SortedSnoc(r, base[b]);
    }
  }

  lemma OfferAdded(r: Level, base: Level, b: nat, added: Level, a: nat, deleted: set<nat>)
    requires SortedFiles(added) && b <= |base| && a < |added|
    requires Merged(r, base, b, added, a, deleted)
    requires forall i :: b <= i < |base| ==> FileLess(added[a], base[i])
    ensures Merged(MaybeAddFile(r, added[a], deleted), base, b, added, a + 1, deleted)
  {
    assert added[..a + 1] == added[..a] + [added[a]];
    if added[a].number !in deleted {
      SortedSnoc(r, added[a]);
    }
  }

  lemma FileLessTotal(f: FileMetaData, g: FileMetaData)
    requires f.number != g.number
    ensures FileLess(f, g) || FileLess(g, f)
  {
  }

  /** SaveTo for one level: a merge of two sorted lists that skips deleted files. */
  method SaveLevel(base: Level, added: Level, deleted: set<nat>) returns (r: Level)
    requires SortedFiles(base) && SortedFiles(added) && Separate(base, added)
    ensures IsSaved(r, base, added, deleted)
  {
    hide SortedFiles, FileLess;
    r := [];
    var b := 0;
    Nothing();
    for a := 0 to |added|
      invariant b <= |base| && Merged(r, base, b, added, a, deleted)
    {
      var bpos := UpperBound(base, b, added[a]);
      while b < bpos
        invariant b <= bpos && Merged(r, base, b, added, a, deleted)
      {
        forall i | a <= i < |added|
          ensures FileLess(base[b], added[i])
        {
          assert added[a] in added && base[b] in base;
          FileLessTotal(base[b], added[a]);
          SortedFrom(added, a, i, base[b]);
        }
        OfferBase(r, base, b, added, a, deleted);
        r := MaybeAddFile(r, base[b], deleted);
        b := b + 1;
      }
      OfferAdded(r, base, b, added, a, deleted);
      r := MaybeAddFile(r, added[a], deleted);
    }
    while b < |base|
      invariant b <= |base| && Merged(r, base, b, added, |added|, deleted)
    {
      OfferBase(r, base, b, added, |added|, deleted);
      r := MaybeAddFile(r, base[b], deleted);
      b := b + 1;
    }
    assert base[..|base|] == base && added[..|added|] == added;
  }

  lemma Nothing()
    ensures SortedFiles([])
  {
  }

  lemma SortedFrom(files: Level, i: nat, j: nat, f: FileMetaData)
    requires SortedFiles(files) && i <= j < |files| && FileLess(f, files[i])
    ensures FileLess(f, files[j])
  {
  }

  // ---------------------------------------------------------------- whole versions

  ghost function DeletedAt(edit: VersionEdit, l: nat): set<nat> {
    set p | p in edit.deletedFiles && p.0 == l :: p.1
  }

  ghost function NewAt(edit: VersionEdit, l: nat): set<FileMetaData> {
    set p | p in edit.newFiles && p.0 == l :: p.1
  }

  ghost function Numbers(files: set<FileMetaData>): set<nat> {
    set f | f in files :: f.number
  }

  /** One edit applied to the files of one level: deletions first, then additions. */
  ghost function NextFiles(files: set<FileMetaData>, edit: VersionEdit, l: nat): set<FileMetaData> {
    (set f | f in files && f.number !in DeletedAt(edit, l)) + NewAt(edit, l)
  }

  /** A sequence of edits, one version at a time. */
  ghost function FilesAfter(files: set<FileMetaData>, edits: seq<VersionEdit>, l: nat): set<FileMetaData> {
    if edits == [] then files
    else NextFiles(FilesAfter(files, edits[..|edits| - 1], l), edits[|edits| - 1], l)
  }

  ghost predicate ValidEdit(edit: VersionEdit) {
    && (forall i :: 0 <= i < |edit.newFiles| ==> edit.newFiles[i].0 < kNumLevels)
    && (forall p :: p in edit.deletedFiles ==> p.0 < kNumLevels)
    && forall i, j :: 0 <= i < j < |edit.newFiles| && edit.newFiles[i].0 == edit.newFiles[j].0 ==>
         edit.newFiles[i].1.number != edit.newFiles[j].1.number
  }

  /** The files that survive when everything added is pooled with the base. */
  ghost function Pooled(base: Level, added: Level, deleted: set<nat>): set<FileMetaData> {
    set f | f in Elements(base) + Elements(added) && f.number !in deleted
  }

  class Builder {
    const base: seq<Level>
    var deletedFiles: seq<set<nat>>
    var addedFiles: seq<Level>
    ghost var applied: seq<VersionEdit>

    ghost predicate Valid0()
      reads this
    {
      && |base| == |deletedFiles| == |addedFiles| == kNumLevels
      && (forall l :: 0 <= l < kNumLevels ==> SortedFiles(base[l]) && SortedFiles(addedFiles[l]))
      && (forall l :: 0 <= l < kNumLevels ==> Separate(base[l], addedFiles[l]))
    }

    ghost predicate Valid()
      reads this
    {
      && Valid0()
      && forall l :: 0 <= l < kNumLevels ==>
           Pooled(base[l], addedFiles[l], deletedFiles[l]) == FilesAfter(Elements(base[l]), applied, l)
    }

    /** A file number is added to a level at most once. */
    ghost predicate FreshNumbers(edit: VersionEdit)
      requires Valid0()
      reads this
    {
      forall l :: 0 <= l < kNumLevels ==>
        Numbers(NewAt(edit, l)) !! Numbers(Elements(base[l]) + Elements(addedFiles[l]))
    }

    constructor (base: seq<Level>)
      requires |base| == kNumLevels && forall l :: 0 <= l < kNumLevels ==> SortedFiles(base[l])
      ensures Valid() && this.base == base && applied == []
      ensures forall l :: 0 <= l < kNumLevels ==> addedFiles[l] == []
    {
      this.base := base;
      deletedFiles := seq(kNumLevels, _ => {});
      addedFiles := seq(kNumLevels, _ => []);
      applied := [];
    }

    /** Record the deletions of one edit. */
    method DeleteAll(edit: VersionEdit)
      requires ValidEdit(edit) && |deletedFiles| == kNumLevels
      modifies this`deletedFiles
      ensures |deletedFiles| == kNumLevels
      ensures forall l :: 0 <= l < kNumLevels ==> deletedFiles[l] == old(deletedFiles)[l] + DeletedAt(edit, l)
    {
      var del := edit.deletedFiles;
      ghost var done := {};
      while del != {}
        invariant done + del == edit.deletedFiles && done !! del
        invariant |deletedFiles| == kNumLevels
        invariant forall l :: 0 <= l < kNumLevels ==>
                    deletedFiles[l] == old(deletedFiles)[l] + (set p | p in done && p.0 == l :: p.1)
        decreases del
      {
        var p :| p in del;
        assert p in edit.deletedFiles;
        deletedFiles := deletedFiles[p.0 := deletedFiles[p.0] + {p.1}];
        del, done := del - {p}, done + {p};
      }
      assert done == edit.deletedFiles;
    }

    method AddOne(level: nat, f: FileMetaData)
      requires Valid0() && level < kNumLevels
      requires forall g :: g in Elements(base[level]) + Elements(addedFiles[level]) ==> g.number != f.number
      modifies this`deletedFiles, this`addedFiles
      ensures Valid0()
      ensures forall l :: 0 <= l < kNumLevels ==>
                && deletedFiles[l] == old(deletedFiles)[l] - (if l == level then {f.number} else {})
                && Elements(addedFiles[l]) == Elements(old(addedFiles)[l]) + (if l == level then {f} else {})
    {
      forall g | g in addedFiles[level]
        ensures g.number != f.number
      {
        assert g in Elements(addedFiles[level]);
      }
      forall g | g in base[level]
        ensures g.number != f.number
      {
        assert g in Elements(base[level]);
      }
      deletedFiles := deletedFiles[level := deletedFiles[level] - {f.number}];
      addedFiles := addedFiles[level := InsertFile(addedFiles[level], f)];
    }

    /** Record the additions of one edit. */
    method AddAll(edit: VersionEdit)
      requires Valid0() && ValidEdit(edit) && FreshNumbers(edit)
      modifies this`deletedFiles, this`addedFiles
      ensures Valid0()
      ensures forall l :: 0 <= l < kNumLevels ==>
                && deletedFiles[l] == old(deletedFiles)[l] - Numbers(NewAt(edit, l))
                && Elements(addedFiles[l]) == Elements(old(addedFiles)[l]) + NewAt(edit, l)
    {
      hide SortedFiles, Separate, NewAt, Numbers;
      ghost var d0, a0 := deletedFiles, addedFiles;
      NothingNew(edit);
      for i := 0 to |edit.newFiles|
        invariant Valid0()
        invariant forall l :: 0 <= l < kNumLevels ==>
                    && deletedFiles[l] == d0[l] - Numbers(NewAt(Prefix(edit, i), l))
                    && Elements(addedFiles[l]) == Elements(a0[l]) + NewAt(Prefix(edit, i), l)
      {
        var level, f := edit.newFiles[i].0, edit.newFiles[i].1;
        forall l | 0 <= l < kNumLevels
          ensures NewAt(Prefix(edit, i + 1), l) == NewAt(Prefix(edit, i), l) + if l == level then {f} else {}
          ensures Numbers(NewAt(Prefix(edit, i + 1), l)) ==
                  Numbers(NewAt(Prefix(edit, i), l)) + if l == level then {f.number} else {}
        {
          PrefixStep(edit, i, l);
        }
        NumberUnused(edit, i, base[level], a0[level]);
        AddOne(level, f);
      }
      assert Prefix(edit, |edit.newFiles|) == edit;
    }

    /** Apply: whatever the order of edits seen so far, the pooled files are what
        applying them one version at a time would have left. */
    method Apply(edit: VersionEdit)
      requires Valid() && ValidEdit(edit) && FreshNumbers(edit)
      modifies this
      ensures Valid() && applied == old(applied) + [edit]
      ensures forall l :: 0 <= l < kNumLevels ==> Elements(addedFiles[l]) == Elements(old(addedFiles)[l]) + NewAt(edit, l)
    {
      DeleteAll(edit);
      AddAll(edit);
      applied := applied + [edit];
      forall l | 0 <= l < kNumLevels
        ensures Pooled(base[l], addedFiles[l], deletedFiles[l]) == FilesAfter(Elements(base[l]), applied, l)
      {
        PooledStep(base[l], old(addedFiles)[l], old(deletedFiles)[l], addedFiles[l], deletedFiles[l], edit, l);
        FilesAfterSnoc(Elements(base[l]), old(applied), edit, l);
      }
    }

    /** SaveTo: the saved lists are sorted and hold, level by level, exactly the files
        that applying the edits one version at a time leaves. */
    method SaveTo() returns (v: seq<Level>)
      requires Valid()
      ensures |v| == kNumLevels
      ensures forall l :: 0 <= l < kNumLevels ==> SortedFiles(v[l])
      ensures forall l :: 0 <= l < kNumLevels ==> Elements(v[l]) == FilesAfter(Elements(base[l]), applied, l)
    {
      v := [];
      for l := 0 to kNumLevels
        invariant |v| == l
        invariant forall m :: 0 <= m < l ==> SortedFiles(v[m])
        invariant forall m :: 0 <= m < l ==> Elements(v[m]) == FilesAfter(Elements(base[m]), applied, m)
      {
        var files := SaveLevel(base[l], addedFiles[l], deletedFiles[l]);
        assert Elements(files) == Pooled(base[l], addedFiles[l], deletedFiles[l]);
        v := v + [files];
      }
    }
  }

  ghost function Prefix(edit: VersionEdit, i: nat): VersionEdit
    requires i <= |edit.newFiles|
  {
    edit.(newFiles := edit.newFiles[..i])
  }

  lemma NothingNew(edit: VersionEdit)
    ensures forall l :: NewAt(Prefix(edit, 0), l) == {} && Numbers(NewAt(Prefix(edit, 0), l)) == {}
  {
  }

  /** The number of the next new file is used neither by the level nor by the new
      files already inserted. */
  lemma NumberUnused(edit: VersionEdit, i: nat, base: Level, added: Level)
    requires ValidEdit(edit) && i < |edit.newFiles|
    requires Numbers(NewAt(edit, edit.newFiles[i].0)) !! Numbers(Elements(base) + Elements(added))
    ensures forall g :: g in Elements(base) + (Elements(added) + NewAt(Prefix(edit, i), edit.newFiles[i].0)) ==>
              g.number != edit.newFiles[i].1.number
  {
    var l, f := edit.newFiles[i].0, edit.newFiles[i].1;
    assert (l, f) in edit.newFiles;
    assert f in NewAt(edit, l);
    assert f.number in Numbers(NewAt(edit, l));
    forall g | g in Elements(base) + Elements(added)
      ensures g.number != f.number
    {
      assert g.number in Numbers(Elements(base) + Elements(added));
    }
  }

  lemma PrefixStep(edit: VersionEdit, i: nat, l: nat)
    requires i < |edit.newFiles|
    ensures NewAt(Prefix(edit, i + 1), l) ==
            NewAt(Prefix(edit, i), l) + if edit.newFiles[i].0 == l then {edit.newFiles[i].1} else {}
    ensures Numbers(NewAt(Prefix(edit, i + 1), l)) ==
            Numbers(NewAt(Prefix(edit, i), l)) + if edit.newFiles[i].0 == l then {edit.newFiles[i].1.number} else {}
  {
    assert edit.newFiles[..i + 1] == edit.newFiles[..i] + [edit.newFiles[i]];
    assert NewAt(Prefix(edit, i + 1), l) ==
           NewAt(Prefix(edit, i), l) + if edit.newFiles[i].0 == l then {edit.newFiles[i].1} else {};
  }

  lemma FilesAfterSnoc(files: set<FileMetaData>, edits: seq<VersionEdit>, edit: VersionEdit, l: nat)
    ensures FilesAfter(files, edits + [edit], l) == NextFiles(FilesAfter(files, edits, l), edit, l)
  {
    assert (edits + [edit])[..|edits|] == edits;
  }

  /** Pooling commutes with applying an edit whose numbers are new to the level. */
  lemma PooledStep(
    base: Level, added: Level, deleted: set<nat>, added': Level, deleted': set<nat>, edit: VersionEdit, l: nat)
    requires Elements(added') == Elements(added) + NewAt(edit, l)
    requires deleted' == deleted + DeletedAt(edit, l) - Numbers(NewAt(edit, l))
    requires Numbers(NewAt(edit, l)) !! Numbers(Elements(base) + Elements(added))
    ensures Pooled(base, added', deleted') == NextFiles(Pooled(base, added, deleted), edit, l)
  {
    forall f | f in Elements(base) + Elements(added)
      ensures f.number !in Numbers(NewAt(edit, l))
    {
      assert f.number in Numbers(Elements(base) + Elements(added));
    }
    forall f | f in NewAt(edit, l)
      ensures f.number !in deleted'
    {
      assert f.number in Numbers(NewAt(edit, l));
    }
  }
}
