/** The steps that change the file lists: flush, compaction and trivial move. */
module DbSteps {
  import opened DbFormat
  import opened Version
  import opened Compaction
  import opened InputSelection
  import opened VersionBuilder
  import opened DbState

  /** LogAndApply: the new lists are the old ones with the edit applied. */
  ghost predicate Edited(levels: seq<Level>, edit: VersionEdit, levels': seq<Level>)
    requires |levels| == kNumLevels
  {
    && |levels'| == kNumLevels
    && forall l :: 0 <= l < kNumLevels ==>
         SortedFiles(levels'[l]) && Elements(levels'[l]) == NextFiles(Elements(levels[l]), edit, l)
  }

  // ------------------------------------------------------- levels as sets of files

  ghost function EntriesOf(files: set<FileMetaData>): set<Entry> {
    set f, e | f in files && e in f.entries :: e
  }

  lemma LevelAsSet(files: Level)
    ensures LevelEntries(files) == EntriesOf(Elements(files))
  {
  }

  /** Two files of one level share no internal key. */
  ghost predicate Apart(files: set<FileMetaData>) {
    forall f, g :: f in files && g in files && f != g ==>
      Before(f.largest, g.smallest) || Before(g.largest, f.smallest)
  }

  lemma DisjointIsApart(files: Level)
    requires Disjoint(files)
    ensures Apart(Elements(files))
  {
  }

  lemma ApartIsDisjoint(files: Level)
    requires SortedFiles(files) && ValidFiles(files) && Apart(Elements(files))
    ensures Disjoint(files)
  {
    hide FileMetaData.Valid;
    forall i, j | 0 <= i < j < |files|
      ensures Before(files[i].largest, files[j].smallest)
    {
      assert FileLess(files[i], files[j]);
      SmallestAtOrBeforeLargest(files[i]);
      SmallestAtOrBeforeLargest(files[j]);
      assert files[i] in Elements(files) && files[j] in Elements(files);
    }
  }

  lemma NumbersDistinct(levels: seq<Level>, nextFile: nat, l: nat)
    requires NumbersInv(levels, nextFile) && l < |levels| && SortedFiles(levels[l])
    ensures DistinctNumbers(levels[l])
  {
    forall i, j | 0 <= i < j < |levels[l]|
      ensures levels[l][i].number != levels[l][j].number
    {
      assert FileLess(levels[l][i], levels[l][j]);
      assert levels[l][i] in levels[l] && levels[l][j] in levels[l];
    }
  }

  /** Well-formedness of a version from what is known of its levels as sets. */
  lemma WellFormedFromSets(levels: seq<Level>, nextFile: nat)
    requires |levels| == kNumLevels && NumbersInv(levels, nextFile)
    requires forall l :: 0 <= l < kNumLevels ==> SortedFiles(levels[l])
    requires forall l, f :: 0 <= l < kNumLevels && f in levels[l] ==> f.Valid()
    requires forall l :: 1 <= l < kNumLevels ==> Apart(Elements(levels[l]))
    requires NumberIsRecency(levels[0]) && LevelsNewer(levels) && Coherent(VersionEntries(levels))
    ensures WellFormed(levels)
  {
    hide FileMetaData.Valid, SortedFiles, Apart, NumberIsRecency, LevelsNewer, Coherent, Disjoint, NumbersInv, VersionEntries;
    forall l | 0 <= l < kNumLevels
      ensures ValidFiles(levels[l])
    {
      assert forall i :: 0 <= i < |levels[l]| ==> levels[l][i] in levels[l];
    }
    forall l | 1 <= l < kNumLevels
      ensures Disjoint(levels[l])
    {
      ApartIsDisjoint(levels[l]);
    }
    NumbersDistinct(levels, nextFile, 0);
  }

  lemma FileIsValid(levels: seq<Level>, l: nat, f: FileMetaData)
    requires WellFormed(levels) && l < kNumLevels && f in levels[l]
    ensures f.Valid()
  {
  }

  lemma LevelIsApart(levels: seq<Level>, l: nat)
    requires WellFormed(levels) && 1 <= l < kNumLevels
    ensures Apart(Elements(levels[l]))
  {
    DisjointIsApart(levels[l]);
  }

  // ---------------------------------------------------------------- flush

  /** PickLevelForMemTableOutput's promise about the level it returns. */
  ghost predicate CanPlace(levels: seq<Level>, f: FileMetaData, p: nat)
    requires |levels| == kNumLevels
  {
    && p <= kMaxMemCompactLevel
    && (p > 0 ==> forall l, g :: 0 <= l <= p && g in levels[l] ==>
          !Overlaps(Some(f.smallest.user), Some(f.largest.user), g))
  }

  /** Some file of the level has user keys in the range of `f`. */
  ghost predicate SharesKeys(files: Level, f: FileMetaData) {
    exists g :: g in files && Overlaps(Some(f.smallest.user), Some(f.largest.user), g)
  }

  /** The bytes of those files. */
  function SharedBytes(files: Level, f: FileMetaData): nat {
    TotalFileSize(Overlapping(files, Some(f.smallest.user), Some(f.largest.user)))
  }

  /** The new table is at the level where its way down has to stop.  It leaves a level only if
      nothing in its way shares its keys and not too much does two levels below; and it stays
      only if one of these forbids the next step, or at level 2. */
  ghost predicate StopsAt(levels: seq<Level>, f: FileMetaData, limit: nat, p: nat)
    requires |levels| == kNumLevels
  {
    && p <= 2
    && (p > 0 ==> forall l :: 0 <= l <= p ==> !SharesKeys(levels[l], f))
    && (forall l :: 2 <= l < p + 2 ==> SharedBytes(levels[l], f) <= limit)
    && (p < 2 ==> (p == 0 && SharesKeys(levels[0], f)) || SharesKeys(levels[p + 1], f) || SharedBytes(levels[p + 2], f) > limit)
  }

  /** The new table holds the immutable memtable and has the newest number. */
  ghost predicate TableOf(st: State, f: FileMetaData) {
    st.imm.Some? && f.Valid() && f.entries == st.imm.value && f.number == st.nextFile
  }

  ghost predicate Flushed(st: State, f: FileMetaData, p: nat, st': State)
    requires |st.levels| == kNumLevels && p < kNumLevels
  {
    && Edited(st.levels, VersionEdit({}, [(p, f)]), st'.levels)
    && st' == st.(imm := None, levels := st'.levels, nextFile := st.nextFile + 1)
  }

  lemma FlushFiles(st: State, f: FileMetaData, p: nat, st': State)
    requires |st.levels| == kNumLevels && p < kNumLevels && Flushed(st, f, p, st')
    ensures |st'.levels| == kNumLevels
    ensures forall l, g :: 0 <= l < kNumLevels ==> (g in st'.levels[l] <==> g in st.levels[l] || (l == p && g == f))
  {
    var edit := VersionEdit({}, [(p, f)]);
    forall l | 0 <= l < kNumLevels
      ensures NewAt(edit, l) == if l == p then {f} else {}
    {
    }
    forall l, g | 0 <= l < kNumLevels
      ensures g in st'.levels[l] <==> g in st.levels[l] || (l == p && g == f)
    {
      assert g in st'.levels[l] <==> g in Elements(st'.levels[l]);
    }
  }

  lemma FlushLevelEntries(levels: seq<Level>, levels': seq<Level>, f: FileMetaData, p: nat)
    requires |levels| == |levels'| == kNumLevels && p < kNumLevels
    requires forall l, g :: 0 <= l < kNumLevels ==> (g in levels'[l] <==> g in levels[l] || (l == p && g == f))
    ensures forall l :: 0 <= l < kNumLevels ==>
              LevelEntries(levels'[l]) == LevelEntries(levels[l]) + if l == p then Elements(f.entries) else {}
    ensures VersionEntries(levels') == VersionEntries(levels) + Elements(f.entries)
  {
    forall l | 0 <= l < kNumLevels
      ensures LevelEntries(levels'[l]) == LevelEntries(levels[l]) + if l == p then Elements(f.entries) else {}
    {
    }
    VersionEntriesGrow(levels, levels', Elements(f.entries), p);
  }

  lemma VersionEntriesGrow(levels: seq<Level>, levels': seq<Level>, S: set<Entry>, p: nat)
    requires |levels| == |levels'| && p < |levels|
    requires forall l :: 0 <= l < |levels| ==>
               LevelEntries(levels'[l]) == LevelEntries(levels[l]) + if l == p then S else {}
    ensures VersionEntries(levels') == VersionEntries(levels) + S
  {
    hide LevelEntries;
    forall e | e in S
      ensures e in VersionEntries(levels')
    {
      assert e in LevelEntries(levels'[p]);
    }
  }

  /** A file that overlaps nothing at the levels above its own shares no key with them. */
  lemma PlacedNewer(levels: seq<Level>, f: FileMetaData, p: nat, l: nat)
    requires WellFormed(levels) && f.Valid() && CanPlace(levels, f, p) && l <= p && p > 0
    ensures forall d, e :: d in LevelEntries(levels[l]) && e in f.entries ==> d.key.user != e.key.user
  {
    forall g, d, e | g in levels[l] && d in g.entries && e in f.entries
      ensures d.key.user != e.key.user
    {
      FileIsValid(levels, l, g);
      assert !Overlaps(Some(f.smallest.user), Some(f.largest.user), g);
      InUserRange(g, d);
      InUserRange(f, e);
    }
  }

  lemma FlushLevelsNewer(st: State, levels': seq<Level>, f: FileMetaData, p: nat)
    requires Inv(st) && TableOf(st, f) && CanPlace(st.levels, f, p) && |levels'| == kNumLevels
    requires forall l :: 0 <= l < kNumLevels ==>
               LevelEntries(levels'[l]) == LevelEntries(st.levels[l]) + if l == p then Elements(f.entries) else {}
    ensures LevelsNewer(levels')
  {
    hide FileMetaData.Valid, CanPlace, FilesInv, ReadsInv, FromHistory, SnapshotsInv, LevelEntries;
    assert WellFormed(st.levels) by {
      FilesFacts(st);
    }
    forall i, j, d, e | 0 <= i < j < kNumLevels && d in LevelEntries(levels'[i]) && e in LevelEntries(levels'[j]) && d.key.user == e.key.user
      ensures d.key.sequence > e.key.sequence
    {
      LevelNewer(st.levels, i, j);
      if e in Elements(f.entries) && j == p {
        PlacedNewer(st.levels, f, p, i);
      } else if d in Elements(f.entries) && i == p {
        assert e in VersionEntries(st.levels);
      }
    }
  }

  lemma FilesFacts(st: State)
    requires FilesInv(st)
    ensures WellFormed(st.levels) && |st.levels| == kNumLevels
    ensures forall l :: 0 <= l < kNumLevels ==> SortedFiles(st.levels[l])
    ensures NumbersInv(st.levels, st.nextFile)
  {
  }

  lemma LevelNewer(levels: seq<Level>, i: nat, j: nat)
    requires WellFormed(levels) && i < j < kNumLevels
    ensures Newer(LevelEntries(levels[i]), LevelEntries(levels[j]))
  {
  }

  lemma FlushApart(st: State, levels': seq<Level>, f: FileMetaData, p: nat)
    requires WellFormed(st.levels) && TableOf(st, f) && CanPlace(st.levels, f, p) && |levels'| == kNumLevels
    requires forall l, g :: 0 <= l < kNumLevels ==> (g in levels'[l] <==> g in st.levels[l] || (l == p && g == f))
    ensures forall l :: 1 <= l < kNumLevels ==> Apart(Elements(levels'[l]))
  {
    hide FileMetaData.Valid;
    forall l | 1 <= l < kNumLevels
      ensures Apart(Elements(levels'[l]))
    {
      LevelIsApart(st.levels, l);
      assert forall g :: g in Elements(levels'[l]) ==> g in Elements(st.levels[l]) || (l == p && g == f);
      if l == p {
        forall g | g in st.levels[l]
          ensures Before(f.largest, g.smallest) || Before(g.largest, f.smallest)
        {
          assert !Overlaps(Some(f.smallest.user), Some(f.largest.user), g);
        }
      }
    }
  }

  lemma FlushRecency(st: State, level0: Level, f: FileMetaData, p: nat)
    requires Inv(st) && TableOf(st, f)
    requires forall g :: g in level0 <==> g in st.levels[0] || (p == 0 && g == f)
    ensures NumberIsRecency(level0)
  {
    hide FileMetaData.Valid, ReadsInv, FromHistory, SnapshotsInv;
    assert NumberIsRecency(st.levels[0]);
    forall g | g in st.levels[0]
      ensures g.number < f.number
      ensures Newer(Elements(f.entries), Elements(g.entries))
    {
      assert forall e :: e in g.entries ==> e in LevelEntries(st.levels[0]);
      assert forall e :: e in Elements(g.entries) ==> e in VersionEntries(st.levels);
    }
  }

  lemma FlushNumbers(levels: seq<Level>, levels': seq<Level>, nextFile: nat, f: FileMetaData, p: nat)
    requires NumbersInv(levels, nextFile) && |levels| == |levels'| == kNumLevels && f.number == nextFile
    requires forall l, g :: 0 <= l < kNumLevels ==> (g in levels'[l] <==> g in levels[l] || (l == p && g == f))
    ensures NumbersInv(levels', nextFile + 1)
  {
  }

  /** Flushing the immutable memtable moves its entries and changes no read. */
  lemma FlushInv(st: State, f: FileMetaData, p: nat, st': State)
    requires Inv(st) && TableOf(st, f) && p < kNumLevels
    requires CanPlace(st.levels, f, p) && Flushed(st, f, p, st')
    ensures Inv(st') && Store(st') == Store(st)
  {
    hide FileMetaData.Valid, CanPlace, WellFormed, NumbersInv, FromHistory, ReadsInv, LevelEntries, VersionEntries;
    hide Apart, LevelsNewer, NumberIsRecency, Newer;
    FilesFacts(st);
    FlushFiles(st, f, p, st');
    FlushLevelEntries(st.levels, st'.levels, f, p);
    assert Store(st') == Store(st);
    FlushLevelsNewer(st, st'.levels, f, p);
    FlushApart(st, st'.levels, f, p);
    FlushRecency(st, st'.levels[0], f, p);
    FlushNumbers(st.levels, st'.levels, st.nextFile, f, p);
    FromHistoryCoherent(Store(st), st.hist);
    SubsetCoherent(VersionEntries(st'.levels), Store(st));
    forall l, g | 0 <= l < kNumLevels && g in st'.levels[l]
      ensures g.Valid()
    {
      if g in st.levels[l] {
        FileIsValid(st.levels, l, g);
      }
    }
    WellFormedFromSets(st'.levels, st'.nextFile);
    FlushMem(st, st', f);
    SameReads(st, st');
  }

  lemma FlushMem(st: State, st': State, f: FileMetaData)
    requires MemInv(st) && TableOf(st, f) && st'.mem == st.mem && st'.imm == None
    requires VersionEntries(st'.levels) == VersionEntries(st.levels) + Elements(f.entries)
    ensures MemInv(st')
  {
  }

  /** If the stored entries, the history and the snapshots stay, so do the reads. */
  lemma SameReads(st: State, st': State)
    requires ReadsInv(st) && Store(st') == Store(st) && st'.hist == st.hist && st'.snapshots == st.snapshots
    ensures ReadsInv(st')
  {
  }

  /** An empty immutable memtable produces no table. */
  lemma FlushNothingInv(st: State)
    requires Inv(st) && st.imm == Some([])
    ensures Inv(st.(imm := None, nextFile := st.nextFile + 1))
    ensures Store(st.(imm := None, nextFile := st.nextFile + 1)) == Store(st)
  {
    hide WellFormed, FilesInv, FromHistory, ReadsInv;
    var st' := st.(imm := None, nextFile := st.nextFile + 1);
    assert ImmEntries(st) == {};
    SameFilesInv(st, st');
    SameReads(st, st');
  }

  // ---------------------------------------------------------------- compaction

  ghost function DeletionsOf(level: nat, inputs0: Level, inputs1: Level): set<(nat, nat)> {
    (set f | f in inputs0 :: (level, f.number)) + (set f | f in inputs1 :: (level + 1, f.number))
  }

  /** The edit InstallCompactionResults applies. */
  ghost predicate CompactionEdit(edit: VersionEdit, level: nat, inputs0: Level, inputs1: Level, outputs: Level) {
    && edit.deletedFiles == DeletionsOf(level, inputs0, inputs1)
    && edit.newFiles == seq(|outputs|, i requires 0 <= i < |outputs| => (level + 1, outputs[i]))
  }

  /** The merged input of a compaction: all entries of the chosen files, in order. */
  ghost predicate MergedInput(input: seq<Entry>, inputs0: Level, inputs1: Level) {
    Sorted(input) && Elements(input) == LevelEntries(inputs0) + LevelEntries(inputs1)
  }

  /** The outputs of a compaction hold the kept entries under fresh numbers. */
  ghost predicate OutputsOf(st: State, level: nat, input: seq<Entry>, outputs: Level) {
    && ValidFiles(outputs)
    && Flatten(outputs) == Kept(input, |input|, SmallestSnapshot(st), st.levels, level)
    && ConsecutiveFrom(outputs, st.nextFile)
  }

  /** What is left of level `l` when the inputs are taken out. */
  ghost function LeftFiles(levels: seq<Level>, level: nat, inputs0: Level, inputs1: Level, l: nat): set<FileMetaData>
    requires l < |levels|
  {
    Elements(levels[l]) - (if l == level then Elements(inputs0) else if l == level + 1 then Elements(inputs1) else {})
  }

  ghost predicate Compacted(
    st: State, level: nat, inputs0: Level, inputs1: Level, outputs: Level, edit: VersionEdit, st': State)
    requires |st.levels| == kNumLevels
  {
    && CompactionEdit(edit, level, inputs0, inputs1, outputs)
    && Edited(st.levels, edit, st'.levels)
    && st' == st.(levels := st'.levels, nextFile := st.nextFile + |outputs|)
  }

  /** Deleting by number takes out exactly the chosen files. */
  lemma DeleteChosen(levels: seq<Level>, nextFile: nat, level: nat, inputs0: Level, inputs1: Level, l: nat, f: FileMetaData)
    requires NumbersInv(levels, nextFile) && level + 1 < |levels| && l < |levels| && f in levels[l]
    requires forall g :: g in inputs0 ==> g in levels[level]
    requires forall g :: g in inputs1 ==> g in levels[level + 1]
    ensures (l, f.number) in DeletionsOf(level, inputs0, inputs1) <==>
            (l == level && f in inputs0) || (l == level + 1 && f in inputs1)
  {
  }

  lemma CompactFiles(
    st: State, level: nat, inputs0: Level, inputs1: Level, outputs: Level, edit: VersionEdit, st': State)
    requires |st.levels| == kNumLevels && NumbersInv(st.levels, st.nextFile) && level + 1 < kNumLevels
    requires forall g :: g in inputs0 ==> g in st.levels[level]
    requires forall g :: g in inputs1 ==> g in st.levels[level + 1]
    requires Compacted(st, level, inputs0, inputs1, outputs, edit, st')
    ensures forall l :: 0 <= l < kNumLevels ==>
              Elements(st'.levels[l]) == LeftFiles(st.levels, level, inputs0, inputs1, l) +
                                         if l == level + 1 then Elements(outputs) else {}
  {
    hide NumbersInv, SortedFiles;
    forall l | 0 <= l < kNumLevels
      ensures Elements(st'.levels[l]) == LeftFiles(st.levels, level, inputs0, inputs1, l) +
                                         if l == level + 1 then Elements(outputs) else {}
    {
      NewOutputs(edit, level, inputs0, inputs1, outputs, l);
      forall f | f in Elements(st.levels[l])
        ensures f.number !in DeletedAt(edit, l) <==> f in LeftFiles(st.levels, level, inputs0, inputs1, l)
      {
        DeleteChosen(st.levels, st.nextFile, level, inputs0, inputs1, l, f);
        assert f.number in DeletedAt(edit, l) <==> (l, f.number) in edit.deletedFiles;
      }
      assert (set f | f in Elements(st.levels[l]) && f.number !in DeletedAt(edit, l)) ==
             LeftFiles(st.levels, level, inputs0, inputs1, l);
    }
  }

  lemma NewOutputs(edit: VersionEdit, level: nat, inputs0: Level, inputs1: Level, outputs: Level, l: nat)
    requires CompactionEdit(edit, level, inputs0, inputs1, outputs)
    ensures NewAt(edit, l) == if l == level + 1 then Elements(outputs) else {}
  {
    forall f | f in outputs
      ensures (level + 1, f) in edit.newFiles
    {
      var i :| 0 <= i < |outputs| && outputs[i] == f;
      assert edit.newFiles[i] == (level + 1, f);
    }
    forall p | p in edit.newFiles
      ensures p.0 == level + 1 && p.1 in outputs
    {
    }
    if l == level + 1 {
      forall f | f in outputs
        ensures f in NewAt(edit, l)
      {
        assert (l, f) in edit.newFiles && (l, f).1 == f;
      }
    }
  }

  // --------------------------------------------- outputs

  lemma {:induction false} FlattenMember(files: Level, i: nat, e: Entry)
    requires i < |files| && e in files[i].entries
    ensures e in Flatten(files)
  {
    if i < |files| - 1 {
      FlattenMember(files[..|files| - 1], i, e);
    }
  }

  lemma {:induction false} FlattenEntries(files: Level)
    ensures Elements(Flatten(files)) == LevelEntries(files)
  {
    if files != [] {
      var init, last := files[..|files| - 1], files[|files| - 1];
      assert files == init + [last];
      FlattenEntries(init);
      assert LevelEntries(files) == LevelEntries(init) + Elements(last.entries);
    }
  }

  /** Cutting sorted entries into files gives files that share no internal key. */
  lemma {:induction false} OutputsDisjoint(files: Level)
    requires ValidFiles(files) && Sorted(Flatten(files))
    ensures Disjoint(files)
  {
    if files != [] {
      var init, last := files[..|files| - 1], files[|files| - 1];
      var a, b := Flatten(init), last.entries;
      assert Flatten(files) == a + b;
      assert Sorted(a) by {
        assert forall i :: 0 <= i < |a| ==> a[i] == (a + b)[i];
      }
      OutputsDisjoint(init);
      forall i | 0 <= i < |init|
        ensures Before(files[i].largest, last.smallest)
      {
        var e := files[i].entries[|files[i].entries| - 1];
        FlattenMember(init, i, e);
        var x :| 0 <= x < |a| && a[x] == e;
        assert (a + b)[x] == e && (a + b)[|a|] == last.entries[0];
      }
    }
  }

  // --------------------------------------------- the lower level stays disjoint

  /** A file left out of the lower level lies wholly to one side of the inputs. */
  ghost predicate ToOneSide(g: FileMetaData, input: set<Entry>) {
    || (forall e :: e in input ==> Before(g.largest, e.key))
    || (forall e :: e in input ==> Before(e.key, g.smallest))
  }

  /** Input files of the lower level lie on the same side of a left-out file as the
      range they overlap. */
  lemma SameSideAsRange(lower: Level, lo: UserKey, hi: UserKey, f: FileMetaData, g: FileMetaData, e: Entry)
    requires Apart(Elements(lower)) && f in lower && g in lower
    requires f.Valid() && g.Valid() && e in f.entries
    requires Overlaps(Some(lo), Some(hi), f) && !Overlaps(Some(lo), Some(hi), g)
    ensures if g.largest.user < lo then Before(g.largest, e.key) else Before(e.key, g.smallest)
  {
    hide FileMetaData.Valid;
    InUserRange(f, e);
    SmallestAtOrBeforeLargest(f);
    SmallestAtOrBeforeLargest(g);
    assert f in Elements(lower) && g in Elements(lower);
  }

  lemma InRangeOfAll(files: Level, lo: InternalKey, hi: InternalKey, f: FileMetaData, e: Entry)
    requires IsSmallest(files, lo) && IsLargest(files, hi) && f in files && f.Valid() && e in f.entries
    ensures lo.user <= e.key.user <= hi.user
  {
    hide FileMetaData.Valid;
    InUserRange(f, e);
  }

  lemma LeftOutToOneSide(levels: seq<Level>, level: nat, inputs0: Level, inputs1: Level, g: FileMetaData)
    requires |levels| == kNumLevels && WellFormed(levels) && level + 1 < kNumLevels
    requires GoodInputs(levels, level, inputs0, inputs1)
    requires g in levels[level + 1] && g !in inputs1
    ensures ToOneSide(g, LevelEntries(inputs0) + LevelEntries(inputs1))
  {
    hide FileMetaData.Valid, UpperClosed, WellFormed, IsSmallest, IsLargest, Apart;
    var lower := levels[level + 1];
    var lo: InternalKey, hi: InternalKey :|
      IsSmallest(inputs0, lo) && IsLargest(inputs0, hi) && inputs1 == Overlapping(lower, Some(lo.user), Some(hi.user));
    FileIsValid(levels, level + 1, g);
    SmallestAtOrBeforeLargest(g);
    LevelIsApart(levels, level + 1);
    var before := g.largest.user < lo.user;
    forall e | e in LevelEntries(inputs0) + LevelEntries(inputs1)
      ensures if before then Before(g.largest, e.key) else Before(e.key, g.smallest)
    {
      if f :| f in inputs0 && e in f.entries {
        FileIsValid(levels, level, f);
        InRangeOfAll(inputs0, lo, hi, f, e);
      } else {
        var f :| f in inputs1 && e in f.entries;
        FileIsValid(levels, level + 1, f);
        SameSideAsRange(lower, lo.user, hi.user, f, g, e);
      }
    }
  }

  lemma OneSideApart(g: FileMetaData, input: set<Entry>, f: FileMetaData)
    requires ToOneSide(g, input) && f.Valid() && Elements(f.entries) <= input
    ensures Before(f.largest, g.smallest) || Before(g.largest, f.smallest)
  {
    assert f.entries[0] in Elements(f.entries) && f.entries[|f.entries| - 1] in Elements(f.entries);
  }

  lemma CompactApart(
    levels: seq<Level>, level: nat, inputs0: Level, inputs1: Level, outputs: Level, files: set<FileMetaData>, l: nat)
    requires |levels| == kNumLevels && WellFormed(levels) && level + 1 < kNumLevels && 1 <= l < kNumLevels
    requires GoodInputs(levels, level, inputs0, inputs1)
    requires ValidFiles(outputs) && Sorted(Flatten(outputs))
    requires LevelEntries(outputs) <= LevelEntries(inputs0) + LevelEntries(inputs1)
    requires files == LeftFiles(levels, level, inputs0, inputs1, l) + if l == level + 1 then Elements(outputs) else {}
    ensures Apart(files)
  {
    hide FileMetaData.Valid, WellFormed, GoodInputs, ToOneSide;
    LevelIsApart(levels, l);
    if l == level + 1 {
      OutputsDisjoint(outputs);
      DisjointIsApart(outputs);
      forall f, g | f in Elements(outputs) && g in LeftFiles(levels, level, inputs0, inputs1, l)
        ensures Before(f.largest, g.smallest) || Before(g.largest, f.smallest)
      {
        LeftOutToOneSide(levels, level, inputs0, inputs1, g);
        assert Elements(f.entries) <= LevelEntries(outputs);
        OneSideApart(g, LevelEntries(inputs0) + LevelEntries(inputs1), f);
      }
    }
  }

  // --------------------------------------------- entries before and after

  ghost function LeftEntries(levels: seq<Level>, level: nat, inputs0: Level, inputs1: Level): set<Entry> {
    set l, e | 0 <= l < |levels| && e in EntriesOf(LeftFiles(levels, level, inputs0, inputs1, l)) :: e
  }

  lemma EntriesBefore(levels: seq<Level>, level: nat, inputs0: Level, inputs1: Level)
    requires level + 1 < |levels|
    requires forall f :: f in inputs0 ==> f in levels[level]
    requires forall f :: f in inputs1 ==> f in levels[level + 1]
    ensures VersionEntries(levels) ==
            LeftEntries(levels, level, inputs0, inputs1) + (LevelEntries(inputs0) + LevelEntries(inputs1))
  {
    var left, input := LeftEntries(levels, level, inputs0, inputs1), LevelEntries(inputs0) + LevelEntries(inputs1);
    forall l, f, e | 0 <= l < |levels| && f in levels[l] && e in f.entries
      ensures e in left + input
    {
      if f in LeftFiles(levels, level, inputs0, inputs1, l) {
        assert e in EntriesOf(LeftFiles(levels, level, inputs0, inputs1, l));
      }
    }
    forall e | e in left + input
      ensures e in VersionEntries(levels)
    {
      if e in left {
        var l :| 0 <= l < |levels| && e in EntriesOf(LeftFiles(levels, level, inputs0, inputs1, l));
        assert e in LevelEntries(levels[l]);
      } else if e in LevelEntries(inputs0) {
        assert e in LevelEntries(levels[level]);
      } else {
        assert e in LevelEntries(levels[level + 1]);
      }
    }
  }

  lemma EntriesAfter(levels: seq<Level>, level: nat, inputs0: Level, inputs1: Level, outputs: Level, levels': seq<Level>)
    requires |levels| == |levels'| && level + 1 < |levels|
    requires forall l :: 0 <= l < |levels| ==>
               Elements(levels'[l]) == LeftFiles(levels, level, inputs0, inputs1, l) +
                                       if l == level + 1 then Elements(outputs) else {}
    ensures VersionEntries(levels') == LeftEntries(levels, level, inputs0, inputs1) + LevelEntries(outputs)
    ensures forall l :: 0 <= l < |levels| ==>
              LevelEntries(levels'[l]) == EntriesOf(LeftFiles(levels, level, inputs0, inputs1, l)) +
                                          if l == level + 1 then LevelEntries(outputs) else {}
  {
    hide LeftFiles;
    var left := LeftEntries(levels, level, inputs0, inputs1);
    forall l | 0 <= l < |levels|
      ensures LevelEntries(levels'[l]) == EntriesOf(LeftFiles(levels, level, inputs0, inputs1, l)) +
                                          if l == level + 1 then LevelEntries(outputs) else {}
    {
      LevelAsSet(levels'[l]);
      LevelAsSet(outputs);
      EntriesOfUnion(LeftFiles(levels, level, inputs0, inputs1, l), Elements(outputs));
    }
    hide LevelEntries;
    forall e | e in LevelEntries(outputs)
      ensures e in VersionEntries(levels')
    {
      assert e in LevelEntries(levels'[level + 1]);
    }
  }

  lemma EntriesOfUnion(a: set<FileMetaData>, b: set<FileMetaData>)
    ensures EntriesOf(a + b) == EntriesOf(a) + EntriesOf(b)
    ensures EntriesOf({}) == {}
  {
  }

  // --------------------------------------------- newer above older

  lemma LeftOfLevel(levels: seq<Level>, level: nat, inputs0: Level, inputs1: Level, l: nat)
    requires l < |levels|
    ensures EntriesOf(LeftFiles(levels, level, inputs0, inputs1, l)) <= LevelEntries(levels[l])
  {
  }

  /** What stays at the upper level is newer than everything that is moved. */
  lemma LeftUpperNewer(levels: seq<Level>, level: nat, inputs0: Level, inputs1: Level)
    requires |levels| == kNumLevels && WellFormed(levels) && level + 1 < kNumLevels
    requires GoodInputs(levels, level, inputs0, inputs1)
    ensures Newer(EntriesOf(LeftFiles(levels, level, inputs0, inputs1, level)),
                  LevelEntries(inputs0) + LevelEntries(inputs1))
  {
    hide WellFormed, Overlapping, IsSmallest, IsLargest;
    LevelNewer(levels, level, level + 1);
    LowerMembers(levels, level, inputs0, inputs1);
    forall a, b | a in EntriesOf(LeftFiles(levels, level, inputs0, inputs1, level)) &&
      b in LevelEntries(inputs0) + LevelEntries(inputs1) && a.key.user == b.key.user
      ensures a.key.sequence > b.key.sequence
    {
      var g :| g in levels[level] && g !in inputs0 && a in g.entries;
      if f :| f in inputs0 && b in f.entries {
        assert Newer(Elements(g.entries), Elements(f.entries));
        assert a in Elements(g.entries) && b in Elements(f.entries);
      } else {
        assert a in LevelEntries(levels[level]) && b in LevelEntries(levels[level + 1]);
      }
    }
  }

  lemma LowerMembers(levels: seq<Level>, level: nat, inputs0: Level, inputs1: Level)
    requires level + 1 < |levels| && GoodInputs(levels, level, inputs0, inputs1)
    ensures forall f :: f in inputs0 ==> f in levels[level]
    ensures forall f :: f in inputs1 ==> f in levels[level + 1]
    ensures LevelEntries(inputs0) <= LevelEntries(levels[level])
    ensures LevelEntries(inputs1) <= LevelEntries(levels[level + 1])
  {
  }

  lemma CompactLevelsNewer(levels: seq<Level>, level: nat, inputs0: Level, inputs1: Level, kept: set<Entry>, levels': seq<Level>)
    requires |levels| == |levels'| == kNumLevels && WellFormed(levels) && level + 1 < kNumLevels
    requires GoodInputs(levels, level, inputs0, inputs1)
    requires kept <= LevelEntries(inputs0) + LevelEntries(inputs1)
    requires forall l :: 0 <= l < kNumLevels ==>
               LevelEntries(levels'[l]) == EntriesOf(LeftFiles(levels, level, inputs0, inputs1, l)) +
                                           if l == level + 1 then kept else {}
    ensures LevelsNewer(levels')
  {
    hide WellFormed, GoodInputs, LevelEntries, EntriesOf, LeftFiles;
    LeftUpperNewer(levels, level, inputs0, inputs1);
    LowerMembers(levels, level, inputs0, inputs1);
    forall i, j | 0 <= i < j < kNumLevels
      ensures Newer(LevelEntries(levels'[i]), LevelEntries(levels'[j]))
    {
      LevelNewer(levels, i, j);
      LeftOfLevel(levels, level, inputs0, inputs1, i);
      LeftOfLevel(levels, level, inputs0, inputs1, j);
      if i < level && j == level + 1 {
        LevelNewer(levels, i, level);
      }
      if i == level + 1 {
        LevelNewer(levels, level, j);
      }
    }
  }

  // --------------------------------------------- when dropping is safe

  /** The hypothesis of the second drop rule that the code does not establish: no
      file left out of the lower level continues the last user key of the inputs. */
  ghost predicate LowerClosed(levels: seq<Level>, level: nat, inputs1: Level)
    requires level + 1 < |levels|
  {
    BoundaryClosed(levels[level + 1], inputs1)
  }

  /** A user key whose tombstone is in the upper inputs occurs in no left-out lower file. */
  lemma UpperKeyNotLeft(levels: seq<Level>, level: nat, inputs0: Level, inputs1: Level, f: FileMetaData, e: Entry,
      g: FileMetaData, r: Entry)
    requires |levels| == kNumLevels && WellFormed(levels) && level + 1 < kNumLevels
    requires GoodInputs(levels, level, inputs0, inputs1)
    requires f in inputs0 && e in f.entries && g in levels[level + 1] && g !in inputs1 && r in g.entries
    ensures e.key.user != r.key.user
  {
    hide FileMetaData.Valid, UpperClosed, WellFormed, IsSmallest, IsLargest;
    var lo: InternalKey, hi: InternalKey :|
      IsSmallest(inputs0, lo) && IsLargest(inputs0, hi) && inputs1 == Overlapping(levels[level + 1], Some(lo.user), Some(hi.user));
    FileIsValid(levels, level, f);
    FileIsValid(levels, level + 1, g);
    InRangeOfAll(inputs0, lo, hi, f, e);
    InUserRange(g, r);
    assert !Overlaps(Some(lo.user), Some(hi.user), g);
  }

  /** With the lower inputs closed, what is left of their level is newer for any key
      they share. */
  lemma LowerKeyNewerLeft(levels: seq<Level>, level: nat, inputs0: Level, inputs1: Level, f: FileMetaData, e: Entry,
      g: FileMetaData, r: Entry)
    requires |levels| == kNumLevels && WellFormed(levels) && level + 1 < kNumLevels
    requires GoodInputs(levels, level, inputs0, inputs1) && LowerClosed(levels, level, inputs1)
    requires f in inputs1 && e in f.entries && g in levels[level + 1] && g !in inputs1 && r in g.entries
    requires e.key.user == r.key.user
    ensures r.key.sequence > e.key.sequence
  {
    hide FileMetaData.Valid, UpperClosed, WellFormed, IsSmallest, IsLargest, BoundaryClosed;
    var lo: InternalKey, hi: InternalKey :|
      IsSmallest(inputs0, lo) && IsLargest(inputs0, hi) && inputs1 == Overlapping(levels[level + 1], Some(lo.user), Some(hi.user));
    var lower := levels[level + 1];
    LevelFacts(levels, level + 1);
    var a, b := OverlappingIsSlice(lower, Some(lo.user), Some(hi.user));
    SliceIsRun(lower, a, b);
    RunUpperClosed(lower, inputs1, a, b);
    assert UpperClosed(lower, inputs1);
    assert Newer(Elements(g.entries), Elements(f.entries)) by {
      UseUpperClosed(lower, inputs1, f, g);
    }
    assert r in Elements(g.entries) && e in Elements(f.entries);
  }

  lemma UseUpperClosed(files: Level, chosen: Level, f: FileMetaData, g: FileMetaData)
    requires UpperClosed(files, chosen) && f in chosen && g in files && g !in chosen
    ensures Newer(Elements(g.entries), Elements(f.entries))
  {
  }

  /** An entry outside the inputs that shares a user key with an input tombstone at
      its base level is newer than the tombstone. */
  lemma LeftIsNewer(levels: seq<Level>, level: nat, inputs0: Level, inputs1: Level, e: Entry, r: Entry)
    requires |levels| == kNumLevels && WellFormed(levels) && level + 1 < kNumLevels
    requires GoodInputs(levels, level, inputs0, inputs1) && LowerClosed(levels, level, inputs1)
    requires e in LevelEntries(inputs0) + LevelEntries(inputs1)
    requires BaseLevelForKey(levels, level, e.key.user)
    requires r in LeftEntries(levels, level, inputs0, inputs1) && r.key.user == e.key.user
    ensures r.key.sequence > e.key.sequence
  {
    hide FileMetaData.Valid, WellFormed, GoodInputs, BoundaryClosed;
    var l :| 0 <= l < |levels| && r in EntriesOf(LeftFiles(levels, level, inputs0, inputs1, l));
    var g :| g in LeftFiles(levels, level, inputs0, inputs1, l) && r in g.entries;
    assert r in LevelEntries(levels[l]);
    LowerMembers(levels, level, inputs0, inputs1);
    if l < level {
      LevelNewer(levels, l, level);
      LevelNewer(levels, l, level + 1);
    } else if l == level {
      LeftUpperNewer(levels, level, inputs0, inputs1);
    } else if l == level + 1 {
      if f :| f in inputs0 && e in f.entries {
        UpperKeyNotLeft(levels, level, inputs0, inputs1, f, e, g, r);
      } else {
        var f :| f in inputs1 && e in f.entries;
        LowerKeyNewerLeft(levels, level, inputs0, inputs1, f, e, g, r);
      }
    } else {
      var i :| 0 <= i < |levels[l]| && levels[l][i] == g;
      FileIsValid(levels, l, g);
      InUserRange(g, r);
    }
  }

  /** Everything in the store that is not an input of the compaction. */
  ghost function Rest(st: State, level: nat, inputs0: Level, inputs1: Level): set<Entry> {
    Elements(st.mem) + ImmEntries(st) + LeftEntries(st.levels, level, inputs0, inputs1)
  }

  /** The selection closes the upper level; with the lower level closed too, no drop
      uncovers anything. */
  lemma ClosedDropsSafe(st: State, level: nat, inputs0: Level, inputs1: Level, input: seq<Entry>)
    requires |st.levels| == kNumLevels && Inv(st) && level + 1 < kNumLevels
    requires GoodInputs(st.levels, level, inputs0, inputs1) && LowerClosed(st.levels, level, inputs1)
    requires MergedInput(input, inputs0, inputs1)
    ensures DropsSafe(input, Rest(st, level, inputs0, inputs1), SmallestSnapshot(st), st.levels, level)
  {
    hide WellFormed, GoodInputs, LowerClosed, LeftEntries, LevelEntries, VersionEntries, ReadsInv, BaseLevelForKey;
    FilesFacts(st);
    LowerMembers(st.levels, level, inputs0, inputs1);
    EntriesBefore(st.levels, level, inputs0, inputs1);
    var rest := Rest(st, level, inputs0, inputs1);
    forall i | 0 <= i < |input| && ObsoleteTombstone(input, i, SmallestSnapshot(st), st.levels, level)
      ensures UncoversNothing(rest, input[i].key, SmallestSnapshot(st))
    {
      assert input[i] in Elements(input);
      assert input[i] in VersionEntries(st.levels);
      var r := Newest(rest, input[i].key.user, SmallestSnapshot(st));
      if r.Some? && r.value in LeftEntries(st.levels, level, inputs0, inputs1) {
        LeftIsNewer(st.levels, level, inputs0, inputs1, input[i], r.value);
      }
    }
  }

  /** Replacing the inputs by outputs that hold some of their entries keeps the file
      lists well-formed. */
  lemma ReplaceFilesInv(
    st: State, level: nat, inputs0: Level, inputs1: Level, outputs: Level, edit: VersionEdit, st': State)
    requires |st.levels| == kNumLevels && Inv(st) && level + 1 < kNumLevels
    requires GoodInputs(st.levels, level, inputs0, inputs1)
    requires CompactionEdit(edit, level, inputs0, inputs1, outputs) && Edited(st.levels, edit, st'.levels)
    requires ValidFiles(outputs) && Sorted(Flatten(outputs))
    requires LevelEntries(outputs) <= LevelEntries(inputs0) + LevelEntries(inputs1)
    requires NumbersInv(st'.levels, st'.nextFile)
    ensures FilesInv(st')
    ensures VersionEntries(st.levels) ==
            LeftEntries(st.levels, level, inputs0, inputs1) + (LevelEntries(inputs0) + LevelEntries(inputs1))
    ensures VersionEntries(st'.levels) == LeftEntries(st.levels, level, inputs0, inputs1) + LevelEntries(outputs)
  {
    hide WellFormed, GoodInputs, LevelEntries, VersionEntries, LeftEntries, EntriesOf, LeftFiles, ReadsInv, Apart;
    hide NumberIsRecency, LevelsNewer, FileMetaData.Valid, NumbersInv, Newer, SortedFiles, CompactionEdit, FromHistory;
    FilesFacts(st);
    LowerMembers(st.levels, level, inputs0, inputs1);
    CompactFiles(st, level, inputs0, inputs1, outputs, edit,
      st.(levels := st'.levels, nextFile := st.nextFile + |outputs|));
    EntriesBefore(st.levels, level, inputs0, inputs1);
    EntriesAfter(st.levels, level, inputs0, inputs1, outputs, st'.levels);
    CompactLevelsNewer(st.levels, level, inputs0, inputs1, LevelEntries(outputs), st'.levels);
    forall l | 1 <= l < kNumLevels
      ensures Apart(Elements(st'.levels[l]))
    {
      CompactApart(st.levels, level, inputs0, inputs1, outputs, Elements(st'.levels[l]), l);
    }
    forall l, f | 0 <= l < kNumLevels && f in st'.levels[l]
      ensures f.Valid()
    {
      MemberOrigin(st.levels, level, inputs0, inputs1, outputs, st'.levels, l, f);
      if f in st.levels[l] {
        FileIsValid(st.levels, l, f);
      }
    }
    Level0Subset(st.levels, level, inputs0, inputs1, outputs, st'.levels);
    FromHistoryCoherent(Store(st), st.hist);
    SubsetCoherent(VersionEntries(st'.levels), Store(st));
    WellFormedFromSets(st'.levels, st'.nextFile);
  }

  lemma MemberOrigin(
    levels: seq<Level>, level: nat, inputs0: Level, inputs1: Level, outputs: Level, levels': seq<Level>, l: nat, f: FileMetaData)
    requires |levels| == |levels'| && l < |levels| && f in levels'[l]
    requires Elements(levels'[l]) == LeftFiles(levels, level, inputs0, inputs1, l) +
                                     if l == level + 1 then Elements(outputs) else {}
    ensures f in levels[l] || (l == level + 1 && f in outputs)
    ensures f in levels[l] ==> f in outputs || f in LeftFiles(levels, level, inputs0, inputs1, l)
  {
    assert f in Elements(levels'[l]);
  }

  lemma Level0Subset(levels: seq<Level>, level: nat, inputs0: Level, inputs1: Level, outputs: Level, levels': seq<Level>)
    requires |levels| == |levels'| == kNumLevels && WellFormed(levels)
    requires Elements(levels'[0]) == LeftFiles(levels, level, inputs0, inputs1, 0)
    ensures NumberIsRecency(levels'[0])
  {
    forall f | f in levels'[0]
      ensures f in levels[0]
    {
      assert f in Elements(levels'[0]);
    }
  }

  lemma UniqueNumber(levels: seq<Level>, nextFile: nat, l: nat, m: nat, f: FileMetaData, g: FileMetaData)
    requires NumbersInv(levels, nextFile) && l < |levels| && m < |levels|
    requires f in levels[l] && g in levels[m] && f.number == g.number
    ensures l == m && f == g
  {
  }

  lemma NumberBelow(levels: seq<Level>, nextFile: nat, l: nat, f: FileMetaData)
    requires NumbersInv(levels, nextFile) && l < |levels| && f in levels[l]
    ensures f.number < nextFile
  {
  }

  /** Every file of the new lists is an old one at its old level, or an output. */
  ghost predicate OldOrOutput(levels: seq<Level>, outputs: Level, p: nat, levels': seq<Level>)
    requires |levels| == |levels'|
  {
    forall l, f {:trigger f in levels'[l]} :: 0 <= l < |levels| && f in levels'[l] ==> f in levels[l] || (l == p && f in outputs)
  }

  ghost predicate ConsecutiveFrom(outputs: Level, nextFile: nat) {
    forall i :: 0 <= i < |outputs| ==> outputs[i].number == nextFile + i
  }

  lemma OutputNumber(outputs: Level, nextFile: nat, f: FileMetaData)
    requires ConsecutiveFrom(outputs, nextFile) && f in outputs
    ensures nextFile <= f.number < nextFile + |outputs| && outputs[f.number - nextFile] == f
  {
  }

  /** New numbers above all old ones keep numbers unique. */
  lemma NumbersGrow(levels: seq<Level>, nextFile: nat, outputs: Level, p: nat, levels': seq<Level>)
    requires |levels| == |levels'| && NumbersInv(levels, nextFile)
    requires OldOrOutput(levels, outputs, p, levels') && ConsecutiveFrom(outputs, nextFile)
    ensures NumbersInv(levels', nextFile + |outputs|)
  {
    hide ConsecutiveFrom;
    forall l, f | 0 <= l < |levels| && f in levels'[l]
      ensures f.number < nextFile + |outputs|
    {
      if f in outputs {
        OutputNumber(outputs, nextFile, f);
      }
    }
    forall l, m, f, g | 0 <= l < |levels| && 0 <= m < |levels| && f in levels'[l] && g in levels'[m] && f.number == g.number
      ensures l == m && f == g
    {
      GrowUnique(levels, nextFile, outputs, p, levels', l, m, f, g);
    }
  }

  lemma GrowUnique(
    levels: seq<Level>, nextFile: nat, outputs: Level, p: nat, levels': seq<Level>, l: nat, m: nat, f: FileMetaData, g: FileMetaData)
    requires |levels| == |levels'| && NumbersInv(levels, nextFile)
    requires OldOrOutput(levels, outputs, p, levels') && ConsecutiveFrom(outputs, nextFile)
    requires l < |levels| && m < |levels| && f in levels'[l] && g in levels'[m] && f.number == g.number
    ensures l == m && f == g
  {
    hide NumbersInv, ConsecutiveFrom;
    if f in levels[l] {
      NumberBelow(levels, nextFile, l, f);
    } else {
      OutputNumber(outputs, nextFile, f);
    }
    if g in levels[m] {
      NumberBelow(levels, nextFile, m, g);
    } else {
      OutputNumber(outputs, nextFile, g);
    }
    if f in levels[l] && g in levels[m] {
      UniqueNumber(levels, nextFile, l, m, f, g);
    }
  }

  lemma OutputNumbers(
    st: State, level: nat, inputs0: Level, inputs1: Level, outputs: Level, edit: VersionEdit, st': State)
    requires |st.levels| == kNumLevels && NumbersInv(st.levels, st.nextFile) && level + 1 < kNumLevels
    requires forall g :: g in inputs0 ==> g in st.levels[level]
    requires forall g :: g in inputs1 ==> g in st.levels[level + 1]
    requires Compacted(st, level, inputs0, inputs1, outputs, edit, st')
    requires ConsecutiveFrom(outputs, st.nextFile)
    ensures NumbersInv(st'.levels, st'.nextFile)
  {
    hide Compacted, NumbersInv, OldOrOutput, ConsecutiveFrom;
    FilesOrigin(st, level, inputs0, inputs1, outputs, edit, st');
    NumbersGrow(st.levels, st.nextFile, outputs, level + 1, st'.levels);
    NextAfter(st, level, inputs0, inputs1, outputs, edit, st');
  }

  lemma NextAfter(
    st: State, level: nat, inputs0: Level, inputs1: Level, outputs: Level, edit: VersionEdit, st': State)
    requires |st.levels| == kNumLevels && Compacted(st, level, inputs0, inputs1, outputs, edit, st')
    ensures st'.nextFile == st.nextFile + |outputs|
  {
    hide CompactionEdit, Edited;
  }

  /** Every file after a compaction was there before or is an output. */
  lemma FilesOrigin(
    st: State, level: nat, inputs0: Level, inputs1: Level, outputs: Level, edit: VersionEdit, st': State)
    requires |st.levels| == kNumLevels && NumbersInv(st.levels, st.nextFile) && level + 1 < kNumLevels
    requires forall g :: g in inputs0 ==> g in st.levels[level]
    requires forall g :: g in inputs1 ==> g in st.levels[level + 1]
    requires Compacted(st, level, inputs0, inputs1, outputs, edit, st')
    ensures |st'.levels| == kNumLevels && OldOrOutput(st.levels, outputs, level + 1, st'.levels)
  {
    hide NumbersInv, LeftFiles, OldOrOutput;
    SameCount(st, level, inputs0, inputs1, outputs, edit, st');
    CompactFiles(st, level, inputs0, inputs1, outputs, edit, st');
    Origins(st.levels, level, inputs0, inputs1, outputs, st'.levels);
  }

  lemma Origins(levels: seq<Level>, level: nat, inputs0: Level, inputs1: Level, outputs: Level, levels': seq<Level>)
    requires |levels| == |levels'| == kNumLevels
    requires forall l :: 0 <= l < kNumLevels ==>
               Elements(levels'[l]) == LeftFiles(levels, level, inputs0, inputs1, l) + if l == level + 1 then Elements(outputs) else {}
    ensures OldOrOutput(levels, outputs, level + 1, levels')
  {
    hide LeftFiles;
    forall l, f {:trigger f in levels'[l]} | 0 <= l < |levels| && f in levels'[l]
      ensures f in levels[l] || (l == level + 1 && f in outputs)
    {
      MemberOrigin(levels, level, inputs0, inputs1, outputs, levels', l, f);
    }
  }

  lemma SameCount(
    st: State, level: nat, inputs0: Level, inputs1: Level, outputs: Level, edit: VersionEdit, st': State)
    requires |st.levels| == kNumLevels && Compacted(st, level, inputs0, inputs1, outputs, edit, st')
    ensures |st'.levels| == kNumLevels
  {
  }

  lemma SubsetNewer(A: set<Entry>, B: set<Entry>, B': set<Entry>)
    requires Newer(A, B) && B' <= B
    ensures Newer(A, B')
  {
  }

  lemma SubsetFromHistory(S: set<Entry>, S': set<Entry>, hist: seq<Op>)
    requires FromHistory(S, hist) && S' <= S
    ensures FromHistory(S', hist)
  {
  }

  /** Without any hypothesis on the lower level, a compaction keeps the invariant if
      and only if no tombstone it drops uncovers a value outside its inputs. */
  lemma CompactIff(
    st: State, level: nat, inputs0: Level, inputs1: Level, input: seq<Entry>, outputs: Level,
    edit: VersionEdit, st': State)
    requires |st.levels| == kNumLevels && Inv(st) && level + 1 < kNumLevels
    requires GoodInputs(st.levels, level, inputs0, inputs1)
    requires MergedInput(input, inputs0, inputs1) && OutputsOf(st, level, input, outputs)
    requires Compacted(st, level, inputs0, inputs1, outputs, edit, st')
    ensures Inv(st') <==> DropsSafe(input, Rest(st, level, inputs0, inputs1), SmallestSnapshot(st), st.levels, level)
  {
    hide GoodInputs, LevelEntries, VersionEntries, LeftEntries, FilesInv, DropsSafe, Kept, Compacted, Edited;
    hide ValidFiles, Flatten, ReadsPreserved, ReadsInv, FromHistory, Coherent, Newer, CompactionEdit, Sorted;
    CompactionFacts(st, level, inputs0, inputs1, input, outputs, edit, st');
    var rest := Rest(st, level, inputs0, inputs1);
    var kept := Kept(input, |input|, SmallestSnapshot(st), st.levels, level);
    assert Store(st) == Elements(input) + rest;
    assert Store(st') == Elements(kept) + rest;
    FromHistoryCoherent(Store(st), st.hist);
    KeptSubset(input, SmallestSnapshot(st), st.levels, level);
    SubsetFromHistory(Store(st), Store(st'), st.hist);
    CompactionPreservesReads(input, rest, SmallestSnapshot(st), st.levels, level);
    ReadsCarryOver(st, st');
    SubsetNewer(Elements(st.mem), VersionEntries(st.levels), VersionEntries(st'.levels));
    SubsetNewer(ImmEntries(st), VersionEntries(st.levels), VersionEntries(st'.levels));
  }

  /** A compaction whose lower inputs are closed keeps the invariant: in particular
      every read from the smallest snapshot on still answers what the history says. */
  lemma CompactInv(
    st: State, level: nat, inputs0: Level, inputs1: Level, input: seq<Entry>, outputs: Level,
    edit: VersionEdit, st': State)
    requires |st.levels| == kNumLevels && Inv(st) && level + 1 < kNumLevels
    requires GoodInputs(st.levels, level, inputs0, inputs1) && LowerClosed(st.levels, level, inputs1)
    requires MergedInput(input, inputs0, inputs1) && OutputsOf(st, level, input, outputs)
    requires Compacted(st, level, inputs0, inputs1, outputs, edit, st')
    ensures Inv(st')
  {
    hide *;
    ClosedDropsSafe(st, level, inputs0, inputs1, input);
    CompactIff(st, level, inputs0, inputs1, input, outputs, edit, st');
  }

  lemma ReadsCarryOver(st: State, st': State)
    requires ReadsInv(st) && st'.hist == st.hist && st'.snapshots == st.snapshots
    ensures ReadsInv(st') <==> ReadsPreserved(Store(st), Store(st'), SmallestSnapshot(st))
  {
  }

  lemma CompactionFacts(
    st: State, level: nat, inputs0: Level, inputs1: Level, input: seq<Entry>, outputs: Level,
    edit: VersionEdit, st': State)
    requires |st.levels| == kNumLevels && Inv(st) && level + 1 < kNumLevels
    requires GoodInputs(st.levels, level, inputs0, inputs1)
    requires MergedInput(input, inputs0, inputs1) && OutputsOf(st, level, input, outputs)
    requires Compacted(st, level, inputs0, inputs1, outputs, edit, st')
    ensures FilesInv(st') && st' == st.(levels := st'.levels, nextFile := st'.nextFile)
    ensures VersionEntries(st.levels) == LeftEntries(st.levels, level, inputs0, inputs1) + Elements(input)
    ensures VersionEntries(st'.levels) == LeftEntries(st.levels, level, inputs0, inputs1) +
                                          Elements(Kept(input, |input|, SmallestSnapshot(st), st.levels, level))
  {
    hide GoodInputs, LevelEntries, VersionEntries, LeftEntries, Kept, Edited, ValidFiles, Flatten, ReadsInv, FromHistory;
    hide Coherent, Newer, CompactionEdit, WellFormed, NumbersInv;
    FilesFacts(st);
    LowerMembers(st.levels, level, inputs0, inputs1);
    FlattenEntries(outputs);
    KeptSorted(input, |input|, SmallestSnapshot(st), st.levels, level);
    KeptSubset(input, SmallestSnapshot(st), st.levels, level);
    OutputNumbers(st, level, inputs0, inputs1, outputs, edit, st');
    ReplaceFilesInv(st, level, inputs0, inputs1, outputs, edit, st');
  }

  // ---------------------------------------------------------------- trivial move

  ghost predicate Moved(st: State, level: nat, f: FileMetaData, st': State)
    requires |st.levels| == kNumLevels
  {
    && Edited(st.levels, VersionEdit({(level, f.number)}, [(level + 1, f)]), st'.levels)
    && st' == st.(levels := st'.levels)
  }

  lemma MoveNumbers(st: State, level: nat, f: FileMetaData, levels': seq<Level>)
    requires |st.levels| == |levels'| == kNumLevels && NumbersInv(st.levels, st.nextFile) && level + 1 < kNumLevels
    requires f in st.levels[level]
    requires forall l :: 0 <= l < kNumLevels ==>
               Elements(levels'[l]) == LeftFiles(st.levels, level, [f], [], l) + if l == level + 1 then {f} else {}
    ensures NumbersInv(levels', st.nextFile)
  {
    hide LeftFiles;
    forall l, g | 0 <= l < kNumLevels && g in levels'[l]
      ensures g.number < st.nextFile
    {
      MoveOrigin(st, level, f, levels', l, g);
    }
    forall l, m, g, h | 0 <= l < kNumLevels && 0 <= m < kNumLevels && g in levels'[l] && h in levels'[m] && g.number == h.number
      ensures l == m && g == h
    {
      MoveUnique(st, level, f, levels', l, m, g, h);
    }
  }

  /** Where a file of the new lists was before the move. */
  lemma MoveOrigin(st: State, level: nat, f: FileMetaData, levels': seq<Level>, l: nat, g: FileMetaData)
    requires |st.levels| == |levels'| == kNumLevels && level + 1 < kNumLevels && f in st.levels[level]
    requires forall l :: 0 <= l < kNumLevels ==>
               Elements(levels'[l]) == LeftFiles(st.levels, level, [f], [], l) + if l == level + 1 then {f} else {}
    requires l < kNumLevels && g in levels'[l]
    ensures g in st.levels[if l == level + 1 && g == f then level else l]
    ensures l != level || g != f
  {
    assert g in Elements(levels'[l]);
  }

  lemma MoveUnique(st: State, level: nat, f: FileMetaData, levels': seq<Level>, l: nat, m: nat, g: FileMetaData, h: FileMetaData)
    requires |st.levels| == |levels'| == kNumLevels && NumbersInv(st.levels, st.nextFile) && level + 1 < kNumLevels
    requires f in st.levels[level]
    requires forall l :: 0 <= l < kNumLevels ==>
               Elements(levels'[l]) == LeftFiles(st.levels, level, [f], [], l) + if l == level + 1 then {f} else {}
    requires l < kNumLevels && m < kNumLevels && g in levels'[l] && h in levels'[m] && g.number == h.number
    ensures l == m && g == h
  {
    hide NumbersInv, LeftFiles;
    MoveOrigin(st, level, f, levels', l, g);
    MoveOrigin(st, level, f, levels', m, h);
    var l0, m0 := if l == level + 1 && g == f then level else l, if m == level + 1 && h == f then level else m;
    UniqueNumber(st.levels, st.nextFile, l0, m0, g, h);
    if g == f {
      UniqueNumber(st.levels, st.nextFile, l0, level, g, f);
    }
  }

  lemma MoveFiles(st: State, level: nat, f: FileMetaData, st': State)
    requires |st.levels| == kNumLevels && Inv(st) && level + 1 < kNumLevels
    requires GoodInputs(st.levels, level, [f], []) && Moved(st, level, f, st')
    ensures FilesInv(st') && VersionEntries(st'.levels) == VersionEntries(st.levels)
  {
    hide GoodInputs, VersionEntries, LeftEntries, WellFormed, ReadsInv, FromHistory, Newer, FileMetaData.Valid;
    hide NumbersInv, LevelEntries, MemInv, SortedFiles, LeftFiles, Sorted, Flatten, ValidFiles;
    FilesFacts(st);
    var edit := VersionEdit({(level, f.number)}, [(level + 1, f)]);
    LowerMembers(st.levels, level, [f], []);
    assert f in [f] && f in st.levels[level];
    FileIsValid(st.levels, level, f);
    MoveEdit(level, f, edit);
    CompactFiles(st, level, [f], [], [f], edit, st.(levels := st'.levels, nextFile := st.nextFile + 1));
    assert Elements([f]) == {f};
    MoveNumbers(st, level, f, st'.levels);
    SingleFlatten(f);
    NoEntries();
    ReplaceFilesInv(st, level, [f], [], [f], edit, st');
  }

  lemma NoEntries()
    ensures LevelEntries([]) == {}
  {
  }

  lemma MoveEdit(level: nat, f: FileMetaData, edit: VersionEdit)
    requires edit == VersionEdit({(level, f.number)}, [(level + 1, f)])
    ensures CompactionEdit(edit, level, [f], [], [f])
  {
    assert DeletionsOf(level, [f], []) == {(level, f.number)};
    assert edit.newFiles == seq(1, i requires 0 <= i < 1 => (level + 1, [f][i]));
  }

  /** Moving a file that overlaps nothing below changes neither entries nor reads. */
  lemma MoveInv(st: State, level: nat, f: FileMetaData, st': State)
    requires |st.levels| == kNumLevels && Inv(st) && level + 1 < kNumLevels
    requires GoodInputs(st.levels, level, [f], []) && Moved(st, level, f, st')
    ensures Inv(st') && Store(st') == Store(st)
  {
    hide GoodInputs, VersionEntries, FilesInv, ReadsInv, FromHistory, Newer, Sorted, Edited;
    MoveFiles(st, level, f, st');
    SameReads(st, st');
  }

  lemma SingleFlatten(f: FileMetaData)
    requires f.Valid()
    ensures Flatten([f]) == f.entries && Sorted(Flatten([f])) && ValidFiles([f])
  {
    assert [f][..0] == [];
    assert Flatten([f]) == [] + f.entries;
  }
}
