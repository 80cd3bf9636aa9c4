/** What goes wrong without the hypothesis on the lower level of a compaction: a run of the
    store after which one more compaction, chosen as the code chooses, brings a deleted key
    back. */
module LostDelete {
  import opened DbFormat
  import opened Version
  import opened Compaction
  import opened InputSelection
  import opened VersionBuilder
  import opened DbState
  import opened DbSteps
  import opened DbRuns

  function PutOp(k: UserKey): Op { Op(k, Some([7])) }

  /** Key 2.0 is written, key 1.0 is written, key 2.0 is deleted, key 1.0 is written. */
  const HISTORY: seq<Op> := [PutOp(2.0), PutOp(1.0), Op(2.0, None), PutOp(1.0)]

  function Lost(n: nat): Entry
    requires 1 <= n <= 4
  {
    EntryAt(HISTORY, n)
  }

  function FileOf(number: nat, entries: seq<Entry>): FileMetaData
    requires entries != []
  {
    FileMetaData(number, 1, entries[0].key, entries[|entries| - 1].key, entries)
  }

  // The first flush, the two outputs it is compacted into, the second flush, and the output
  // of the compaction that goes wrong.
  const FIRST: FileMetaData := FileOf(3, [Lost(2), Lost(3), Lost(1)])
  const DELETION: FileMetaData := FileOf(4, [Lost(2), Lost(3)])
  const OLD_VALUE: FileMetaData := FileOf(5, [Lost(1)])
  const SECOND: FileMetaData := FileOf(7, [Lost(4)])
  const OUTPUT: FileMetaData := FileOf(8, [Lost(4)])

  function TwoLevels(level2: Level, level3: Level): (r: seq<Level>)
    ensures |r| == kNumLevels && r[2] == level2 && r[3] == level3
    ensures forall l :: 0 <= l < kNumLevels && l != 2 && l != 3 ==> r[l] == []
  {
    [[], [], level2, level3, [], [], []]
  }

  // ---------------------------------------------------------------- the run

  const S0: State := EMPTY
  const S1: State := State(HISTORY[..1], [Lost(1)], None, TwoLevels([], []), [], 2)
  const S2: State := State(HISTORY[..2], [Lost(2), Lost(1)], None, TwoLevels([], []), [], 2)
  const S3: State := S2.(snapshots := [2])
  const S4: State := State(HISTORY[..3], [Lost(2), Lost(3), Lost(1)], None, TwoLevels([], []), [2], 2)
  const S5: State := State(HISTORY[..3], [], Some([Lost(2), Lost(3), Lost(1)]), TwoLevels([], []), [2], 3)
  const S6: State := State(HISTORY[..3], [], None, TwoLevels([FIRST], []), [2], 4)
  const S7: State := State(HISTORY[..3], [], None, TwoLevels([], [DELETION, OLD_VALUE]), [2], 6)
  const S8: State := S7.(snapshots := [])
  const S9: State := State(HISTORY, [Lost(4)], None, TwoLevels([], [DELETION, OLD_VALUE]), [], 6)
  const S10: State := State(HISTORY, [], Some([Lost(4)]), TwoLevels([], [DELETION, OLD_VALUE]), [], 7)
  const S11: State := State(HISTORY, [], None, TwoLevels([SECOND], [DELETION, OLD_VALUE]), [], 8)

  /** Two writes; a snapshot; a deletion; rotation and flush to level 2; a manual compaction
      of level 2, which the snapshot makes keep everything and which ends its first output
      between the deletion and the deleted value; the snapshot is released; another write,
      rotation and flush. */
  const RUN: seq<State> := [S0, S1, S2, S3, S4, S5, S6, S7, S8, S9, S10, S11]

  lemma FilesValid()
    ensures FIRST.Valid() && DELETION.Valid() && OLD_VALUE.Valid() && SECOND.Valid() && OUTPUT.Valid()
    ensures FileLess(DELETION, OLD_VALUE) && FileLess(OUTPUT, OLD_VALUE)
  {
  }

  /** One write as a step of the run. */
  lemma OneWrite(st: State, op: Op, st': State)
    requires Inv(st) && |st.hist| + 1 < kMaxSequenceNumber
    requires st' == WriteOne(st, op)
    ensures WriteStep(st, st')
  {
    hide Inv;
    WriteOneInv(st, op);
    assert [op][1..] == [];
    assert WriteAll(st, [op]) == WriteAll(st', []) == st';
  }

  /** The memtable and history after one write. */
  lemma AfterWrite(st: State, n: nat, mem: seq<Entry>)
    requires Inv(st) && n < 4 && st.hist == HISTORY[..n] && InsertEntry(st.mem, Lost(n + 1)) == mem
    ensures WriteStep(st, st.(hist := HISTORY[..n + 1], mem := mem))
  {
    hide Inv;
    assert HISTORY[..n] + [HISTORY[n]] == HISTORY[..n + 1];
    OneWrite(st, HISTORY[n], st.(hist := HISTORY[..n + 1], mem := mem));
  }

  lemma Memtables()
    ensures Sorted([]) && InsertEntry([], Lost(1)) == [Lost(1)] && InsertEntry([], Lost(4)) == [Lost(4)]
    ensures Sorted([Lost(1)]) && InsertEntry([Lost(1)], Lost(2)) == [Lost(2), Lost(1)]
    ensures Sorted([Lost(2), Lost(1)]) && InsertEntry([Lost(2), Lost(1)], Lost(3)) == [Lost(2), Lost(3), Lost(1)]
  {
    assert [Lost(2), Lost(1)][1..] == [Lost(1)];
  }

  lemma WriteAt(i: nat)
    requires i in {0, 1, 3, 8} && Inv(RUN[i])
    ensures WriteStep(RUN[i], RUN[i + 1])
  {
    hide Inv, WriteStep;
    Memtables();
    assert HISTORY[..0] == [] && HISTORY[..4] == HISTORY;
    if i == 0 {
      AfterWrite(S0, 0, S1.mem);
    } else if i == 1 {
      AfterWrite(S1, 1, S2.mem);
    } else if i == 3 {
      AfterWrite(S3, 2, S4.mem);
    } else {
      AfterWrite(S8, 3, S9.mem);
    }
  }

  /** Flushing one table to level 2 over levels 0 to 2 that hold nothing. */
  lemma FlushTo2(st: State, f: FileMetaData, level3: Level)
    requires Inv(st) && TableOf(st, f) && st.levels == TwoLevels([], level3)
    requires SortedFiles(level3)
    ensures FlushStep(st, st.(imm := None, levels := TwoLevels([f], level3), nextFile := st.nextFile + 1))
  {
    hide Inv, SortedFiles;
    var levels', edit := TwoLevels([f], level3), VersionEdit({}, [(2, f)]);
    forall l | 0 <= l < kNumLevels
      ensures SortedFiles(levels'[l]) && Elements(levels'[l]) == NextFiles(Elements(st.levels[l]), edit, l)
    {
      assert NewAt(edit, l) == if l == 2 then {f} else {} by {
        assert (2, f) in edit.newFiles;
      }
      assert DeletedAt(edit, l) == {};
      assert SortedFiles([]) && SortedFiles([f]) by {
        OneIsSorted(f);
      }
    }
    assert Edited(st.levels, edit, levels');
    assert Flushed(st, f, 2, st.(imm := None, levels := levels', nextFile := st.nextFile + 1));
    assert CanPlace(st.levels, f, 2);
  }

  lemma OneIsSorted(f: FileMetaData)
    ensures SortedFiles([]) && SortedFiles([f])
  {
  }

  lemma TwoAreSorted()
    ensures SortedFiles([DELETION, OLD_VALUE]) && SortedFiles([OUTPUT, OLD_VALUE])
  {
    FilesValid();
  }

  /** The range of one file. */
  lemma RangeOfOne(f: FileMetaData)
    ensures IsSmallest([f], f.smallest) && IsLargest([f], f.largest)
  {
    assert f in [f];
  }

  // ------------------------------------------------- the compaction under the snapshot

  const FIRST_EDIT: VersionEdit := VersionEdit({(2, 3)}, [(3, DELETION), (3, OLD_VALUE)])

  lemma FirstInputs()
    ensures GoodInputs(S6.levels, 2, [FIRST], []) && LowerClosed(S6.levels, 2, [])
    ensures MergedInput(FIRST.entries, [FIRST], [])
  {
    RangeOfOne(FIRST);
    assert Overlapping([], Some(FIRST.smallest.user), Some(FIRST.largest.user)) == [];
    LevelOfOne(FIRST);
    NoEntries();
  }

  lemma LevelOfOne(f: FileMetaData)
    ensures LevelEntries([f]) == Elements(f.entries)
  {
    assert f in [f];
  }

  lemma LevelOfTwo(f: FileMetaData, g: FileMetaData)
    ensures LevelEntries([f, g]) == Elements(f.entries) + Elements(g.entries)
  {
    assert f in [f, g] && g in [f, g];
  }

  /** The snapshot at 2 is older than the deletion, so nothing is hidden or obsolete. */
  lemma FirstKept()
    ensures Kept(FIRST.entries, 3, 2, S6.levels, 2) == FIRST.entries
  {
    var input := FIRST.entries;
    assert !Dropped(input, 0, 2, S6.levels, 2) && !Dropped(input, 1, 2, S6.levels, 2) && !Dropped(input, 2, 2, S6.levels, 2);
    assert Kept(input, 0, 2, S6.levels, 2) == [];
    assert Kept(input, 1, 2, S6.levels, 2) == [input[0]];
    assert Kept(input, 2, 2, S6.levels, 2) == [input[0], input[1]];
  }

  lemma FirstOutputs()
    ensures OutputsOf(S6, 2, FIRST.entries, [DELETION, OLD_VALUE])
  {
    hide FileMetaData.Valid, Kept, Flatten;
    FilesValid();
    FirstKept();
    FlattenSnoc([DELETION], OLD_VALUE);
    SingleFlatten(DELETION);
    assert [DELETION] + [OLD_VALUE] == [DELETION, OLD_VALUE];
    assert DELETION.entries + OLD_VALUE.entries == FIRST.entries;
  }

  lemma FirstCompacted()
    ensures Compacted(S6, 2, [FIRST], [], [DELETION, OLD_VALUE], FIRST_EDIT, S7)
  {
    TwoAreSorted();
    OneIsSorted(FIRST);
    var outputs: Level := [DELETION, OLD_VALUE];
    assert DeletionsOf(2, [FIRST], []) == {(2, 3)} by {
      assert FIRST in [FIRST];
    }
    assert FIRST_EDIT.newFiles == seq(2, i requires 0 <= i < 2 => (3, outputs[i]));
    forall l | 0 <= l < kNumLevels
      ensures SortedFiles(S7.levels[l]) && Elements(S7.levels[l]) == NextFiles(Elements(S6.levels[l]), FIRST_EDIT, l)
    {
      hide SortedFiles;
      assert NewAt(FIRST_EDIT, l) == if l == 3 then {DELETION, OLD_VALUE} else {} by {
        assert (3, DELETION) in FIRST_EDIT.newFiles && (3, OLD_VALUE) in FIRST_EDIT.newFiles;
      }
      assert DeletedAt(FIRST_EDIT, l) == if l == 2 then {3} else {} by {
        assert (2, 3) in FIRST_EDIT.deletedFiles;
      }
      assert Elements([FIRST]) == {FIRST} && Elements(outputs) == {DELETION, OLD_VALUE};
    }
  }

  lemma FirstCompaction()
    requires Inv(S6)
    ensures CompactStep(S6, S7)
  {
    hide Inv, GoodInputs, LowerClosed, MergedInput, OutputsOf, Compacted;
    FirstInputs();
    FirstOutputs();
    FirstCompacted();
  }

  // ---------------------------------------------------------------- the run is one

  lemma Steps(i: nat)
    requires i + 1 < |RUN|
    ensures StepsTo(RUN[i], RUN[i + 1])
  {
    hide Inv, CompactStep, WriteStep, FlushStep, MoveStep;
    if Inv(RUN[i]) {
      if i == 2 {
        assert S3 == NewSnapshot(S2);
      } else if i == 4 {
        assert S5 == Rotate(S4);
      } else if i == 5 {
        FilesValid();
        TwoAreSorted();
        OneIsSorted(FIRST);
        FlushTo2(S5, FIRST, []);
      } else if i == 6 {
        FirstCompaction();
      } else if i == 7 {
        assert S8 == ReleaseSnapshot(S7, 0);
      } else if i == 9 {
        assert S10 == Rotate(S9);
      } else if i == 10 {
        FilesValid();
        TwoAreSorted();
        FlushTo2(S10, SECOND, [DELETION, OLD_VALUE]);
      } else {
        WriteAt(i);
      }
    }
  }

  lemma RunIsExecution()
    ensures IsExecution(RUN)
  {
    hide StepsTo;
    forall i, j | 0 <= i < j < |RUN| && j == i + 1
      ensures StepsTo(RUN[i], RUN[j])
    {
      Steps(i);
    }
  }

  // ------------------------------------------------- the compaction that goes wrong

  /** The only selection the code can make at level 2 takes the file with the deletion but
      not the next one, which begins with the deleted value. */
  lemma LostInputs()
    ensures GoodInputs(S11.levels, 2, [SECOND], [DELETION])
    ensures !LowerClosed(S11.levels, 2, [DELETION])
  {
    RangeOfOne(SECOND);
    RangeOfOne(DELETION);
    assert Overlapping([DELETION, OLD_VALUE], Some(1.0), Some(1.0)) == [DELETION] by {
      assert Overlaps(Some(1.0), Some(1.0), DELETION) && !Overlaps(Some(1.0), Some(1.0), OLD_VALUE);
      assert [DELETION, OLD_VALUE][1..] == [OLD_VALUE] && [OLD_VALUE][1..] == [];
      assert Overlapping([OLD_VALUE], Some(1.0), Some(1.0)) == [];
    }
    assert OLD_VALUE in S11.levels[3] && Boundary(OLD_VALUE, DELETION.largest);
  }

  const LOST_INPUT: seq<Entry> := [Lost(4), Lost(2), Lost(3)]

  lemma LostMerged()
    ensures MergedInput(LOST_INPUT, [SECOND], [DELETION])
  {
    LevelOfOne(SECOND);
    LevelOfOne(DELETION);
    hide LevelEntries;
    assert Elements(LOST_INPUT) == {Lost(4), Lost(2), Lost(3)};
    assert Elements([Lost(4)]) == {Lost(4)} && Elements([Lost(2), Lost(3)]) == {Lost(2), Lost(3)};
  }

  /** The drop rules keep one entry: the older write of key 1.0 is hidden, and the deletion
      of key 2.0 counts as obsolete because no deeper level covers it. */
  lemma LostKept()
    ensures !Hidden(LOST_INPUT, 2, 4) && ObsoleteTombstone(LOST_INPUT, 2, 4, S11.levels, 2)
    ensures Kept(LOST_INPUT, 3, 4, S11.levels, 2) == [Lost(4)]
  {
    assert BaseLevelForKey(S11.levels, 2, 2.0);
    hide BaseLevelForKey;
    assert Kept(LOST_INPUT, 0, 4, S11.levels, 2) == [];
    assert Kept(LOST_INPUT, 1, 4, S11.levels, 2) == [Lost(4)];
    assert Kept(LOST_INPUT, 2, 4, S11.levels, 2) == [Lost(4)];
  }

  const LOST_EDIT: VersionEdit := VersionEdit({(2, 7), (3, 4)}, [(3, OUTPUT)])
  const LOST: State := S11.(levels := TwoLevels([], [OUTPUT, OLD_VALUE]), nextFile := 9)

  lemma LostCompacted()
    ensures OutputsOf(S11, 2, LOST_INPUT, [OUTPUT])
    ensures Compacted(S11, 2, [SECOND], [DELETION], [OUTPUT], LOST_EDIT, LOST)
  {
    FilesValid();
    LostKept();
    SingleFlatten(OUTPUT);
    LostEdited();
    assert DeletionsOf(2, [SECOND], [DELETION]) == {(2, 7), (3, 4)} by {
      assert SECOND in [SECOND] && DELETION in [DELETION];
    }
    assert LOST_EDIT.newFiles == seq(1, i requires 0 <= i < 1 => (3, [OUTPUT][i]));
  }

  lemma LostEdited()
    ensures Edited(S11.levels, LOST_EDIT, LOST.levels)
  {
    TwoAreSorted();
    OneIsSorted(OUTPUT);
    hide SortedFiles;
    forall l | 0 <= l < kNumLevels
      ensures SortedFiles(LOST.levels[l])
      ensures Elements(LOST.levels[l]) == NextFiles(Elements(S11.levels[l]), LOST_EDIT, l)
    {
      assert NewAt(LOST_EDIT, l) == if l == 3 then {OUTPUT} else {} by {
        assert (3, OUTPUT) in LOST_EDIT.newFiles;
      }
      assert DeletedAt(LOST_EDIT, l) == if l == 2 then {7} else if l == 3 then {4} else {} by {
        assert (2, 7) in LOST_EDIT.deletedFiles && (3, 4) in LOST_EDIT.deletedFiles;
      }
      assert Elements([SECOND]) == {SECOND};
      assert Elements([DELETION, OLD_VALUE]) == {DELETION, OLD_VALUE} && Elements([OUTPUT, OLD_VALUE]) == {OUTPUT, OLD_VALUE};
    }
  }

  lemma LostStore()
    ensures Store(LOST) == {Lost(4), Lost(1)}
  {
    LevelOfTwo(OUTPUT, OLD_VALUE);
    assert Elements([Lost(4)]) == {Lost(4)} && Elements([Lost(1)]) == {Lost(1)};
    assert VersionEntries(LOST.levels) == LevelEntries(LOST.levels[3]);
    assert Elements(LOST.mem) == {};
  }

  /** Without the hypothesis on the lower level the code loses a deletion.  A run of the
      store ends in a state from which a selection with everything SetupOtherInputs
      guarantees, and the two drop rules, lead to a state in which key 2.0, deleted by the
      history, reads as its old value again. */
  lemma DeletedKeyReappears()
    ensures IsExecution(RUN) && RUN[|RUN| - 1] == S11 && Inv(S11)
    ensures GoodInputs(S11.levels, 2, [SECOND], [DELETION]) && !LowerClosed(S11.levels, 2, [DELETION])
    ensures MergedInput(LOST_INPUT, [SECOND], [DELETION]) && OutputsOf(S11, 2, LOST_INPUT, [OUTPUT])
    ensures Compacted(S11, 2, [SECOND], [DELETION], [OUTPUT], LOST_EDIT, LOST)
    ensures HistoryGet(LOST.hist, 2.0, 4) == None
    ensures Lookup(Store(LOST), 2.0, 4) == Some([7])
  {
    hide Inv, IsExecution, GoodInputs, LowerClosed, MergedInput, OutputsOf, Compacted, Store;
    RunIsExecution();
    RunInv(RUN, |RUN| - 1);
    LostInputs();
    LostMerged();
    LostCompacted();
    LostStore();
    assert HistoryGet(HISTORY, 2.0, 4) == None;
    assert IsNewest(Store(LOST), 2.0, 4, Lost(1));
    NewestUnique(Store(LOST), 2.0, 4, Lost(1));
  }
}
