/** All runs of the store: the invariant holds at every state, every read answers
    what the history of writes says, and a snapshot's answers never change. */
module DbRuns {
  import opened DbFormat
  import opened InputSelection
  import opened DbState
  import opened DbSteps

  ghost predicate WriteStep(st: State, st': State)
    requires Inv(st)
  {
    exists ops :: |st.hist| + |ops| < kMaxSequenceNumber && st' == WriteAll(st, ops)
  }

  ghost predicate FlushStep(st: State, st': State)
    requires Inv(st)
  {
    || (st.imm == Some([]) && st' == st.(imm := None, nextFile := st.nextFile + 1))
    || exists f, p: nat :: p < kNumLevels && TableOf(st, f) && CanPlace(st.levels, f, p) && Flushed(st, f, p, st')
  }

  /** One atomic compaction.  The selection is what PickCompaction or CompactRange
      return; the last conjunct is the hypothesis on the lower level. */
  ghost predicate CompactStep(st: State, st': State)
    requires Inv(st)
  {
    exists level: nat, inputs0, inputs1, input, outputs, edit ::
      && level + 1 < kNumLevels && GoodInputs(st.levels, level, inputs0, inputs1)
      && MergedInput(input, inputs0, inputs1) && OutputsOf(st, level, input, outputs)
      && Compacted(st, level, inputs0, inputs1, outputs, edit, st')
      && LowerClosed(st.levels, level, inputs1)
  }

  ghost predicate MoveStep(st: State, st': State)
    requires Inv(st)
  {
    exists level: nat, f :: level + 1 < kNumLevels && GoodInputs(st.levels, level, [f], []) && Moved(st, level, f, st')
  }

  ghost predicate SnapshotStep(st: State, st': State) {
    st' == NewSnapshot(st) || exists i: nat :: i < |st.snapshots| && st' == ReleaseSnapshot(st, i)
  }

  ghost predicate Next(st: State, st': State)
    requires Inv(st)
  {
    || WriteStep(st, st')
    || (st.imm == None && st' == Rotate(st))
    || FlushStep(st, st')
    || CompactStep(st, st')
    || MoveStep(st, st')
    || SnapshotStep(st, st')
  }

  lemma NextInv(st: State, st': State)
    requires Inv(st) && Next(st, st')
    ensures Inv(st')
    ensures st.hist <= st'.hist
  {
    hide Inv, GoodInputs, MergedInput, OutputsOf, LowerClosed, TableOf, CanPlace;
    assert |st.levels| == kNumLevels by {
      SevenLevels(st);
    }
    if WriteStep(st, st') {
      var ops :| |st.hist| + |ops| < kMaxSequenceNumber && st' == WriteAll(st, ops);
      WriteAllInv(st, ops);
    } else if st.imm == None && st' == Rotate(st) {
      RotateInv(st);
    } else if FlushStep(st, st') {
      if st.imm == Some([]) && st' == st.(imm := None, nextFile := st.nextFile + 1) {
        FlushNothingInv(st);
      } else {
        var f, p: nat :| p < kNumLevels && TableOf(st, f) && CanPlace(st.levels, f, p) && Flushed(st, f, p, st');
        FlushInv(st, f, p, st');
      }
    } else if CompactStep(st, st') {
      var level: nat, inputs0, inputs1, input, outputs, edit :|
        && level + 1 < kNumLevels && GoodInputs(st.levels, level, inputs0, inputs1)
        && MergedInput(input, inputs0, inputs1) && OutputsOf(st, level, input, outputs)
        && Compacted(st, level, inputs0, inputs1, outputs, edit, st')
        && LowerClosed(st.levels, level, inputs1);
      CompactInv(st, level, inputs0, inputs1, input, outputs, edit, st');
    } else if MoveStep(st, st') {
      var level: nat, f :| level + 1 < kNumLevels && GoodInputs(st.levels, level, [f], []) && Moved(st, level, f, st');
      MoveInv(st, level, f, st');
    } else if st' == NewSnapshot(st) {
      NewSnapshotInv(st);
    } else {
      var i: nat :| i < |st.snapshots| && st' == ReleaseSnapshot(st, i);
      ReleaseSnapshotInv(st, i);
    }
  }

  lemma SevenLevels(st: State)
    requires Inv(st)
    ensures |st.levels| == kNumLevels
  {
  }

  /** A run starts empty and takes one step after another. */
  ghost predicate IsExecution(run: seq<State>) {
    && run != [] && run[0] == EMPTY
    && forall i, j :: 0 <= i < j < |run| && j == i + 1 ==> StepsTo(run[i], run[j])
  }

  ghost predicate StepsTo(st: State, st': State) {
    Inv(st) ==> Next(st, st')
  }

  /** In every run, at every state, the invariant holds. */
  lemma {:induction false} RunInv(run: seq<State>, i: nat)
    requires IsExecution(run) && i < |run|
    ensures Inv(run[i])
  {
    if i == 0 {
      EmptyInv();
    } else {
      RunInv(run, i - 1);
      NextInv(run[i - 1], run[i]);
    }
  }

  /** In every run, a read at the current sequence number or at any live snapshot
      finds exactly the last write numbered no later than the snapshot. */
  lemma RunReads(run: seq<State>, i: nat, k: UserKey, s: nat)
    requires IsExecution(run) && i < |run|
    requires s == |run[i].hist| || s in run[i].snapshots
    ensures ValueOf(Searched(run[i], k, s)) == HistoryGet(run[i].hist, k, s)
  {
    RunInv(run, i);
    SearchIsHistory(run[i], k, s);
  }

  lemma {:induction false} HistoryGrows(run: seq<State>, i: nat, j: nat)
    requires IsExecution(run) && i <= j < |run|
    ensures run[i].hist <= run[j].hist
    decreases j - i
  {
    hide Next, Inv;
    if i < j {
      HistoryGrows(run, i, j - 1);
      RunInv(run, j - 1);
      NextInv(run[j - 1], run[j]);
    }
  }

  lemma {:induction false} HistoryGetPrefix(a: seq<Op>, b: seq<Op>, k: UserKey, s: nat)
    requires a <= b && s <= |a|
    ensures HistoryGet(a, k, s) == HistoryGet(b, k, s)
  {
    LastWritePrefix(a, b, k, s);
  }

  lemma {:induction false} LastWritePrefix(a: seq<Op>, b: seq<Op>, k: UserKey, n: nat)
    requires a <= b && n <= |a|
    ensures LastWrite(a, k, n) == LastWrite(b, k, n)
  {
    if n > 0 {
      LastWritePrefix(a, b, k, n - 1);
    }
  }

  /** A snapshot answers the same at any two points of its life, whatever was
      written, flushed, compacted or moved in between. */
  lemma SnapshotIsStable(run: seq<State>, i: nat, j: nat, k: UserKey, s: nat)
    requires IsExecution(run) && i <= j < |run|
    requires s in run[i].snapshots && s in run[j].snapshots
    ensures ValueOf(Searched(run[i], k, s)) == ValueOf(Searched(run[j], k, s))
  {
    RunReads(run, i, k, s);
    RunReads(run, j, k, s);
    HistoryGrows(run, i, j);
    RunInv(run, i);
    HistoryGetPrefix(run[i].hist, run[j].hist, k, s);
  }
}
