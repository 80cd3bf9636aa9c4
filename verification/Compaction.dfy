/** The compaction loop: which entries it drops, and exactly when dropping them
    changes no read. */
module Compaction {
  import opened DbFormat
  import opened Version

  // ---------------------------------------------------------------- drop rules

  /** No file two or more levels down has a range containing `k`. */
  predicate BaseLevelForKey(levels: seq<Level>, level: nat, k: UserKey) {
    forall l, i :: level + 2 <= l < |levels| && 0 <= i < |levels[l]| ==>
      !(levels[l][i].smallest.user <= k <= levels[l][i].largest.user)
  }

  /** Rule (A): the preceding entry is a newer one of the same user key that every
      live snapshot can already see. */
  predicate Hidden(input: seq<Entry>, i: nat, smallest: nat)
    requires i < |input|
  {
    i > 0 && input[i - 1].key.user == input[i].key.user && input[i - 1].key.sequence <= smallest
  }

  /** The second rule: a deletion marker all snapshots see, with nothing below it. */
  predicate ObsoleteTombstone(input: seq<Entry>, i: nat, smallest: nat, levels: seq<Level>, level: nat)
    requires i < |input|
  {
    && input[i].value.None?
    && input[i].key.sequence <= smallest
    && BaseLevelForKey(levels, level, input[i].key.user)
  }

  predicate Dropped(input: seq<Entry>, i: nat, smallest: nat, levels: seq<Level>, level: nat)
    requires i < |input|
  {
    Hidden(input, i, smallest) || ObsoleteTombstone(input, i, smallest, levels, level)
  }

  /** The entries among the first `n` that are copied to the output. */
  function Kept(input: seq<Entry>, n: nat, smallest: nat, levels: seq<Level>, level: nat): seq<Entry>
    requires n <= |input|
  {
    if n == 0 then []
    else if Dropped(input, n - 1, smallest, levels, level) then Kept(input, n - 1, smallest, levels, level)
    else Kept(input, n - 1, smallest, levels, level) + [input[n - 1]]
  }

  lemma {:induction false} KeptElements(input: seq<Entry>, n: nat, smallest: nat, levels: seq<Level>, level: nat, e: Entry)
    requires n <= |input|
    ensures e in Kept(input, n, smallest, levels, level) <==>
            exists i :: 0 <= i < n && input[i] == e && !Dropped(input, i, smallest, levels, level)
  {
    if n > 0 {
      KeptElements(input, n - 1, smallest, levels, level, e);
    }
  }

  lemma {:induction false} KeptSorted(input: seq<Entry>, n: nat, smallest: nat, levels: seq<Level>, level: nat)
    requires n <= |input| && Sorted(input)
    ensures Sorted(Kept(input, n, smallest, levels, level))
  {
    if n > 0 {
      KeptSorted(input, n - 1, smallest, levels, level);
      var kept := Kept(input, n - 1, smallest, levels, level);
      forall e | e in kept
        ensures Before(e.key, input[n - 1].key)
      {
        KeptElements(input, n - 1, smallest, levels, level, e);
      }
    }
  }

  /** Entries of one user key are adjacent in sorted input. */
  lemma SameUserRun(input: seq<Entry>, i: nat, j: nat, m: nat)
    requires Sorted(input) && i <= m <= j < |input|
    requires input[i].key.user == input[j].key.user
    ensures input[m].key.user == input[i].key.user
    ensures input[m].key.sequence <= input[i].key.sequence
  {
    assert m == i || Before(input[i].key, input[m].key);
    assert m == j || Before(input[m].key, input[j].key);
  }

  /** Everything older than an entry all snapshots see is hidden. */
  lemma OlderIsHidden(input: seq<Entry>, i: nat, j: nat, smallest: nat)
    requires Sorted(input) && i < j < |input|
    requires input[i].key.user == input[j].key.user
    requires input[i].key.sequence <= smallest
    ensures Hidden(input, j, smallest)
  {
    SameUserRun(input, i, j, j - 1);
  }

  // ------------------------------------------- exactly when reads are preserved

  ghost predicate ReadsPreserved(before: set<Entry>, after: set<Entry>, smallest: nat) {
    forall k, s :: s >= smallest ==> Lookup(before, k, s) == Lookup(after, k, s)
  }

  /** A dropped marker uncovers nothing: the newest entry outside the inputs that
      all snapshots see is absent, a marker itself, or newer than the marker. */
  ghost predicate UncoversNothing(rest: set<Entry>, key: InternalKey, smallest: nat) {
    match Newest(rest, key.user, smallest)
    case None => true
    case Some(e) => e.value.None? || e.key.sequence > key.sequence
  }

  ghost predicate DropsSafe(
    input: seq<Entry>, rest: set<Entry>, smallest: nat, levels: seq<Level>, level: nat)
  {
    forall i :: 0 <= i < |input| && !Hidden(input, i, smallest) &&
                ObsoleteTombstone(input, i, smallest, levels, level) ==>
      UncoversNothing(rest, input[i].key, smallest)
  }

  /** What the two rules do to one read: if the newest visible entry was among the
      inputs and got dropped, it was a deletion marker and no input entry of its
      key that the reader could see is left. */
  lemma DroppedNewest(
    input: seq<Entry>, rest: set<Entry>, smallest: nat, levels: seq<Level>, level: nat,
    k: UserKey, s: nat, i: nat)
    requires Sorted(input) && s >= smallest && i < |input|
    requires IsNewest(Elements(input) + rest, k, s, input[i])
    requires Dropped(input, i, smallest, levels, level)
    ensures !Hidden(input, i, smallest)
    ensures ObsoleteTombstone(input, i, smallest, levels, level)
    ensures forall e :: e in Kept(input, |input|, smallest, levels, level) ==> !Visible(e, k, s)
  {
    assert i > 0 ==> Before(input[i - 1].key, input[i].key);
    assert i > 0 ==> input[i - 1] in Elements(input) + rest;
    forall e | e in Kept(input, |input|, smallest, levels, level)
      ensures !Visible(e, k, s)
    {
      KeptElements(input, |input|, smallest, levels, level, e);
      var j :| 0 <= j < |input| && input[j] == e && !Dropped(input, j, smallest, levels, level);
      if Visible(e, k, s) {
        assert e in Elements(input) + rest;
        if j > i {
          OlderIsHidden(input, i, j, smallest);
        }
      }
    }
  }

  lemma KeptSubset(input: seq<Entry>, smallest: nat, levels: seq<Level>, level: nat)
    ensures Elements(Kept(input, |input|, smallest, levels, level)) <= Elements(input)
  {
    forall e | e in Kept(input, |input|, smallest, levels, level)
      ensures e in input
    {
      KeptElements(input, |input|, smallest, levels, level, e);
    }
  }

  lemma OneReadPreserved(
    input: seq<Entry>, rest: set<Entry>, smallest: nat, levels: seq<Level>, level: nat, k: UserKey, s: nat)
    requires Sorted(input) && Coherent(Elements(input) + rest) && s >= smallest
    requires DropsSafe(input, rest, smallest, levels, level)
    ensures Lookup(Elements(input) + rest, k, s) ==
            Lookup(Elements(Kept(input, |input|, smallest, levels, level)) + rest, k, s)
  {
    var kept := Kept(input, |input|, smallest, levels, level);
    var before, after := Elements(input) + rest, Elements(kept) + rest;
    KeptSubset(input, smallest, levels, level);
    SubsetCoherent(after, before);
    var b := Newest(before, k, s);
    if b.Some? {
      if b.value in after {
        assert IsNewest(after, k, s, b.value);
        NewestUnique(after, k, s, b.value);
      } else {
        var i :| 0 <= i < |input| && input[i] == b.value;
        KeptElements(input, |input|, smallest, levels, level, b.value);
        DroppedNewest(input, rest, smallest, levels, level, k, s, i);
        assert UncoversNothing(rest, input[i].key, smallest);
        var a := Newest(after, k, s);
        if a.Some? {
          assert a.value in rest;
          assert a.value in before;
          assert IsNewest(rest, k, smallest, a.value);
          SubsetCoherent(rest, before);
          NewestUnique(rest, k, smallest, a.value);
        }
      }
    }
  }

  /** A marker that is not hidden is the newest of its key among the inputs that
      the smallest snapshot sees. */
  lemma UnhiddenIsNewest(input: seq<Entry>, i: nat, smallest: nat, f: Entry)
    requires Sorted(input) && i < |input| && !Hidden(input, i, smallest)
    requires f in input && Visible(f, input[i].key.user, smallest)
    ensures f.key.sequence <= input[i].key.sequence
  {
    var j :| 0 <= j < |input| && input[j] == f;
    VisibleHidesOlder(input, i, smallest);
  }

  lemma VisibleHidesOlder(input: seq<Entry>, i: nat, smallest: nat)
    requires Sorted(input) && i < |input|
    ensures forall j :: 0 <= j < i && Visible(input[j], input[i].key.user, smallest) ==> Hidden(input, i, smallest)
  {
    forall j | 0 <= j < i && Visible(input[j], input[i].key.user, smallest)
      ensures Hidden(input, i, smallest)
    {
      OlderIsHidden(input, j, i, smallest);
    }
  }

  /** An unsafe drop is observable: the reader at the smallest snapshot sees it. */
  lemma UnsafeDropObservable(
    input: seq<Entry>, rest: set<Entry>, smallest: nat, levels: seq<Level>, level: nat, i: nat)
    requires Sorted(input) && Coherent(Elements(input) + rest) && i < |input|
    requires !Hidden(input, i, smallest) && ObsoleteTombstone(input, i, smallest, levels, level)
    requires !UncoversNothing(rest, input[i].key, smallest)
    ensures Lookup(Elements(input) + rest, input[i].key.user, smallest) == None
    ensures Lookup(Elements(Kept(input, |input|, smallest, levels, level)) + rest, input[i].key.user, smallest).Some?
  {
    var k := input[i].key.user;
    var kept := Kept(input, |input|, smallest, levels, level);
    var before, after := Elements(input) + rest, Elements(kept) + rest;
    KeptSubset(input, smallest, levels, level);
    SubsetCoherent(after, before);
    var r := Newest(rest, k, smallest).value;
    assert IsNewest(before, k, smallest, input[i]) by {
      forall f | f in before && Visible(f, k, smallest)
        ensures f.key.sequence <= input[i].key.sequence
      {
        if f in input {
          UnhiddenIsNewest(input, i, smallest, f);
        }
      }
    }
    NewestUnique(before, k, smallest, input[i]);
    DroppedNewest(input, rest, smallest, levels, level, k, smallest, i);
    assert IsNewest(after, k, smallest, r);
    NewestUnique(after, k, smallest, r);
  }

  /** The two drop rules change no read at any snapshot from `smallest` on, if and
      only if no dropped marker uncovers a value outside the compaction. */
  lemma CompactionPreservesReads(
    input: seq<Entry>, rest: set<Entry>, smallest: nat, levels: seq<Level>, level: nat)
    requires Sorted(input) && Coherent(Elements(input) + rest)
    ensures ReadsPreserved(Elements(input) + rest,
                           Elements(Kept(input, |input|, smallest, levels, level)) + rest, smallest)
            <==> DropsSafe(input, rest, smallest, levels, level)
  {
    var before := Elements(input) + rest;
    var after := Elements(Kept(input, |input|, smallest, levels, level)) + rest;
    if DropsSafe(input, rest, smallest, levels, level) {
      forall k, s | s >= smallest
        ensures Lookup(before, k, s) == Lookup(after, k, s)
      {
        OneReadPreserved(input, rest, smallest, levels, level, k, s);
      }
    } else {
      var i :| 0 <= i < |input| && !Hidden(input, i, smallest) &&
        ObsoleteTombstone(input, i, smallest, levels, level) &&
        !UncoversNothing(rest, input[i].key, smallest);
      UnsafeDropObservable(input, rest, smallest, levels, level, i);
    }
  }

  // ---------------------------------------------------------------- the loop

  /** The state of one compaction: the version it reads, and one forward-only
      cursor per level for IsBaseLevelForKey. */
  class CompactionState {
    const level: nat
    const levels: seq<Level>
    const smallestSnapshot: nat
    const levelPtrs: array<nat>
    var outputs: seq<FileMetaData>
    var builder: Option<seq<Entry>>
    var nextFileNumber: nat

    ghost predicate Valid() {
      && levelPtrs.Length == kNumLevels
      && |levels| == kNumLevels
      && (forall l :: 0 <= l < kNumLevels ==> ValidFiles(levels[l]))
      && (forall l :: 1 <= l < kNumLevels ==> Disjoint(levels[l]))
    }

    /** Every file a cursor has passed lies wholly before `k`. */
    ghost predicate CursorsBehind(k: UserKey)
      requires Valid()
      reads levelPtrs
    {
      && (forall l :: level + 2 <= l < kNumLevels ==> levelPtrs[l] <= |levels[l]|)
      && (forall l, i :: level + 2 <= l < kNumLevels && 0 <= i < levelPtrs[l] ==> levels[l][i].largest.user < k)
    }

    constructor (level: nat, levels: seq<Level>, smallestSnapshot: nat, nextFileNumber: nat)
      requires |levels| == kNumLevels
      requires forall l :: 0 <= l < kNumLevels ==> ValidFiles(levels[l])
      requires forall l :: 1 <= l < kNumLevels ==> Disjoint(levels[l])
      ensures Valid() && fresh(levelPtrs)
      ensures forall k :: CursorsBehind(k)
      ensures outputs == [] && builder == None
      ensures this.level == level && this.levels == levels && this.smallestSnapshot == smallestSnapshot
      ensures this.nextFileNumber == nextFileNumber
    {
      this.level, this.levels, this.smallestSnapshot := level, levels, smallestSnapshot;
      this.nextFileNumber := nextFileNumber;
      outputs, builder := [], None;
      levelPtrs := new nat[kNumLevels](_ => 0);
    }

    lemma CursorsMonotone(k: UserKey, k': UserKey)
      requires Valid() && CursorsBehind(k) && k <= k'
      ensures CursorsBehind(k')
    {
    }

    /** Asked about keys in non-decreasing order, the cursors answer the stateless
        question whether any deeper file's range contains the key. */
    method IsBaseLevelForKey(k: UserKey) returns (r: bool)
      requires Valid() && CursorsBehind(k)
      modifies levelPtrs
      ensures Valid() && CursorsBehind(k)
      ensures r == BaseLevelForKey(levels, level, k)
    {
      var lvl := level + 2;
      while lvl < kNumLevels
        invariant level + 2 <= lvl
        invariant Valid() && CursorsBehind(k)
        invariant forall l, i :: level + 2 <= l < lvl && l < kNumLevels && 0 <= i < |levels[l]| ==>
                    !(levels[l][i].smallest.user <= k <= levels[l][i].largest.user)
        decreases kNumLevels - lvl
      {
        while levelPtrs[lvl] < |levels[lvl]|
          invariant Valid() && CursorsBehind(k)
          decreases |levels[lvl]| - levelPtrs[lvl]
        {
          var f := levels[lvl][levelPtrs[lvl]];
          if k <= f.largest.user {
            if k >= f.smallest.user {
              return false;
            }
            break;
          }
          levelPtrs[lvl] := levelPtrs[lvl] + 1;
        }
        LevelIsPast(levels[lvl], levelPtrs[lvl], k);
        lvl := lvl + 1;
      }
      return true;
    }

    /** All entries written so far, in order. */
    ghost function Written(): seq<Entry>
      reads this
    {
      Flatten(outputs) + (match builder case None => [] case Some(b) => b)
    }

    /** Finished outputs are valid files; the open one is described by its metadata. */
    ghost predicate OutputsValid(firstNumber: nat)
      reads this
    {
      && nextFileNumber == firstNumber + |outputs|
      && (forall i :: 0 <= i < |outputs| ==> outputs[i].number == firstNumber + i)
      && Ordered(Written())
      && match builder
         case None => ValidFiles(outputs)
         case Some(b) => outputs != [] && b != [] && OpenOutput(outputs[|outputs| - 1], b) && ValidFiles(outputs[..|outputs| - 1])
    }

    method OpenCompactionOutputFile()
      requires builder == None
      modifies this`outputs, this`builder, this`nextFileNumber
      ensures builder == Some([]) && nextFileNumber == old(nextFileNumber) + 1
      ensures exists f :: outputs == old(outputs) + [f] && f.number == old(nextFileNumber) && f.entries == []
    {
      var unset := InternalKey(0.0, 0);
      var f := FileMetaData(nextFileNumber, 0, unset, unset, []);
      outputs := outputs + [f];
      nextFileNumber := nextFileNumber + 1;
      builder := Some([]);
    }

    method FinishCompactionOutputFile(ghost firstNumber: nat)
      requires OutputsValid(firstNumber) && builder.Some?
      modifies this`outputs, this`builder
      ensures OutputsValid(firstNumber) && builder == None
      ensures Written() == old(Written())
      ensures |outputs| == |old(outputs)|
    {
      hide Flatten, Ordered;
      var finished, last := outputs[..|outputs| - 1], outputs[|outputs| - 1];
      assert outputs == finished + [last];
      var bytes: nat := *;
      var done := last.(fileSize := bytes, entries := builder.value);
      FlattenSnoc(finished, last);
      FlattenSnoc(finished, done);
      assert Written() == Flatten(finished) + builder.value;
      OrderedSuffix(Flatten(finished), builder.value);
      OrderedIsValid(done);
      outputs := finished + [done];
      builder := None;
      assert Written() == Flatten(finished) + done.entries;
    }

    /** Copy one entry to the open output, opening one if there is none. */
    method Emit(e: Entry, ghost firstNumber: nat)
      requires OutputsValid(firstNumber)
      requires forall i :: 0 <= i < |Written()| ==> Before(Written()[i].key, e.key)
      requires e.key.sequence <= kMaxSequenceNumber
      modifies this`outputs, this`builder, this`nextFileNumber
      ensures OutputsValid(firstNumber) && builder.Some?
      ensures Written() == old(Written()) + [e]
    {
      hide Ordered, ValidFiles, Flatten;
      ghost var written := Written();
      OrderedSnoc(written, e);
      if builder == None {
        OpenCompactionOutputFile();
        assert outputs[..|outputs| - 1] == old(outputs);
      }
      var finished, last := outputs[..|outputs| - 1], outputs[|outputs| - 1];
      assert outputs == finished + [last];
      if |builder.value| == 0 {
        last := last.(smallest := e.key);
      }
      last := last.(largest := e.key);
      FlattenSnoc(finished, outputs[|outputs| - 1]);
      FlattenSnoc(finished, last);
      assert written == Flatten(finished) + builder.value;
      outputs := finished + [last];
      builder := Some(builder.value + [e]);
      assert Written() == written + [e];
      assert outputs[..|outputs| - 1] == finished;
    }

    lemma NothingWritten()
      requires outputs == [] && builder == None
      ensures OutputsValid(nextFileNumber) && Written() == []
    {
    }

    lemma AllWritten(firstNumber: nat)
      requires OutputsValid(firstNumber) && builder == None
      ensures ValidFiles(outputs) && Flatten(outputs) == Written()
      ensures nextFileNumber == firstNumber + |outputs|
      ensures forall i :: 0 <= i < |outputs| ==> outputs[i].number == firstNumber + i
    {
    }

    /** The two rules, applied to entry `i` with the loop's memory of entry `i - 1`. */
    method ShouldDrop(input: seq<Entry>, i: nat, lastSequenceForKey: nat) returns (drop: bool)
      requires Valid() && i < |input| && CursorsBehind(input[i].key.user)
      requires lastSequenceForKey <= smallestSnapshot <==> Hidden(input, i, smallestSnapshot)
      modifies levelPtrs
      ensures Valid() && CursorsBehind(input[i].key.user)
      ensures drop == Dropped(input, i, smallestSnapshot, levels, level)
    {
      drop := false;
      if lastSequenceForKey <= smallestSnapshot {
        drop := true;
      } else if input[i].value == None && input[i].key.sequence <= smallestSnapshot {
        drop := IsBaseLevelForKey(input[i].key.user);
      }
    }

    /** DoCompactionWork: one pass over the merged input.  Wherever the heuristics
        choose to cut the output, the files together hold exactly the kept entries. */
    method DoCompactionWork(input: seq<Entry>)
      requires Valid() && Sorted(input)
      requires forall k :: CursorsBehind(k)
      requires outputs == [] && builder == None
      requires smallestSnapshot < kMaxSequenceNumber
      requires forall i :: 0 <= i < |input| ==> input[i].key.sequence <= kMaxSequenceNumber
      modifies this`outputs, this`builder, this`nextFileNumber, levelPtrs
      ensures builder == None && ValidFiles(outputs)
      ensures Flatten(outputs) == Kept(input, |input|, smallestSnapshot, levels, level)
      ensures nextFileNumber == old(nextFileNumber) + |outputs|
      ensures forall i :: 0 <= i < |outputs| ==> outputs[i].number == old(nextFileNumber) + i
    {
      hide Flatten, OutputsValid, Dropped, ValidFiles, Sorted, Written, Kept;
      ghost var firstNumber := nextFileNumber;
      NothingWritten();
      KeptNothing(input, smallestSnapshot, levels, level);
      var currentUserKey: Option<UserKey> := None;
      var lastSequenceForKey := kMaxSequenceNumber;
      var i := 0;
      while i < |input|
        invariant i <= |input|
        invariant Valid() && OutputsValid(firstNumber)
        invariant i < |input| ==> CursorsBehind(input[i].key.user)
        invariant Written() == Kept(input, i, smallestSnapshot, levels, level)
        invariant if i == 0 then currentUserKey == None
                  else currentUserKey == Some(input[i - 1].key.user) && lastSequenceForKey == input[i - 1].key.sequence
      {
        var ikey := input[i].key;
        var shouldStopBefore: bool := *;
        if shouldStopBefore && builder != None {
          FinishCompactionOutputFile(firstNumber);
        }
        if currentUserKey != Some(ikey.user) {
          currentUserKey := Some(ikey.user);
          lastSequenceForKey := kMaxSequenceNumber;
        }
        var drop := ShouldDrop(input, i, lastSequenceForKey);
        KeptStep(input, i, smallestSnapshot, levels, level);
        lastSequenceForKey := ikey.sequence;
        if !drop {
          KeptBefore(input, i, smallestSnapshot, levels, level);
          Emit(input[i], firstNumber);
          var bigEnough: bool := *;
          if bigEnough {
            FinishCompactionOutputFile(firstNumber);
          }
        }
        if i + 1 < |input| {
          NextUserKey(input, i);
          CursorsMonotone(ikey.user, input[i + 1].key.user);
        }
        i := i + 1;
      }
      if builder != None {
        FinishCompactionOutputFile(firstNumber);
      }
      AllWritten(firstNumber);
    }
  }

  lemma KeptNothing(input: seq<Entry>, smallest: nat, levels: seq<Level>, level: nat)
    ensures Kept(input, 0, smallest, levels, level) == []
  {
  }

  lemma KeptStep(input: seq<Entry>, i: nat, smallest: nat, levels: seq<Level>, level: nat)
    requires i < |input|
    ensures Kept(input, i + 1, smallest, levels, level) == Kept(input, i, smallest, levels, level) +
      if Dropped(input, i, smallest, levels, level) then [] else [input[i]]
  {
  }

  lemma NextUserKey(input: seq<Entry>, i: nat)
    requires Sorted(input) && i + 1 < |input|
    ensures input[i].key.user <= input[i + 1].key.user
  {
    assert Before(input[i].key, input[i + 1].key);
  }

  function Flatten(files: Level): seq<Entry> {
    if files == [] then [] else Flatten(files[..|files| - 1]) + files[|files| - 1].entries
  }

  lemma FlattenSnoc(files: Level, f: FileMetaData)
    ensures Flatten(files + [f]) == Flatten(files) + f.entries
  {
    assert (files + [f])[..|files|] == files;
  }

  ghost predicate Ordered(es: seq<Entry>) {
    Sorted(es) && forall i :: 0 <= i < |es| ==> es[i].key.sequence <= kMaxSequenceNumber
  }

  /** The metadata of the output being written, whose entries are still in the builder. */
  ghost predicate OpenOutput(f: FileMetaData, b: seq<Entry>)
    requires b != []
  {
    f.entries == [] && f.smallest == b[0].key && f.largest == b[|b| - 1].key
  }

  lemma OrderedIsValid(f: FileMetaData)
    requires f.entries != [] && Ordered(f.entries)
    requires f.smallest == f.entries[0].key && f.largest == f.entries[|f.entries| - 1].key
    ensures f.Valid()
  {
  }

  lemma OrderedSuffix(a: seq<Entry>, b: seq<Entry>)
    requires Ordered(a + b)
    ensures Ordered(b)
  {
    forall i, j | 0 <= i < j < |b|
      ensures Before(b[i].key, b[j].key)
    {
      assert b[i] == (a + b)[|a| + i] && b[j] == (a + b)[|a| + j];
    }
    forall i | 0 <= i < |b|
      ensures b[i].key.sequence <= kMaxSequenceNumber
    {
      assert b[i] == (a + b)[|a| + i];
    }
  }

  lemma OrderedSnoc(es: seq<Entry>, e: Entry)
    requires Ordered(es) && e.key.sequence <= kMaxSequenceNumber
    requires forall i :: 0 <= i < |es| ==> Before(es[i].key, e.key)
    ensures Ordered(es + [e])
  {
  }

  lemma KeptBefore(input: seq<Entry>, n: nat, smallest: nat, levels: seq<Level>, level: nat)
    requires Sorted(input) && n < |input|
    ensures forall e :: e in Kept(input, n, smallest, levels, level) ==> Before(e.key, input[n].key)
  {
    forall e | e in Kept(input, n, smallest, levels, level)
      ensures Before(e.key, input[n].key)
    {
      KeptElements(input, n, smallest, levels, level, e);
    }
  }

  /** A sorted level whose files before `p` end before `k` and whose file `p`, if
      any, starts after `k`, has no file containing `k`. */
  lemma LevelIsPast(files: Level, p: nat, k: UserKey)
    requires ValidFiles(files) && Disjoint(files) && p <= |files|
    requires forall i :: 0 <= i < p ==> files[i].largest.user < k
    requires p < |files| ==> k < files[p].smallest.user
    ensures forall i :: 0 <= i < |files| ==> !(files[i].smallest.user <= k <= files[i].largest.user)
  {
    if p < |files| {
      files[p].InRange(files[p].entries[|files[p].entries| - 1]);
    }
  }
}
