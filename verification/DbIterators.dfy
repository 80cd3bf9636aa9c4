/** The iterator a client gets: DBIter over the merge of the memtables and every
    table of the current version. */
module DbIterators {
  import opened DbFormat
  import opened Version
  import opened Compaction
  import opened DbState
  import opened DbSteps
  import opened SortedIterator
  import opened Merger
  import opened DbIter
  import opened DbImpl
  import Recovery

  // ---------------------------------------------------------------- the sources

  /** The lists NewInternalIterator merges: the memtables, each table of level 0, and each
      level below that has a table, read as one list. */
  function SourceLists(mem: seq<Entry>, imm: Option<seq<Entry>>, levels: seq<Level>): seq<seq<Entry>>
    requires levels != []
  {
    [mem] + (if imm.Some? then [imm.value] else []) + FileLists(levels[0]) + LevelLists(levels, 1)
  }

  function FileLists(files: Level): seq<seq<Entry>> {
    seq(|files|, i requires 0 <= i < |files| => files[i].entries)
  }

  function LevelLists(levels: seq<Level>, l: nat): seq<seq<Entry>>
    decreases |levels| - l
  {
    if l >= |levels| then []
    else (if levels[l] == [] then [] else [Flatten(levels[l])]) + LevelLists(levels, l + 1)
  }

  /** Sorted lists that share no key and together hold the entries `S`. */
  ghost predicate Partition(lists: seq<seq<Entry>>, S: set<Entry>) {
    && (forall c: nat :: c < |lists| ==> Sorted(lists[c]))
    && DistinctKeys(lists)
    && forall e :: e in S <==> Among(lists, e)
  }

  ghost predicate Among(lists: seq<seq<Entry>>, e: Entry) {
    exists c: nat :: c < |lists| && e in lists[c]
  }

  lemma OneList(es: seq<Entry>)
    requires Sorted(es)
    ensures Partition([es], Elements(es))
  {
    forall e
      ensures e in Elements(es) <==> Among([es], e)
    {
      assert [es][0] == es;
    }
  }

  lemma NoList()
    ensures Partition([], {})
  {
  }

  lemma AmongBoth(a: seq<seq<Entry>>, b: seq<seq<Entry>>, e: Entry)
    ensures Among(a + b, e) <==> Among(a, e) || Among(b, e)
  {
    if c: nat :| c < |a| && e in a[c] {
      assert (a + b)[c] == a[c];
    } else if d: nat :| d < |b| && e in b[d] {
      assert (a + b)[|a| + d] == b[d];
    }
  }

  /** Newer entries and older ones have no key in common. */
  lemma Joined(a: seq<seq<Entry>>, A: set<Entry>, b: seq<seq<Entry>>, B: set<Entry>)
    requires Partition(a, A) && Partition(b, B) && Newer(A, B)
    ensures Partition(a + b, A + B)
  {
    var lists := a + b;
    forall e
      ensures e in A + B <==> Among(lists, e)
    {
      AmongBoth(a, b, e);
    }
    forall c: nat, d: nat, e: Entry, f: Entry | c < |lists| && d < |lists| && e in lists[c] && f in lists[d] && e.key == f.key
      ensures c == d
    {
      if c < |a| <= d {
        assert Among(a, e) && f in b[d - |a|] && Among(b, f);
      } else if d < |a| <= c {
        assert Among(a, f) && e in b[c - |a|] && Among(b, e);
      }
    }
  }

  lemma FilesPartition(files: Level)
    requires ValidFiles(files) && DistinctNumbers(files) && NumberIsRecency(files)
    ensures Partition(FileLists(files), LevelEntries(files))
  {
    hide DistinctNumbers, NumberIsRecency;
    var lists := FileLists(files);
    forall e
      ensures e in LevelEntries(files) <==> Among(lists, e)
    {
      if c: nat :| c < |lists| && e in lists[c] {
        assert files[c] in files;
      }
      if e in LevelEntries(files) {
        var f :| f in files && e in f.entries;
        var i: nat :| i < |files| && files[i] == f;
        assert e in lists[i];
      }
    }
    forall c: nat, d: nat, e: Entry, f: Entry | c < |lists| && d < |lists| && e in lists[c] && f in lists[d] && e.key == f.key
      ensures c == d
    {
      if c != d {
        FilesApart(files, c, d, e, f);
      }
    }
  }

  lemma FilesApart(files: Level, c: nat, d: nat, e: Entry, f: Entry)
    requires DistinctNumbers(files) && NumberIsRecency(files) && c < |files| && d < |files| && c != d
    requires e in files[c].entries && f in files[d].entries
    ensures e.key != f.key
  {
    assert files[c].number != files[d].number;
    assert e in Elements(files[c].entries) && f in Elements(files[d].entries);
  }

  /** The tables of a level below 0, one after another, are one sorted list. */
  lemma {:induction false} FlattenSorted(files: Level)
    requires ValidFiles(files) && Disjoint(files)
    ensures Sorted(Flatten(files))
    decreases |files|
  {
    if files != [] {
      var init, last := files[..|files| - 1], files[|files| - 1];
      FlattenSorted(init);
      FlattenEntries(init);
      forall i, j | 0 <= i < |Flatten(init)| && 0 <= j < |last.entries|
        ensures Before(Flatten(init)[i].key, last.entries[j].key)
      {
        var e := Flatten(init)[i];
        assert e in Elements(Flatten(init));
        var f :| f in init && e in f.entries;
        var k: nat :| k < |init| && init[k] == f;
        assert files[k] == f && Before(f.largest, last.smallest);
        f.InRange(e);
        last.InRange(last.entries[j]);
      }
    }
  }

  ghost function EntriesFrom(levels: seq<Level>, l: nat): set<Entry> {
    set i, e | l <= i < |levels| && e in LevelEntries(levels[i]) :: e
  }

  lemma {:induction false} LevelsPartition(levels: seq<Level>, l: nat)
    requires WellFormed(levels) && 1 <= l <= |levels|
    ensures Partition(LevelLists(levels, l), EntriesFrom(levels, l))
    decreases |levels| - l
  {
    hide Partition, LevelEntries, Flatten;
    if l == |levels| {
      NoList();
      assert EntriesFrom(levels, l) == {};
    } else {
      var here, below := LevelEntries(levels[l]), EntriesFrom(levels, l + 1);
      LevelsPartition(levels, l + 1);
      assert EntriesFrom(levels, l) == here + below;
      assert Newer(here, below);
      FlattenSorted(levels[l]);
      FlattenEntries(levels[l]);
      OneList(Flatten(levels[l]));
      if levels[l] == [] {
        assert LevelLists(levels, l) == LevelLists(levels, l + 1);
        assert here == {} by { NothingIn(); }
        assert here + below == below;
      } else {
        Joined([Flatten(levels[l])], here, LevelLists(levels, l + 1), below);
      }
    }
  }

  lemma NothingIn()
    ensures LevelEntries([]) == {}
  {
  }

  lemma VersionPartition(levels: seq<Level>)
    requires WellFormed(levels)
    ensures Partition(FileLists(levels[0]) + LevelLists(levels, 1), VersionEntries(levels))
  {
    hide Partition, LevelEntries;
    var zero, below := LevelEntries(levels[0]), EntriesFrom(levels, 1);
    assert VersionEntries(levels) == zero + below;
    assert Newer(zero, below);
    FilesPartition(levels[0]);
    LevelsPartition(levels, 1);
    Joined(FileLists(levels[0]), zero, LevelLists(levels, 1), below);
  }

  /** What a state with the invariant gives NewInternalIterator to merge. */
  lemma SourcesPartition(st: State)
    requires Inv(st)
    ensures st.levels != [] && Partition(SourceLists(st.mem, st.imm, st.levels), Store(st))
  {
    hide Partition, Sorted, Newer, VersionEntries, ReadsInv, FromHistory, NumbersInv, WellFormed, FileLists, LevelLists;
    SomeLevel(st);
    VersionPartition(st.levels);
    MemPartition(st.mem, st.imm, ImmEntries(st), FileLists(st.levels[0]) + LevelLists(st.levels, 1), VersionEntries(st.levels));
    var version := FileLists(st.levels[0]) + LevelLists(st.levels, 1);
    var imm := if st.imm.Some? then [st.imm.value] else [];
    assert SourceLists(st.mem, st.imm, st.levels) == [st.mem] + (imm + version);
    assert Store(st) == Elements(st.mem) + (ImmEntries(st) + VersionEntries(st.levels));
  }

  lemma SomeLevel(st: State)
    requires Inv(st)
    ensures |st.levels| == kNumLevels
  {
  }

  /** The memtables in front of what is older. */
  lemma MemPartition(mem: seq<Entry>, imm: Option<seq<Entry>>, I: set<Entry>, version: seq<seq<Entry>>, V: set<Entry>)
    requires Sorted(mem) && (imm.Some? ==> Sorted(imm.value)) && I == (if imm.Some? then Elements(imm.value) else {})
    requires Partition(version, V) && Newer(Elements(mem), I) && Newer(Elements(mem), V) && Newer(I, V)
    ensures Partition([mem] + ((if imm.Some? then [imm.value] else []) + version), Elements(mem) + (I + V))
  {
    hide Partition, Sorted;
    if imm.Some? {
      OneList(imm.value);
    } else {
      NoList();
    }
    Joined(if imm.Some? then [imm.value] else [], I, version, V);
    OneList(mem);
    Joined([mem], Elements(mem), (if imm.Some? then [imm.value] else []) + version, I + V);
  }

  // ---------------------------------------------------------------- what a client sees

  /** At every live snapshot the iterator shows exactly the history's map: a key is
      under the cursor with value `v` at some position if and only if its last write
      numbered `s` or less put `v`. */
  lemma IteratorShowsHistory(st: State, merged: seq<Entry>, k: UserKey, s: nat, v: Value)
    requires Inv(st) && SmallestSnapshot(st) <= s
    requires st.levels != [] && IsMerge(SourceLists(st.mem, st.imm, st.levels), merged)
    ensures HistoryGet(st.hist, k, s) == Some(v) <==> ShowsAs(merged, s, k, v)
  {
    var lists := SourceLists(st.mem, st.imm, st.levels);
    SourcesPartition(st);
    forall e
      ensures e in Elements(merged) <==> e in Store(st)
    {
      assert e in Store(st) <==> Among(lists, e);
      if c: nat :| c < |lists| && e in lists[c] {
        assert Part(lists[c], merged);
      }
    }
    assert Elements(merged) == Store(st);
    UseReads(st, k, s);
    ShownIsReadable(merged, s, k, v);
  }

  ghost predicate ShowsAs(merged: seq<Entry>, s: nat, k: UserKey, v: Value) {
    exists i: nat :: Shown(merged, s, i) && merged[i].key.user == k && merged[i].value == Some(v)
  }

  /** DBImpl::NewIterator: whatever the state of the database, the positions of the new
      iterator are the map that the history of writes gives at the snapshot. */
  method NewIterator(db: DBImpl, snapshot: Option<nat>) returns (it: DBIter)
    requires db.Valid()
    requires snapshot.Some? ==> snapshot.value in db.snapshots
    ensures fresh(it) && fresh(it.iter) && it.Inv() && !it.valid
    ensures it.sequence == if snapshot.Some? then snapshot.value else |db.hist|
    ensures forall k, v :: HistoryGet(db.hist, k, it.sequence) == Some(v) <==> ShowsAs(it.iter.merged, it.sequence, k, v)
  {
    hide Recovery.DbInv, Inv, IsMerge, Partition, ShowsAs;
    ghost var st := db.AbsState();
    var sequence := if snapshot.Some? then snapshot.value else db.versions.lastSequence;
    db.Readable(sequence);
    SourcesPartition(st);
    var internal := NewInternalIterator(db.mem, db.imm, db.versions.current, Store(st));
    it := new DBIter(internal, sequence);
    forall k, v
      ensures HistoryGet(db.hist, k, sequence) == Some(v) <==> ShowsAs(internal.merged, sequence, k, v)
    {
      IteratorShowsHistory(st, internal.merged, k, sequence, v);
    }
  }

  method NewInternalIterator(mem: seq<Entry>, imm: Option<seq<Entry>>, levels: seq<Level>, ghost S: set<Entry>)
    returns (iter: MergingIterator)
    requires levels != [] && Partition(SourceLists(mem, imm, levels), S)
    ensures fresh(iter) && fresh(iter.children) && iter.Inv() && !iter.Valid()
    ensures IsMerge(SourceLists(mem, imm, levels), iter.merged)
  {
    var lists := SourceLists(mem, imm, levels);
    var children: seq<ListIterator> := [];
    for i := 0 to |lists|
      invariant |children| == i && fresh(children)
      invariant forall j, k :: 0 <= j < k < i ==> children[j] != children[k]
      invariant forall j :: 0 <= j < i ==> children[j].WellFormed() && children[j].entries == lists[j]
    {
      var child := new ListIterator(lists[i]);
      children := children + [child];
    }
    MergeExists(lists);
    ghost var merged :| IsMerge(lists, merged);
    assert seq(|children|, i requires 0 <= i < |children| => children[i].entries) == lists;
    iter := new MergingIterator(children, merged);
  }
}
