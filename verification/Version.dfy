/** Table files, levels, and the read path of a version: the binary search
    FindFile, the overlap test and Version::Get. */
module Version {
  import opened DbFormat

  /** A table file: what the manifest records about it, and its contents. */
  datatype FileMetaData = FileMetaData(
    number: nat, fileSize: nat, smallest: InternalKey, largest: InternalKey, entries: seq<Entry>)
  {
    ghost predicate Valid() {
      && entries != []
      && Sorted(entries)
      && smallest == entries[0].key
      && largest == entries[|entries| - 1].key
      && forall i :: 0 <= i < |entries| ==> entries[i].key.sequence <= kMaxSequenceNumber
    }

    lemma InRange(e: Entry)
      requires Valid()
      requires e in entries
      ensures AtOrBefore(smallest, e.key) && AtOrBefore(e.key, largest)
    {
    }
  }

  type Level = seq<FileMetaData>

  ghost predicate ValidFiles(files: Level) {
    forall i :: 0 <= i < |files| ==> files[i].Valid()
  }

  /** The files of a level above 0 are sorted and share no internal key. */
  ghost predicate Disjoint(files: Level) {
    forall i, j :: 0 <= i < j < |files| ==> Before(files[i].largest, files[j].smallest)
  }

  ghost predicate DistinctNumbers(files: Level) {
    forall i, j :: 0 <= i < j < |files| ==> files[i].number != files[j].number
  }

  ghost function LevelEntries(files: Level): set<Entry> {
    set f, e | f in files && e in f.entries :: e
  }

  ghost function VersionEntries(levels: seq<Level>): set<Entry> {
    set i, e | 0 <= i < |levels| && e in LevelEntries(levels[i]) :: e
  }

  /** Level 0 is ordered in time by file number: a higher number is newer. */
  ghost predicate NumberIsRecency(files: Level) {
    forall f, g :: f in files && g in files && f.number > g.number ==>
      Newer(Elements(f.entries), Elements(g.entries))
  }

  ghost predicate LevelsNewer(levels: seq<Level>) {
    forall i, j :: 0 <= i < j < |levels| ==> Newer(LevelEntries(levels[i]), LevelEntries(levels[j]))
  }

  ghost predicate WellFormed(levels: seq<Level>) {
    && |levels| == kNumLevels
    && (forall i :: 0 <= i < |levels| ==> ValidFiles(levels[i]))
    && (forall i :: 1 <= i < |levels| ==> Disjoint(levels[i]))
    && DistinctNumbers(levels[0])
    && NumberIsRecency(levels[0])
    && LevelsNewer(levels)
    && Coherent(VersionEntries(levels))
  }

  // ---------------------------------------------------------------- FindFile

  method FindFile(files: Level, key: InternalKey) returns (right: nat)
    requires ValidFiles(files) && Disjoint(files)
    ensures right <= |files|
    ensures forall i :: 0 <= i < right ==> Before(files[i].largest, key)
    ensures forall i :: right <= i < |files| ==> !Before(files[i].largest, key)
  {
    var left := 0;
    right := |files|;
    while left < right
      invariant left <= right <= |files|
      invariant forall i :: 0 <= i < left ==> Before(files[i].largest, key)
      invariant forall i :: right <= i < |files| ==> !Before(files[i].largest, key)
    {
      var mid := (left + right) / 2;
      if Before(files[mid].largest, key) {
        forall i | 0 <= i <= mid
          ensures Before(files[i].largest, key)
        {
          LargestMonotone(files, i, mid);
        }
        left := mid + 1;
      } else {
        forall i | mid <= i < |files|
          ensures !Before(files[i].largest, key)
        {
          LargestMonotone(files, mid, i);
        }
        right := mid;
      }
    }
  }

  lemma LargestMonotone(files: Level, i: nat, j: nat)
    requires ValidFiles(files) && Disjoint(files)
    requires i <= j < |files|
    ensures AtOrBefore(files[i].largest, files[j].largest)
  {
    if i < j {
      files[j].InRange(files[j].entries[0]);
    }
  }

  // ------------------------------------------------------ SomeFileOverlapsRange

  /** `None` as a lower bound is before all keys, as an upper bound after all keys. */
  predicate AfterFile(lo: Option<UserKey>, f: FileMetaData) {
    lo.Some? && lo.value > f.largest.user
  }

  predicate BeforeFile(hi: Option<UserKey>, f: FileMetaData) {
    hi.Some? && hi.value < f.smallest.user
  }

  predicate Overlaps(lo: Option<UserKey>, hi: Option<UserKey>, f: FileMetaData) {
    !AfterFile(lo, f) && !BeforeFile(hi, f)
  }

  /** With or without the binary search, the answer is that of the linear scan. */
  method SomeFileOverlapsRange(disjointSorted: bool, files: Level, lo: Option<UserKey>, hi: Option<UserKey>)
    returns (r: bool)
    requires disjointSorted ==> ValidFiles(files) && Disjoint(files)
    ensures r <==> exists i :: 0 <= i < |files| && Overlaps(lo, hi, files[i])
  {
    if !disjointSorted {
      var i := 0;
      while i < |files|
        invariant i <= |files|
        invariant forall j :: 0 <= j < i ==> !Overlaps(lo, hi, files[j])
      {
        if AfterFile(lo, files[i]) || BeforeFile(hi, files[i]) {
        } else {
          return true;
        }
        i := i + 1;
      }
      return false;
    }
    var index := 0;
    if lo.Some? {
      index := FindFile(files, InternalKey(lo.value, kMaxSequenceNumber));
    }
    if index >= |files| {
      return false;
    }
    forall j | 0 <= j < |files|
      ensures Overlaps(lo, hi, files[j]) ==> Overlaps(lo, hi, files[index])
      ensures !BeforeFile(hi, files[index]) ==> Overlaps(lo, hi, files[index])
    {
      files[index].InRange(files[index].entries[|files[index].entries| - 1]);
      if index < j {
        files[index].InRange(files[index].entries[0]);
      }
    }
    return !BeforeFile(hi, files[index]);
  }

  // ---------------------------------------------------------------- Table lookup

  /** Index of the first entry at or after `key`: what an iterator's Seek finds. */
  function SeekIndex(es: seq<Entry>, key: InternalKey): (i: nat)
    ensures i <= |es|
    ensures forall j :: 0 <= j < i ==> Before(es[j].key, key)
    ensures i < |es| ==> !Before(es[i].key, key)
  {
    if es == [] || !Before(es[0].key, key) then 0
    else 1 + SeekIndex(es[1..], key)
  }

  datatype SaverState = NotFound | Found(value: Value) | Deleted

  /** TableCache::Get with the SaveValue callback (the callback sees the first
      entry at or after the lookup key), and MemTable::Get. */
  function SeekAndSave(es: seq<Entry>, k: UserKey, s: nat): SaverState {
    var i := SeekIndex(es, InternalKey(k, s));
    if i == |es| || es[i].key.user != k then NotFound
    else match es[i].value
      case Some(v) => Found(v)
      case None => Deleted
  }

  ghost function StateOf(e: Option<Entry>): SaverState {
    match e
    case None => NotFound
    case Some(Entry(_, Some(v))) => Found(v)
    case Some(Entry(_, None)) => Deleted
  }

  function AnswerOf(st: SaverState): Option<Value> {
    match st
    case Found(v) => Some(v)
    case _ => None
  }

  /** One seek in sorted entries answers with the newest visible entry. */
  lemma SeekFindsNewest(es: seq<Entry>, k: UserKey, s: nat)
    requires Sorted(es)
    ensures SeekAndSave(es, k, s) == StateOf(Newest(Elements(es), k, s))
  {
    var S := Elements(es);
    var i := SeekIndex(es, InternalKey(k, s));
    forall j | 0 <= j < |es| && Visible(es[j], k, s)
      ensures i <= j
    {
    }
    if i < |es| && es[i].key.user == k {
      assert IsNewest(S, k, s, es[i]);
      NewestUnique(S, k, s, es[i]);
    } else {
      forall j | 0 <= j < |es|
        ensures !Visible(es[j], k, s)
      {
      }
    }
  }

  // ---------------------------------------------------------------- Version::Get

  predicate NewestFirst(files: Level) {
    forall i, j :: 0 <= i < j < |files| ==> files[i].number >= files[j].number
  }

  /** Sorting with the NewestFirst order, one insertion at a time. */
  function InsertNewestFirst(tmp: Level, f: FileMetaData): (r: Level)
    requires NewestFirst(tmp)
    ensures NewestFirst(r)
    ensures forall g :: g in r <==> g in tmp || g == f
  {
    if tmp == [] || tmp[0].number <= f.number then
      [f] + tmp
    else
      var rest := InsertNewestFirst(tmp[1..], f);
      assert tmp == [tmp[0]] + tmp[1..];
      assert forall g :: g in rest ==> g.number <= tmp[0].number;
      [tmp[0]] + rest
  }

  /** The level-0 files whose user-key range covers `k`, newest first. */
  method CandidatesNewestFirst(files: Level, k: UserKey) returns (tmp: Level)
    ensures NewestFirst(tmp)
    ensures forall f :: f in tmp <==> f in files && f.smallest.user <= k <= f.largest.user
  {
    tmp := [];
    for i := 0 to |files|
      invariant NewestFirst(tmp)
      invariant forall f :: f in tmp <==> f in files[..i] && f.smallest.user <= k <= f.largest.user
    {
      var f := files[i];
      assert files[..i + 1] == files[..i] + [f];
      if k >= f.smallest.user && k <= f.largest.user {
        tmp := InsertNewestFirst(tmp, f);
      }
    }
    assert files[..|files|] == files;
  }

  ghost predicate Silent(f: FileMetaData, k: UserKey, s: nat) {
    forall e :: e in f.entries ==> !Visible(e, k, s)
  }

  lemma SilentFile(f: FileMetaData, k: UserKey, s: nat)
    requires Newest(Elements(f.entries), k, s) == None
    ensures Silent(f, k, s)
  {
    assert forall e :: e in f.entries ==> e in Elements(f.entries);
  }

  lemma NoneVisibleNewest(files: Level, k: UserKey, s: nat)
    requires forall f :: f in files ==> Silent(f, k, s)
    ensures Newest(LevelEntries(files), k, s) == None
  {
  }

  lemma NewestInLevel(files: Level, f: FileMetaData, k: UserKey, s: nat, e: Entry)
    requires f in files && e in f.entries && Visible(e, k, s)
    requires Coherent(LevelEntries(files))
    requires forall g, d :: g in files && d in g.entries && Visible(d, k, s) ==> d.key.sequence <= e.key.sequence
    ensures Newest(LevelEntries(files), k, s) == Some(e)
  {
    assert IsNewest(LevelEntries(files), k, s, e);
    NewestUnique(LevelEntries(files), k, s, e);
  }

  /** A hit in the newest file that has one is the newest of the whole level. */
  lemma Level0Hit(files: Level, tmp: Level, i: nat, k: UserKey, s: nat, e: Entry, g: FileMetaData, d: Entry)
    requires ValidFiles(files) && DistinctNumbers(files) && NumberIsRecency(files)
    requires NewestFirst(tmp)
    requires forall f :: f in tmp <==> f in files && f.smallest.user <= k <= f.largest.user
    requires i < |tmp| && IsNewest(Elements(tmp[i].entries), k, s, e)
    requires forall j :: 0 <= j < i ==> Silent(tmp[j], k, s)
    requires g in files && d in g.entries && Visible(d, k, s)
    ensures d.key.sequence <= e.key.sequence
  {
    var f := tmp[i];
    assert f in tmp;
    g.InRange(d);
    assert g in tmp;
    var j :| 0 <= j < |tmp| && tmp[j] == g;
    if j < i {
      assert false;
    } else if g != f {
      assert f.number > g.number;
      assert Newer(Elements(f.entries), Elements(g.entries));
      assert e in Elements(f.entries) && d in Elements(g.entries);
    } else {
      assert d in Elements(f.entries);
    }
  }

  lemma Level0Miss(files: Level, tmp: Level, k: UserKey, s: nat)
    requires ValidFiles(files)
    requires forall f :: f in tmp <==> f in files && f.smallest.user <= k <= f.largest.user
    requires forall j :: 0 <= j < |tmp| ==> Silent(tmp[j], k, s)
    ensures Newest(LevelEntries(files), k, s) == None
  {
    forall g | g in files
      ensures Silent(g, k, s)
    {
      if g in tmp {
        var j :| 0 <= j < |tmp| && tmp[j] == g;
        assert Silent(tmp[j], k, s);
      } else {
        forall d | d in g.entries
          ensures !Visible(d, k, s)
        {
          g.InRange(d);
        }
      }
    }
    NoneVisibleNewest(files, k, s);
  }

  lemma Level0FirstHit(files: Level, tmp: Level, i: nat, k: UserKey, s: nat)
    requires ValidFiles(files) && DistinctNumbers(files) && NumberIsRecency(files)
    requires Coherent(LevelEntries(files))
    requires NewestFirst(tmp)
    requires forall f :: f in tmp <==> f in files && f.smallest.user <= k <= f.largest.user
    requires i < |tmp| && Newest(Elements(tmp[i].entries), k, s).Some?
    requires forall j :: 0 <= j < i ==> Silent(tmp[j], k, s)
    ensures Newest(LevelEntries(files), k, s) == Newest(Elements(tmp[i].entries), k, s)
  {
    var e := Newest(Elements(tmp[i].entries), k, s).value;
    assert tmp[i] in tmp;
    forall g, d | g in files && d in g.entries && Visible(d, k, s)
      ensures d.key.sequence <= e.key.sequence
    {
      Level0Hit(files, tmp, i, k, s, e, g, d);
    }
    NewestInLevel(files, tmp[i], k, s, e);
  }

  method SearchLevel0(files: Level, k: UserKey, s: nat) returns (r: SaverState)
    requires ValidFiles(files) && DistinctNumbers(files) && NumberIsRecency(files)
    requires Coherent(LevelEntries(files))
    ensures r == StateOf(Newest(LevelEntries(files), k, s))
  {
    hide NumberIsRecency, Coherent, DistinctNumbers, LevelEntries, Newer;
    var tmp := CandidatesNewestFirst(files, k);
    for i := 0 to |tmp|
      invariant forall j :: 0 <= j < i ==> Silent(tmp[j], k, s)
    {
      assert tmp[i] in tmp;
      r := SeekAndSave(tmp[i].entries, k, s);
      SeekFindsNewest(tmp[i].entries, k, s);
      if !r.NotFound? {
        Level0FirstHit(files, tmp, i, k, s);
        return;
      }
      SilentFile(tmp[i], k, s);
    }
    Level0Miss(files, tmp, k, s);
    return NotFound;
  }

  /** The files before `index` end before the lookup key, so they hold nothing for it. */
  lemma SilentBefore(files: Level, index: nat, k: UserKey, s: nat)
    requires ValidFiles(files) && index <= |files|
    requires forall i :: 0 <= i < index ==> Before(files[i].largest, InternalKey(k, s))
    ensures forall i :: 0 <= i < index ==> Silent(files[i], k, s)
  {
    forall i, e | 0 <= i < index && e in files[i].entries
      ensures !Visible(e, k, s)
    {
      files[i].InRange(e);
    }
  }

  /** In the file found by FindFile, the newest visible entry is the level's newest. */
  lemma SortedLevelHit(files: Level, index: nat, k: UserKey, s: nat)
    requires ValidFiles(files) && Disjoint(files) && Coherent(LevelEntries(files))
    requires index < |files|
    requires forall i :: 0 <= i < index ==> Silent(files[i], k, s)
    requires Newest(Elements(files[index].entries), k, s).Some?
    ensures Newest(LevelEntries(files), k, s) == Newest(Elements(files[index].entries), k, s)
  {
    var f := files[index];
    var e := Newest(Elements(f.entries), k, s).value;
    f.InRange(e);
    forall g, d | g in files && d in g.entries && Visible(d, k, s)
      ensures d.key.sequence <= e.key.sequence
    {
      var j :| 0 <= j < |files| && files[j] == g;
      g.InRange(d);
      if j == index {
        assert d in Elements(f.entries);
      }
    }
    NewestInLevel(files, f, k, s, e);
  }

  /** If the found file has nothing visible for `k`, no file of the level has. */
  lemma SortedLevelMiss(files: Level, index: nat, k: UserKey, s: nat)
    requires ValidFiles(files) && Disjoint(files)
    requires index <= |files|
    requires forall i :: 0 <= i < index ==> Silent(files[i], k, s)
    requires index < |files| ==> !Before(files[index].largest, InternalKey(k, s)) && Silent(files[index], k, s)
    ensures Newest(LevelEntries(files), k, s) == None
  {
    forall j | index < j < |files|
      ensures Silent(files[j], k, s)
    {
      files[index].InRange(files[index].entries[|files[index].entries| - 1]);
      forall d | d in files[j].entries
        ensures !Visible(d, k, s)
      {
        files[j].InRange(d);
      }
    }
    NoneVisibleNewest(files, k, s);
  }

  /** One file suffices at a sorted level, even when a user key spans two files. */
  method SearchSortedLevel(files: Level, k: UserKey, s: nat) returns (r: SaverState)
    requires ValidFiles(files) && Disjoint(files)
    requires Coherent(LevelEntries(files))
    ensures r == StateOf(Newest(LevelEntries(files), k, s))
  {
    hide Coherent, LevelEntries;
    var index := FindFile(files, InternalKey(k, s));
    SilentBefore(files, index, k, s);
    if index >= |files| {
      SortedLevelMiss(files, index, k, s);
      return NotFound;
    }
    if k < files[index].smallest.user {
      assert Silent(files[index], k, s) by {
        forall e | e in files[index].entries
          ensures !Visible(e, k, s)
        {
          files[index].InRange(e);
        }
      }
      SortedLevelMiss(files, index, k, s);
      return NotFound;
    }
    r := SeekAndSave(files[index].entries, k, s);
    SeekFindsNewest(files[index].entries, k, s);
    if Newest(Elements(files[index].entries), k, s).Some? {
      SortedLevelHit(files, index, k, s);
    } else {
      SilentFile(files[index], k, s);
      SortedLevelMiss(files, index, k, s);
    }
  }

  lemma LevelIsCoherent(levels: seq<Level>, l: nat)
    requires l < |levels| && Coherent(VersionEntries(levels))
    ensures Coherent(LevelEntries(levels[l]))
  {
    forall e | e in LevelEntries(levels[l])
      ensures e in VersionEntries(levels)
    {
    }
  }

  ghost predicate NothingAbove(levels: seq<Level>, level: nat, k: UserKey, s: nat)
    requires level <= |levels|
  {
    forall l :: 0 <= l < level ==> Newest(LevelEntries(levels[l]), k, s) == None
  }

  /** The first level that holds a visible entry holds the newest one. */
  lemma FirstLevelWins(levels: seq<Level>, level: nat, k: UserKey, s: nat)
    requires level < |levels| && LevelsNewer(levels) && Coherent(VersionEntries(levels))
    requires NothingAbove(levels, level, k, s)
    requires Newest(LevelEntries(levels[level]), k, s).Some?
    ensures Newest(VersionEntries(levels), k, s) == Newest(LevelEntries(levels[level]), k, s)
  {
    var e := Newest(LevelEntries(levels[level]), k, s).value;
    forall l, f | 0 <= l < |levels| && f in LevelEntries(levels[l]) && Visible(f, k, s)
      ensures f.key.sequence <= e.key.sequence
    {
      if l > level {
        assert Newer(LevelEntries(levels[level]), LevelEntries(levels[l]));
      }
    }
    assert IsNewest(VersionEntries(levels), k, s, e);
    NewestUnique(VersionEntries(levels), k, s, e);
  }

  lemma NoLevelAnswers(levels: seq<Level>, k: UserKey, s: nat)
    requires NothingAbove(levels, |levels|, k, s)
    ensures Newest(VersionEntries(levels), k, s) == None
  {
    forall l, f | 0 <= l < |levels| && f in LevelEntries(levels[l])
      ensures !Visible(f, k, s)
    {
      assert Newest(LevelEntries(levels[l]), k, s) == None;
    }
  }

  /** Version::Get: level by level, stopping at the first level that answers, is
      a flat search for the newest visible entry over every file of the version. */
  method Get(levels: seq<Level>, k: UserKey, s: nat) returns (r: SaverState)
    requires WellFormed(levels)
    ensures r == StateOf(Newest(VersionEntries(levels), k, s))
  {
    hide LevelsNewer, Newer, NumberIsRecency, Coherent, VersionEntries, LevelEntries;
    var level := 0;
    r := NotFound;
    while level < kNumLevels
      invariant level <= kNumLevels
      invariant r == NotFound
      invariant NothingAbove(levels, level, k, s)
    {
      LevelIsCoherent(levels, level);
      if |levels[level]| > 0 {
        if level == 0 {
          r := SearchLevel0(levels[0], k, s);
        } else {
          r := SearchSortedLevel(levels[level], k, s);
        }
      } else {
        NoneVisibleNewest(levels[level], k, s);
      }
      if r != NotFound {
        FirstLevelWins(levels, level, k, s);
        return;
      }
      level := level + 1;
    }
    NoLevelAnswers(levels, k, s);
  }
}
