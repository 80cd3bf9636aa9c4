/** Which files a compaction takes: overlapping files, boundary files, and the
    expansion that must not change the lower level's choice. */
module InputSelection {
  import opened DbFormat
  import opened Version

  type Bound = Option<UserKey>

  // ------------------------------------------------------- GetOverlappingInputs

  /** The files that overlap [lo, hi], in file order; None is unbounded. */
  function Overlapping(files: Level, lo: Bound, hi: Bound): (r: Level)
    ensures forall f :: f in r <==> f in files && Overlaps(lo, hi, f)
  {
    if files == [] then []
    else (if Overlaps(lo, hi, files[0]) then [files[0]] else []) + Overlapping(files[1..], lo, hi)
  }

  predicate Inside(f: FileMetaData, lo: Bound, hi: Bound) {
    (lo.Some? ==> lo.value <= f.smallest.user) && (hi.Some? ==> f.largest.user <= hi.value)
  }

  predicate Contains(lo: Bound, hi: Bound, lo': Bound, hi': Bound) {
    && (lo.None? || (lo'.Some? && lo.value <= lo'.value))
    && (hi.None? || (hi'.Some? && hi'.value <= hi.value))
  }

  /** Every file that overlaps the range lies inside it. */
  ghost predicate ClosedRange(files: Level, lo: Bound, hi: Bound) {
    forall f :: f in files && Overlaps(lo, hi, f) ==> Inside(f, lo, hi)
  }

  /** [lo, hi] is the least closed range that contains [begin, end]. */
  ghost predicate LeastClosed(files: Level, begin: Bound, end: Bound, lo: Bound, hi: Bound) {
    && Contains(lo, hi, begin, end)
    && ClosedRange(files, lo, hi)
    && InEveryClosed(files, begin, end, lo, hi)
  }

  ghost predicate InEveryClosed(files: Level, begin: Bound, end: Bound, lo: Bound, hi: Bound) {
    forall lo', hi' :: Contains(lo', hi', begin, end) && ClosedRange(files, lo', hi') ==> Contains(lo', hi', lo, hi)
  }

  /** How many file ends still stick out of the range; each restart lowers it. */
  ghost function Sticking(files: Level, lo: Bound, hi: Bound): nat {
    if files == [] then
      0
    else
      (if lo.Some? && files[0].smallest.user < lo.value then 1 else 0)
      + (if hi.Some? && files[0].largest.user > hi.value then 1 else 0)
      + Sticking(files[1..], lo, hi)
  }

  lemma {:induction false} StickingShrinks(files: Level, lo: Bound, hi: Bound, lo': Bound, hi': Bound)
    requires Contains(lo', hi', lo, hi)
    ensures Sticking(files, lo', hi') <= Sticking(files, lo, hi)
    ensures (exists f :: f in files && (
              || (lo.Some? && lo'.Some? && lo'.value <= f.smallest.user < lo.value)
              || (hi.Some? && hi'.Some? && hi.value < f.largest.user <= hi'.value)))
            ==> Sticking(files, lo', hi') < Sticking(files, lo, hi)
  {
    if files != [] {
      StickingShrinks(files[1..], lo, hi, lo', hi');
      assert files == [files[0]] + files[1..];
    }
  }

  lemma {:induction false} OverlappingSnoc(files: Level, f: FileMetaData, lo: Bound, hi: Bound)
    ensures Overlapping(files + [f], lo, hi) ==
            Overlapping(files, lo, hi) + if Overlaps(lo, hi, f) then [f] else []
  {
    hide Overlaps;
    if files == [] {
      assert files + [f] == [f] && [f][1..] == [];
      assert Overlapping([], lo, hi) == [];
    } else {
      assert (files + [f])[1..] == files[1..] + [f];
      OverlappingSnoc(files[1..], f, lo, hi);
    }
  }

  lemma OverlappingNone()
    ensures forall lo, hi :: Overlapping([], lo, hi) == []
  {
  }

  /** The search at level 0 restarts whenever a file widens the range.  It ends,
      with the files of the least range closed under user-key overlap. */
  method GetOverlappingInputs(level: nat, files: Level, begin: Bound, end: Bound) returns (inputs: Level)
    ensures level > 0 ==> inputs == Overlapping(files, begin, end)
    ensures level == 0 ==> exists lo, hi ::
              LeastClosed(files, begin, end, lo, hi) && inputs == Overlapping(files, lo, hi)
  {
    hide Sticking, ClosedRange, InEveryClosed, Overlapping;
    OverlappingNone();
    inputs := [];
    var userBegin, userEnd := begin, end;
    var i := 0;
    StartRange(files, begin, end);
    while i < |files|
      invariant i <= |files|
      invariant files[..0] == [] && inputs == Overlapping(files[..i], userBegin, userEnd)
      invariant level > 0 ==> userBegin == begin && userEnd == end
      invariant level == 0 ==> forall f :: f in files[..i] && Overlaps(userBegin, userEnd, f) ==> Inside(f, userBegin, userEnd)
      invariant Contains(userBegin, userEnd, begin, end)
      invariant InEveryClosed(files, begin, end, userBegin, userEnd)
      decreases Sticking(files, userBegin, userEnd), |files| - i
    {
      var f := files[i];
      i := i + 1;
      OverlappingSnoc(files[..i - 1], f, userBegin, userEnd);
      assert files[..i] == files[..i - 1] + [f];
      if userBegin.Some? && f.largest.user < userBegin.value {
      } else if userEnd.Some? && f.smallest.user > userEnd.value {
      } else {
        inputs := inputs + [f];
        if level == 0 {
          if userBegin.Some? && f.smallest.user < userBegin.value {
            StickingShrinks(files, userBegin, userEnd, Some(f.smallest.user), userEnd);
            WidenLow(files, begin, end, userBegin, userEnd, f);
            userBegin := Some(f.smallest.user);
            inputs, i := [], 0;
          } else if userEnd.Some? && f.largest.user > userEnd.value {
            StickingShrinks(files, userBegin, userEnd, userBegin, Some(f.largest.user));
            WidenHigh(files, begin, end, userBegin, userEnd, f);
            userEnd := Some(f.largest.user);
            inputs, i := [], 0;
          }
        }
      }
    }
    assert files[..|files|] == files;
    if level == 0 {
      ClosedNow(files, userBegin, userEnd);
      assert LeastClosed(files, begin, end, userBegin, userEnd);
    }
  }

  lemma StartRange(files: Level, begin: Bound, end: Bound)
    ensures Contains(begin, end, begin, end) && InEveryClosed(files, begin, end, begin, end)
  {
  }

  lemma ClosedNow(files: Level, lo: Bound, hi: Bound)
    requires forall f :: f in files && Overlaps(lo, hi, f) ==> Inside(f, lo, hi)
    ensures ClosedRange(files, lo, hi)
  {
  }

  lemma WidenLow(files: Level, begin: Bound, end: Bound, lo: Bound, hi: Bound, f: FileMetaData)
    requires f in files && Overlaps(lo, hi, f)
    requires InEveryClosed(files, begin, end, lo, hi)
    requires lo.Some? && f.smallest.user < lo.value
    ensures InEveryClosed(files, begin, end, Some(f.smallest.user), hi)
  {
  }

  lemma WidenHigh(files: Level, begin: Bound, end: Bound, lo: Bound, hi: Bound, f: FileMetaData)
    requires f in files && Overlaps(lo, hi, f)
    requires InEveryClosed(files, begin, end, lo, hi)
    requires hi.Some? && f.largest.user > hi.value
    ensures InEveryClosed(files, begin, end, lo, Some(f.largest.user))
  {
  }

  // ------------------------------------------------------- ranges

  /** The greatest `largest` of some files. */
  ghost predicate IsLargest(files: Level, key: InternalKey) {
    && (exists f :: f in files && f.largest == key)
    && forall f :: f in files ==> AtOrBefore(f.largest, key)
  }

  ghost predicate IsSmallest(files: Level, key: InternalKey) {
    && (exists f :: f in files && f.smallest == key)
    && forall f :: f in files ==> AtOrBefore(key, f.smallest)
  }

  method FindLargestKey(files: Level) returns (largest: Option<InternalKey>)
    ensures largest.None? <==> files == []
    ensures largest.Some? ==> IsLargest(files, largest.value)
  {
    if files == [] {
      return None;
    }
    var key := files[0].largest;
    assert files[..1] == [files[0]];
    for i := 1 to |files|
      invariant IsLargest(files[..i], key)
    {
      assert files[..i + 1] == files[..i] + [files[i]];
      if Before(key, files[i].largest) {
        key := files[i].largest;
      }
    }
    assert files[..|files|] == files;
    return Some(key);
  }

  /** GetRange: the least range of internal keys that covers all the files. */
  method GetRange(files: Level) returns (smallest: InternalKey, largest: InternalKey)
    requires files != []
    ensures IsSmallest(files, smallest) && IsLargest(files, largest)
  {
    smallest, largest := files[0].smallest, files[0].largest;
    assert files[..1] == [files[0]];
    for i := 1 to |files|
      invariant IsSmallest(files[..i], smallest) && IsLargest(files[..i], largest)
    {
      hide IsSmallest, IsLargest;
      assert files[..i + 1] == files[..i] + [files[i]];
      OneFileMore(files[..i], files[i], smallest, largest);
      if Before(files[i].smallest, smallest) {
        smallest := files[i].smallest;
      }
      if Before(largest, files[i].largest) {
        largest := files[i].largest;
      }
    }
    assert files[..|files|] == files;
  }

  lemma OneFileMore(files: Level, f: FileMetaData, smallest: InternalKey, largest: InternalKey)
    requires IsSmallest(files, smallest) && IsLargest(files, largest)
    ensures IsSmallest(files + [f], if Before(f.smallest, smallest) then f.smallest else smallest)
    ensures IsLargest(files + [f], if Before(largest, f.largest) then f.largest else largest)
  {
    SmallestOfMore(files, f, smallest);
    LargestOfMore(files, f, largest);
  }

  lemma SmallestOfMore(files: Level, f: FileMetaData, smallest: InternalKey)
    requires IsSmallest(files, smallest)
    ensures IsSmallest(files + [f], if Before(f.smallest, smallest) then f.smallest else smallest)
  {
    var g :| g in files && g.smallest == smallest;
    assert g in files + [f] && f in files + [f];
  }

  lemma LargestOfMore(files: Level, f: FileMetaData, largest: InternalKey)
    requires IsLargest(files, largest)
    ensures IsLargest(files + [f], if Before(largest, f.largest) then f.largest else largest)
  {
    var g :| g in files && g.largest == largest;
    assert g in files + [f] && f in files + [f];
  }

  // ------------------------------------------------------- AddBoundaryInputs

  /** `f` starts just past `key`, with the same user key. */
  predicate Boundary(f: FileMetaData, key: InternalKey) {
    Before(key, f.smallest) && f.smallest.user == key.user
  }

  method FindSmallestBoundaryFile(levelFiles: Level, key: InternalKey) returns (r: Option<FileMetaData>)
    ensures r.None? ==> forall f :: f in levelFiles ==> !Boundary(f, key)
    ensures r.Some? ==> FirstBoundary(levelFiles, r.value, key)
  {
    r := None;
    for i := 0 to |levelFiles|
      invariant r.None? ==> forall f :: f in levelFiles[..i] ==> !Boundary(f, key)
      invariant r.Some? ==> r.value in levelFiles && Boundary(r.value, key)
      invariant r.Some? ==> forall f :: f in levelFiles[..i] && Boundary(f, key) ==> AtOrBefore(r.value.smallest, f.smallest)
    {
      var f := levelFiles[i];
      assert levelFiles[..i + 1] == levelFiles[..i] + [f];
      if Boundary(f, key) {
        if r.None? || Before(f.smallest, r.value.smallest) {
          r := Some(f);
        }
      }
    }
    assert levelFiles[..|levelFiles|] == levelFiles;
  }

  /** Number of files that start after `key`: what the boundary search uses up. */
  ghost function StartingAfter(files: Level, key: InternalKey): nat {
    if files == [] then 0
    else (if Before(key, files[0].smallest) then 1 else 0) + StartingAfter(files[1..], key)
  }

  lemma {:induction false} StartingAfterShrinks(files: Level, key: InternalKey, key': InternalKey)
    requires AtOrBefore(key, key')
    ensures StartingAfter(files, key') <= StartingAfter(files, key)
    ensures (exists f :: f in files && Before(key, f.smallest) && AtOrBefore(f.smallest, key')) ==>
              StartingAfter(files, key') < StartingAfter(files, key)
  {
    if files != [] {
      StartingAfterShrinks(files[1..], key, key');
      assert files == [files[0]] + files[1..];
    }
  }

  /** Each added file starts just past everything taken before it. */
  ghost predicate BoundaryChain(levelFiles: Level, files: Level, from: nat) {
    forall i :: from <= i < |files| && i > 0 ==> Continues(levelFiles, files[..i], files[i])
  }

  /** `f` is the first file of the level that starts just past all of `files`. */
  ghost predicate Continues(levelFiles: Level, files: Level, f: FileMetaData) {
    exists key :: IsLargest(files, key) && FirstBoundary(levelFiles, f, key)
  }

  ghost predicate FirstBoundary(levelFiles: Level, f: FileMetaData, key: InternalKey) {
    && f in levelFiles
    && Boundary(f, key)
    && forall g :: g in levelFiles && Boundary(g, key) ==> AtOrBefore(f.smallest, g.smallest)
  }

  ghost predicate BoundaryClosed(levelFiles: Level, files: Level) {
    forall f, key :: f in levelFiles && IsLargest(files, key) ==> !Boundary(f, key)
  }

  /** AddBoundaryInputs ends, adds only files of the level, each continuing the user
      key the selection ended with, and leaves no such file out. */
  method AddBoundaryInputs(levelFiles: Level, files: Level) returns (r: Level)
    requires ValidFiles(levelFiles)
    ensures files <= r
    ensures forall i :: |files| <= i < |r| ==> r[i] in levelFiles
    ensures BoundaryChain(levelFiles, r, |files|)
    ensures BoundaryClosed(levelFiles, r)
    ensures files == [] ==> r == []
  {
    r := files;
    var found := FindLargestKey(files);
    if found.None? {
      return;
    }
    var largestKey := found.value;
    var continueSearching := true;
    while continueSearching
      invariant files <= r && IsLargest(r, largestKey)
      invariant forall i :: |files| <= i < |r| ==> r[i] in levelFiles
      invariant BoundaryChain(levelFiles, r, |files|)
      invariant !continueSearching ==> forall f :: f in levelFiles ==> !Boundary(f, largestKey)
      decreases continueSearching, StartingAfter(levelFiles, largestKey)
    {
      var boundary := FindSmallestBoundaryFile(levelFiles, largestKey);
      if boundary.Some? {
        var f := boundary.value;
        f.InRange(f.entries[0]);
        StartingAfterShrinks(levelFiles, largestKey, f.largest);
        ExtendChain(levelFiles, r, |files|, largestKey, f);
        r := r + [f];
        largestKey := f.largest;
      } else {
        continueSearching := false;
      }
    }
    forall f, key | f in levelFiles && IsLargest(r, key)
      ensures !Boundary(f, key)
    {
      LargestUnique(r, key, largestKey);
    }
  }

  lemma LargestUnique(files: Level, a: InternalKey, b: InternalKey)
    requires IsLargest(files, a) && IsLargest(files, b)
    ensures a == b
  {
  }

  lemma ExtendChain(levelFiles: Level, files: Level, from: nat, key: InternalKey, f: FileMetaData)
    requires BoundaryChain(levelFiles, files, from) && IsLargest(files, key) && FirstBoundary(levelFiles, f, key)
    requires AtOrBefore(f.smallest, f.largest)
    ensures BoundaryChain(levelFiles, files + [f], from)
    ensures IsLargest(files + [f], f.largest)
  {
    var r := files + [f];
    forall i | from <= i < |r| && i > 0
      ensures Continues(levelFiles, r[..i], r[i])
    {
      if i < |files| {
        assert r[..i] == files[..i] && r[i] == files[i];
      } else {
        assert r[..i] == files && r[i] == f;
      }
    }
    assert r[|files|] == f;
  }

  // ------------------------------------------------------- what a selection guarantees

  /** The chosen files of a sorted level are a run of neighbours. */
  ghost predicate IsRun(files: Level, chosen: Level, a: nat, b: nat) {
    && a < b <= |files|
    && (forall f :: f in chosen ==> f in files)
    && forall i :: 0 <= i < |files| ==> (files[i] in chosen <==> a <= i < b)
  }

  /** What the callers of SetupOtherInputs hand in: at level 0 all files of a range
      closed under overlap, below that a run of neighbouring files. */
  ghost predicate Selectable(level: nat, files: Level, chosen: Level) {
    && chosen != []
    && (forall f :: f in chosen ==> f in files)
    && (level == 0 ==> exists lo, hi :: ClosedRange(files, lo, hi) && SameFiles(chosen, Overlapping(files, lo, hi)))
    && (level > 0 ==> exists a, b :: IsRun(files, chosen, a, b))
  }

  ghost predicate SameFiles(a: Level, b: Level) {
    forall f :: f in a <==> f in b
  }

  /** No file left behind holds an older entry of a user key that moves down. */
  ghost predicate UpperClosed(files: Level, chosen: Level) {
    forall f, g :: f in chosen && g in files && g !in chosen ==>
      Newer(Elements(g.entries), Elements(f.entries))
  }

  /** The lower level contributes exactly the files that overlap the upper choice. */
  ghost predicate LowerExact(lower: Level, chosen: Level, inputs1: Level) {
    exists lo: InternalKey, hi: InternalKey ::
      IsSmallest(chosen, lo) && IsLargest(chosen, hi) && inputs1 == Overlapping(lower, Some(lo.user), Some(hi.user))
  }

  ghost predicate GoodInputs(levels: seq<Level>, level: nat, inputs0: Level, inputs1: Level)
    requires level + 1 < |levels|
  {
    && inputs0 != []
    && (forall f :: f in inputs0 ==> f in levels[level])
    && UpperClosed(levels[level], inputs0)
    && LowerExact(levels[level + 1], inputs0, inputs1)
  }

  lemma SmallestAtOrBeforeLargest(f: FileMetaData)
    requires f.Valid()
    ensures AtOrBefore(f.smallest, f.largest)
  {
    f.InRange(f.entries[0]);
  }

  /** Position of the first file with the property, or |files|. */
  ghost function FirstIndex(files: Level, p: FileMetaData -> bool): (i: nat)
    ensures i <= |files|
    ensures forall j :: 0 <= j < i ==> !p(files[j])
    ensures i < |files| ==> p(files[i])
  {
    if files == [] || p(files[0]) then 0 else 1 + FirstIndex(files[1..], p)
  }

  lemma {:induction false} OverlappingSlice(files: Level, lo: Bound, hi: Bound, a: nat, b: nat)
    requires a <= b <= |files|
    requires forall i :: 0 <= i < |files| ==> (Overlaps(lo, hi, files[i]) <==> a <= i < b)
    ensures Overlapping(files, lo, hi) == files[a..b]
  {
    hide Overlaps, Overlapping;
    if files == [] {
      OverlappingNone();
    } else {
      var init, last := files[..|files| - 1], files[|files| - 1];
      assert files == init + [last];
      OverlappingSnoc(init, last, lo, hi);
      if b < |files| {
        OverlappingSlice(init, lo, hi, a, b);
        SliceOfPrefix(init, files, a, b);
      } else if a < b {
        OverlappingSlice(init, lo, hi, a, b - 1);
        SliceOfPrefix(init, files, a, b - 1);
        assert files[a..b] == files[a..b - 1] + [last];
      } else {
        OverlappingSlice(init, lo, hi, a - 1, a - 1);
      }
    }
  }

  /** Overlapping files of a sorted level are neighbours. */
  lemma OverlappingIsSlice(files: Level, lo: Bound, hi: Bound) returns (a: nat, b: nat)
    requires ValidFiles(files) && Disjoint(files)
    ensures a <= b <= |files| && Overlapping(files, lo, hi) == files[a..b]
  {
    hide FileMetaData.Valid;
    a := FirstIndex(files, (f: FileMetaData) => !AfterFile(lo, f));
    b := FirstIndex(files, (f: FileMetaData) => BeforeFile(hi, f));
    forall i, j | 0 <= i < j < |files|
      ensures files[i].smallest.user <= files[j].smallest.user && files[i].largest.user <= files[j].largest.user
    {
      SmallestAtOrBeforeLargest(files[i]);
      SmallestAtOrBeforeLargest(files[j]);
    }
    b := if a <= b then b else a;
    OverlappingSlice(files, lo, hi, a, b);
  }

  /** Any nonempty part of a sorted level cut out by position is a run. */
  lemma SliceIsRun(files: Level, a: nat, b: nat)
    requires ValidFiles(files) && Disjoint(files) && a < b <= |files|
    ensures IsRun(files, files[a..b], a, b)
  {
    forall i | 0 <= i < |files| && files[i] in files[a..b]
      ensures a <= i < b
    {
      var j :| a <= j < b && files[j] == files[i];
      FilesDistinct(files, i, j);
    }
    forall i | a <= i < b
      ensures files[i] in files[a..b]
    {
      assert files[i] == files[a..b][i - a];
    }
  }

  lemma FilesDistinct(files: Level, i: nat, j: nat)
    requires ValidFiles(files) && Disjoint(files) && i < |files| && j < |files|
    requires files[i] == files[j]
    ensures i == j
  {
    SmallestAtOrBeforeLargest(files[i]);
  }

  /** The greatest key of a run is that of its last file. */
  lemma RunLargest(files: Level, chosen: Level, a: nat, b: nat, key: InternalKey)
    requires ValidFiles(files) && Disjoint(files) && IsRun(files, chosen, a, b)
    requires IsLargest(chosen, key)
    ensures key == files[b - 1].largest
  {
    var f :| f in chosen && f.largest == key;
    var i :| 0 <= i < |files| && files[i] == f;
    LargestMonotone(files, i, b - 1);
    assert files[b - 1] in chosen;
  }

  /** If any file past position b continues the key that ends just before b, the
      file at b does. */
  lemma NeighbourIsBoundary(files: Level, b: nat, q: nat)
    requires ValidFiles(files) && Disjoint(files) && 0 < b <= q < |files|
    requires Boundary(files[q], files[b - 1].largest)
    ensures Boundary(files[b], files[b - 1].largest)
  {
    SmallestAtOrBeforeLargest(files[b]);
    assert Before(files[b - 1].largest, files[b].smallest);
    assert b == q || Before(files[b].largest, files[q].smallest);
  }

  /** A boundary file extends a run by its right neighbour. */
  lemma RunStep(files: Level, chosen: Level, a: nat, b: nat, f: FileMetaData)
    requires ValidFiles(files) && Disjoint(files) && IsRun(files, chosen, a, b)
    requires Continues(files, chosen, f)
    ensures b < |files| && f == files[b]
    ensures IsRun(files, chosen + [f], a, b + 1)
  {
    hide FileMetaData.Valid;
    var key :| IsLargest(chosen, key) && FirstBoundary(files, f, key);
    RunLargest(files, chosen, a, b, key);
    var q :| 0 <= q < |files| && files[q] == f;
    SmallestAtOrBeforeLargest(f);
    if q < b {
      LargestMonotone(files, q, b - 1);
    }
    assert q >= b;
    NeighbourIsBoundary(files, b, q);
    assert AtOrBefore(files[q].smallest, files[b].smallest);
    SmallestAtOrBeforeLargest(files[b]);
    forall i | 0 <= i < |files| && files[i] == f
      ensures i == b
    {
      FilesDistinct(files, i, b);
    }
  }

  lemma ChainPrefix(levelFiles: Level, files: Level, from: nat, m: nat)
    requires BoundaryChain(levelFiles, files, from) && from <= m <= |files|
    ensures BoundaryChain(levelFiles, files[..m], from)
  {
    hide Continues;
    forall i | from <= i < m && i > 0
      ensures Continues(levelFiles, files[..m][..i], files[..m][i])
    {
      assert files[..m][..i] == files[..i];
    }
  }

  /** Following a boundary chain, a run stays a run. */
  lemma {:induction false} RunChain(files: Level, chosen: Level, from: nat, a: nat, b: nat) returns (b': nat)
    requires ValidFiles(files) && Disjoint(files)
    requires 0 < from <= |chosen| && IsRun(files, chosen[..from], a, b)
    requires BoundaryChain(files, chosen, from)
    ensures IsRun(files, chosen, a, b')
    decreases |chosen|
  {
    hide IsRun, Continues, ValidFiles, Disjoint;
    if |chosen| == from {
      assert chosen[..from] == chosen;
      return b;
    }
    var m := |chosen| - 1;
    var init := chosen[..m];
    assert init[..from] == chosen[..from];
    ChainPrefix(files, chosen, from, m);
    b' := RunChain(files, init, from, a, b);
    assert Continues(files, chosen[..m], chosen[m]);
    RunStep(files, init, a, b', chosen[m]);
    assert chosen == init + [chosen[m]];
    b' := b' + 1;
  }

  lemma InUserRange(f: FileMetaData, e: Entry)
    requires f.Valid() && e in f.entries
    ensures f.smallest.user <= e.key.user <= f.largest.user
    ensures AtOrBefore(f.smallest, e.key) && AtOrBefore(e.key, f.largest)
  {
    f.InRange(e);
  }

  lemma RunKeyIsLargest(files: Level, chosen: Level, a: nat, b: nat)
    requires ValidFiles(files) && Disjoint(files) && IsRun(files, chosen, a, b)
    ensures IsLargest(chosen, files[b - 1].largest)
  {
    assert files[b - 1] in chosen;
    forall f | f in chosen
      ensures AtOrBefore(f.largest, files[b - 1].largest)
    {
      var i :| 0 <= i < |files| && files[i] == f;
      LargestMonotone(files, i, b - 1);
    }
  }

  /** A file to the right of a boundary-closed run shares no user key with it. */
  lemma RightOfRun(files: Level, chosen: Level, a: nat, b: nat, i: nat, j: nat)
    requires ValidFiles(files) && Disjoint(files) && IsRun(files, chosen, a, b)
    requires BoundaryClosed(files, chosen)
    requires a <= i < b <= j < |files|
    ensures files[i].largest.user < files[j].smallest.user
  {
    hide FileMetaData.Valid, IsLargest;
    RunKeyIsLargest(files, chosen, a, b);
    LargestMonotone(files, i, b - 1);
    assert !Boundary(files[j], files[b - 1].largest);
  }

  /** A run with no boundary file left out leaves only newer entries behind. */
  lemma RunUpperClosed(files: Level, chosen: Level, a: nat, b: nat)
    requires ValidFiles(files) && Disjoint(files) && IsRun(files, chosen, a, b)
    requires BoundaryClosed(files, chosen)
    ensures UpperClosed(files, chosen)
  {
    hide FileMetaData.Valid, IsLargest, BoundaryClosed;
    forall f, g, d, e | f in chosen && g in files && g !in chosen && d in g.entries && e in f.entries && d.key.user == e.key.user
      ensures d.key.sequence > e.key.sequence
    {
      var i :| 0 <= i < |files| && files[i] == f;
      var j :| 0 <= j < |files| && files[j] == g;
      InUserRange(f, e);
      InUserRange(g, d);
      if j >= b {
        RightOfRun(files, chosen, a, b, i, j);
      } else {
        assert Before(g.largest, f.smallest);
      }
    }
  }

  /** At level 0 nothing outside a closed range shares a user key with it. */
  lemma ClosedUpperClosed(files: Level, chosen: Level, lo: Bound, hi: Bound)
    requires ValidFiles(files) && ClosedRange(files, lo, hi) && SameFiles(chosen, Overlapping(files, lo, hi))
    ensures UpperClosed(files, chosen)
  {
    hide FileMetaData.Valid, Overlapping;
    forall f, g | f in chosen && g in files && g !in chosen
      ensures Newer(Elements(g.entries), Elements(f.entries))
    {
      assert Overlaps(lo, hi, f) && Inside(f, lo, hi);
      assert !Overlaps(lo, hi, g);
      forall d, e | d in g.entries && e in f.entries
        ensures d.key.user != e.key.user
      {
        InUserRange(f, e);
        InUserRange(g, d);
      }
    }
  }

  /** ... so no file can continue it. */
  lemma ClosedNoBoundary(files: Level, chosen: Level, lo: Bound, hi: Bound, f: FileMetaData)
    requires ValidFiles(files) && ClosedRange(files, lo, hi) && SameFiles(chosen, Overlapping(files, lo, hi))
    requires f in files
    ensures !Continues(files, chosen, f)
  {
    hide FileMetaData.Valid, Overlapping;
    forall key | IsLargest(chosen, key)
      ensures !Boundary(f, key)
    {
      var h :| h in chosen && h.largest == key;
      assert Overlaps(lo, hi, h) && Inside(h, lo, hi);
      SmallestAtOrBeforeLargest(h);
      SmallestAtOrBeforeLargest(f);
      assert Overlaps(lo, hi, f) ==> f in chosen;
    }
  }

  /** After AddBoundaryInputs the selection is still of the same kind, and closed. */
  lemma BoundaryDone(level: nat, files: Level, chosen: Level, r: Level)
    requires ValidFiles(files) && (level > 0 ==> Disjoint(files))
    requires Selectable(level, files, chosen)
    requires chosen <= r && BoundaryChain(files, r, |chosen|) && BoundaryClosed(files, r)
    requires forall i :: |chosen| <= i < |r| ==> r[i] in files
    ensures Selectable(level, files, r) && UpperClosed(files, r)
  {
    assert r[..|chosen|] == chosen;
    if level == 0 {
      var lo, hi :| ClosedRange(files, lo, hi) && SameFiles(chosen, Overlapping(files, lo, hi));
      if |r| > |chosen| {
        assert Continues(files, r[..|chosen|], r[|chosen|]);
        ClosedNoBoundary(files, chosen, lo, hi, r[|chosen|]);
      }
      assert r == chosen;
      ClosedUpperClosed(files, chosen, lo, hi);
    } else {
      var a, b :| IsRun(files, chosen, a, b);
      var b' := RunChain(files, r, |chosen|, a, b);
      RunUpperClosed(files, r, a, b');
    }
  }

  // ------------------------------------------------------- SetupOtherInputs

  function TotalFileSize(files: Level): nat {
    if files == [] then 0 else files[0].fileSize + TotalFileSize(files[1..])
  }

  /** A wider range selects a superset, and an equally long one selects the same. */
  lemma {:induction false} WiderSelection(files: Level, lo: Bound, hi: Bound, lo': Bound, hi': Bound)
    requires Contains(lo', hi', lo, hi)
    ensures |Overlapping(files, lo, hi)| <= |Overlapping(files, lo', hi')|
    ensures |Overlapping(files, lo, hi)| == |Overlapping(files, lo', hi')| ==>
              Overlapping(files, lo, hi) == Overlapping(files, lo', hi')
  {
    if files != [] {
      WiderSelection(files[1..], lo, hi, lo', hi');
    }
  }

  lemma RangeOfSuperset(a: Level, b: Level, lo: InternalKey, hi: InternalKey, lo': InternalKey, hi': InternalKey)
    requires forall f :: f in a ==> f in b
    requires IsSmallest(a, lo) && IsLargest(a, hi) && IsSmallest(b, lo') && IsLargest(b, hi')
    ensures Contains(Some(lo'.user), Some(hi'.user), Some(lo.user), Some(hi.user))
  {
  }

  /** Every chosen file overlaps any range that contains the range of the choice. */
  lemma ChosenOverlap(chosen: Level, all: Level, lo: InternalKey, hi: InternalKey, f: FileMetaData)
    requires ValidFiles(chosen) && (forall g :: g in chosen ==> g in all)
    requires IsSmallest(all, lo) && IsLargest(all, hi) && f in chosen
    ensures Overlaps(Some(lo.user), Some(hi.user), f)
  {
    SmallestAtOrBeforeLargest(f);
  }

  lemma MembersValid(files: Level, chosen: Level)
    requires ValidFiles(files) && (forall f :: f in chosen ==> f in files)
    ensures ValidFiles(chosen)
  {
    forall i | 0 <= i < |chosen|
      ensures chosen[i].Valid()
    {
      assert chosen[i] in files;
    }
  }

  /** What a search of the level returns may be handed to AddBoundaryInputs. */
  lemma SearchSelectable(level: nat, files: Level, begin: Bound, end: Bound, r: Level)
    requires ValidFiles(files) && (level > 0 ==> Disjoint(files)) && r != []
    requires level > 0 ==> r == Overlapping(files, begin, end)
    requires level == 0 ==> exists lo, hi :: LeastClosed(files, begin, end, lo, hi) && r == Overlapping(files, lo, hi)
    ensures Selectable(level, files, r)
  {
    if level > 0 {
      var a, b := OverlappingIsSlice(files, begin, end);
      SliceIsRun(files, a, b);
    }
  }

  lemma SearchFinds(level: nat, files: Level, begin: Bound, end: Bound, r: Level, f: FileMetaData)
    requires level > 0 ==> r == Overlapping(files, begin, end)
    requires level == 0 ==> exists lo, hi :: LeastClosed(files, begin, end, lo, hi) && r == Overlapping(files, lo, hi)
    requires f in files && Overlaps(begin, end, f)
    ensures f in r
  {
  }

  lemma SearchEmpty(level: nat, files: Level, begin: Bound, end: Bound, r: Level)
    requires level > 0 ==> r == Overlapping(files, begin, end)
    requires level == 0 ==> exists lo, hi :: LeastClosed(files, begin, end, lo, hi) && r == Overlapping(files, lo, hi)
    requires forall f :: f in files ==> !Overlaps(begin, end, f)
    ensures r == []
  {
    if level == 0 {
      var lo, hi :| LeastClosed(files, begin, end, lo, hi) && r == Overlapping(files, lo, hi);
      StartRange(files, begin, end);
      assert ClosedRange(files, begin, end);
      assert Contains(begin, end, lo, hi);
    }
    assert forall f :: f !in r;
  }

  /** What a search of the level returns. */
  ghost predicate SearchResult(level: nat, files: Level, begin: Bound, end: Bound, r: Level) {
    && (level > 0 ==> r == Overlapping(files, begin, end))
    && (level == 0 ==> exists lo, hi :: LeastClosed(files, begin, end, lo, hi) && r == Overlapping(files, lo, hi))
  }

  /** The choice and, one after another, the files that continue its last user key. */
  ghost predicate WithBoundary(files: Level, chosen: Level, r: Level) {
    chosen <= r && BoundaryChain(files, r, |chosen|) && BoundaryClosed(files, r)
  }

  /** What the upper level has in the range of all inputs. */
  ghost predicate Wider(level: nat, files: Level, all: Level, more: Level) {
    exists lo: InternalKey, hi: InternalKey, found: Level ::
      && IsSmallest(all, lo) && IsLargest(all, hi)
      && SearchResult(level, files, Some(lo.user), Some(hi.user), found) && WithBoundary(files, found, more)
  }

  /** The upper choice may grow: it would, it stays small enough, and the lower files stay as
      many as they are. */
  ghost predicate MayGrow(lower: Level, first: Level, inputs1: Level, more: Level, byteLimit: nat) {
    && |more| > |first| && TotalFileSize(inputs1) + TotalFileSize(more) < byteLimit
    && exists lower1 :: LowerExact(lower, more, lower1) && |lower1| == |inputs1|
  }

  /** What SetupOtherInputs makes of a choice, no more and no less. */
  ghost predicate Selection(levels: seq<Level>, level: nat, chosen: Level, byteLimit: nat, inputs0: Level, inputs1: Level)
    requires level + 1 < |levels|
  {
    SelectionOf(level, levels[level], levels[level + 1], chosen, byteLimit, inputs0, inputs1)
  }

  ghost predicate SelectionOf(level: nat, files: Level, lower: Level, chosen: Level, byteLimit: nat, inputs0: Level, inputs1: Level) {
    exists first, more ::
      && WithBoundary(files, chosen, first) && LowerExact(lower, first, inputs1)
      && Grown(level, files, lower, first, inputs1, more, byteLimit, inputs0)
  }

  ghost predicate Grown(level: nat, files: Level, lower: Level, first: Level, inputs1: Level, more: Level, byteLimit: nat, inputs0: Level) {
    if inputs1 == [] then inputs0 == first
    else Wider(level, files, first + inputs1, more) && inputs0 == if MayGrow(lower, first, inputs1, more, byteLimit) then more else first
  }

  lemma LowerUnique(lower: Level, chosen: Level, a: Level, b: Level)
    requires LowerExact(lower, chosen, a) && LowerExact(lower, chosen, b)
    ensures a == b
  {
    hide IsLargest, IsSmallest;
    var lo: InternalKey, hi: InternalKey :|
      IsSmallest(chosen, lo) && IsLargest(chosen, hi) && a == Overlapping(lower, Some(lo.user), Some(hi.user));
    var lo': InternalKey, hi': InternalKey :|
      IsSmallest(chosen, lo') && IsLargest(chosen, hi') && b == Overlapping(lower, Some(lo'.user), Some(hi'.user));
    LargestUnique(chosen, hi, hi');
    SmallestUnique(chosen, lo, lo');
  }

  lemma SmallestUnique(files: Level, a: InternalKey, b: InternalKey)
    requires IsSmallest(files, a) && IsSmallest(files, b)
    ensures a == b
  {
  }

  /** SetupOtherInputs.  `first` is the choice before the attempted expansion: both
      it and the returned one leave only newer entries behind at the upper level, and
      both take exactly the same files from the level below. */
  method SetupOtherInputs(levels: seq<Level>, level: nat, chosen: Level, byteLimit: nat)
    returns (inputs0: Level, inputs1: Level, ghost first: Level)
    requires WellFormed(levels) && level + 1 < kNumLevels
    requires Selectable(level, levels[level], chosen)
    ensures forall f :: f in chosen ==> f in first
    ensures forall f :: f in first ==> f in inputs0
    ensures GoodInputs(levels, level, first, inputs1)
    ensures GoodInputs(levels, level, inputs0, inputs1)
    ensures Selection(levels, level, chosen, byteLimit, inputs0, inputs1)
  {
    hide WellFormed, WithBoundary, Wider, MayGrow;
    LevelFacts(levels, level);
    LevelFacts(levels, level + 1);
    var files, lower := levels[level], levels[level + 1];
    inputs0, inputs1, first := SetupFirst(level, files, lower, chosen);
    ghost var more: Level := [];
    if |inputs1| > 0 {
      var expanded0, expanded1;
      expanded0, expanded1, more := TryExpand(level, files, lower, inputs0, inputs1, byteLimit);
      if expanded0.Some? {
        inputs0, inputs1 := expanded0.value, expanded1;
      }
    }
    assert Grown(level, files, lower, first, inputs1, more, byteLimit, inputs0);
  }

  lemma LevelFacts(levels: seq<Level>, level: nat)
    requires WellFormed(levels) && level < kNumLevels
    ensures |levels| == kNumLevels
    ensures ValidFiles(levels[level]) && (level > 0 ==> Disjoint(levels[level]))
  {
  }

  /** The choice without expansion. */
  method SetupFirst(level: nat, files: Level, lower: Level, chosen: Level)
    returns (inputs0: Level, inputs1: Level, ghost first: Level)
    requires ValidFiles(files) && (level > 0 ==> Disjoint(files)) && ValidFiles(lower)
    requires Selectable(level, files, chosen)
    ensures inputs0 == first && first != []
    ensures forall f :: f in chosen ==> f in first
    ensures forall f :: f in first ==> f in files
    ensures UpperClosed(files, first) && LowerExact(lower, first, inputs1) && WithBoundary(files, chosen, first)
  {
    inputs0 := AddBoundaryInputs(files, chosen);
    BoundaryDone(level, files, chosen, inputs0);
    var smallest, largest := GetRange(inputs0);
    inputs1 := GetOverlappingInputs(level + 1, lower, Some(smallest.user), Some(largest.user));
    first := inputs0;
  }

  /** The attempt to take more of the upper level without taking more of the lower. */
  method TryExpand(level: nat, files: Level, lower: Level, inputs0: Level, inputs1: Level, byteLimit: nat)
    returns (expanded0: Option<Level>, expanded1: Level, ghost wider: Level)
    requires ValidFiles(files) && (level > 0 ==> Disjoint(files)) && ValidFiles(lower)
    requires inputs0 != [] && (forall f :: f in inputs0 ==> f in files)
    requires LowerExact(lower, inputs0, inputs1)
    ensures expanded0.Some? ==> expanded1 == inputs1 && expanded0.value != []
    ensures expanded0.Some? ==> forall f :: f in inputs0 ==> f in expanded0.value
    ensures expanded0.Some? ==> forall f :: f in expanded0.value ==> f in files
    ensures expanded0.Some? ==> UpperClosed(files, expanded0.value) && LowerExact(lower, expanded0.value, inputs1)
    ensures Wider(level, files, inputs0 + inputs1, wider)
    ensures expanded0 == if MayGrow(lower, inputs0, inputs1, wider, byteLimit) then Some(wider) else None
  {
    hide UpperClosed, IsSmallest, IsLargest, Overlaps, Wider, MayGrow;
    MembersValid(files, inputs0);
    var more := Widen(level, files, inputs0, inputs0 + inputs1);
    wider := more;
    if |more| > |inputs0| && TotalFileSize(inputs1) + TotalFileSize(more) < byteLimit {
      var newStart, newLimit := GetRange(more);
      expanded1 := GetOverlappingInputs(level + 1, lower, Some(newStart.user), Some(newLimit.user));
      assert LowerExact(lower, more, expanded1);
      if |expanded1| == |inputs1| {
        SameLower(lower, inputs0, inputs1, more, newStart, newLimit, expanded1);
        GrowsWith(lower, inputs0, inputs1, more, byteLimit, expanded1);
        return Some(more), expanded1, more;
      }
      OtherLower(lower, inputs0, inputs1, more, byteLimit, expanded1);
    } else {
      NoRoom(lower, inputs0, inputs1, more, byteLimit);
    }
    return None, inputs1, more;
  }

  /** The files of the upper level in the range of all inputs, boundary files included. */
  method Widen(level: nat, files: Level, inputs0: Level, all: Level) returns (more: Level)
    requires ValidFiles(files) && (level > 0 ==> Disjoint(files))
    requires inputs0 != [] && inputs0 <= all && (forall f :: f in inputs0 ==> f in files && f.Valid())
    ensures Wider(level, files, all, more) && more != [] && UpperClosed(files, more)
    ensures forall f :: f in inputs0 ==> f in more
    ensures forall f :: f in more ==> f in files
  {
    hide UpperClosed, IsSmallest, IsLargest, Overlaps, Selectable, FileMetaData.Valid;
    var allStart, allLimit := GetRange(all);
    var found := GetOverlappingInputs(level, files, Some(allStart.user), Some(allLimit.user));
    forall f | f in inputs0
      ensures f in found
    {
      ChosenOverlap(inputs0, all, allStart, allLimit, f);
      SearchFinds(level, files, Some(allStart.user), Some(allLimit.user), found, f);
    }
    assert inputs0[0] in found;
    SearchSelectable(level, files, Some(allStart.user), Some(allLimit.user), found);
    more := AddBoundaryInputs(files, found);
    BoundaryDone(level, files, found, more);
    SelectableMembers(level, files, found, more);
    assert WithBoundary(files, found, more) && SearchResult(level, files, Some(allStart.user), Some(allLimit.user), found);
  }

  /** As many lower files for a wider choice are the same files. */
  lemma SameLower(lower: Level, inputs0: Level, inputs1: Level, more: Level, start: InternalKey, limit: InternalKey, lower1: Level)
    requires LowerExact(lower, inputs0, inputs1) && IsSmallest(more, start) && IsLargest(more, limit)
    requires forall f :: f in inputs0 ==> f in more
    requires lower1 == Overlapping(lower, Some(start.user), Some(limit.user)) && |lower1| == |inputs1|
    ensures lower1 == inputs1
  {
    hide IsSmallest, IsLargest, Overlapping;
    var lo, hi :| IsSmallest(inputs0, lo) && IsLargest(inputs0, hi) &&
      inputs1 == Overlapping(lower, Some(lo.user), Some(hi.user));
    RangeOfSuperset(inputs0, more, lo, hi, start, limit);
    WiderSelection(lower, Some(lo.user), Some(hi.user), Some(start.user), Some(limit.user));
  }

  lemma GrowsWith(lower: Level, first: Level, inputs1: Level, more: Level, byteLimit: nat, lower1: Level)
    requires |more| > |first| && TotalFileSize(inputs1) + TotalFileSize(more) < byteLimit
    requires LowerExact(lower, more, lower1) && |lower1| == |inputs1|
    ensures MayGrow(lower, first, inputs1, more, byteLimit)
  {
  }

  lemma NoRoom(lower: Level, first: Level, inputs1: Level, more: Level, byteLimit: nat)
    requires !(|more| > |first| && TotalFileSize(inputs1) + TotalFileSize(more) < byteLimit)
    ensures !MayGrow(lower, first, inputs1, more, byteLimit)
  {
  }

  lemma SelectableMembers(level: nat, files: Level, chosen: Level, r: Level)
    requires Selectable(level, files, r) && chosen <= r
    ensures r != [] && (forall f :: f in r ==> f in files)
    ensures forall f :: f in chosen ==> f in r
  {
  }

  lemma OtherLower(lower: Level, first: Level, inputs1: Level, more: Level, byteLimit: nat, lower1: Level)
    requires LowerExact(lower, more, lower1) && |lower1| != |inputs1|
    ensures !MayGrow(lower, first, inputs1, more, byteLimit)
  {
    if lower2 :| LowerExact(lower, more, lower2) && |lower2| == |inputs1| {
      LowerUnique(lower, more, lower1, lower2);
    }
  }

  /** PickCompaction, with the heuristics' choice of level and first file given. */
  method PickCompaction(levels: seq<Level>, level: nat, f: FileMetaData, byteLimit: nat)
    returns (inputs0: Level, inputs1: Level)
    requires WellFormed(levels) && level + 1 < kNumLevels && f in levels[level]
    ensures f in inputs0
    ensures GoodInputs(levels, level, inputs0, inputs1)
    ensures exists chosen :: FirstChoice(levels, level, f, chosen) && Selection(levels, level, chosen, byteLimit, inputs0, inputs1)
  {
    hide WellFormed, Selection;
    LevelFacts(levels, level);
    var chosen := [f];
    if level == 0 {
      var smallest, largest := GetRange([f]);
      chosen := GetOverlappingInputs(0, levels[0], Some(smallest.user), Some(largest.user));
      MembersValid(levels[0], [f]);
      ChosenOverlap([f], [f], smallest, largest, f);
      SearchFinds(0, levels[0], Some(smallest.user), Some(largest.user), chosen, f);
      SearchSelectable(0, levels[0], Some(smallest.user), Some(largest.user), chosen);
    } else {
      ghost var i :| 0 <= i < |levels[level]| && levels[level][i] == f;
      assert levels[level][i..i + 1] == [f];
      SliceIsRun(levels[level], i, i + 1);
    }
    ghost var first;
    inputs0, inputs1, first := SetupOtherInputs(levels, level, chosen, byteLimit);
  }

  /** The files up to the one that brings the total to the limit. */
  /** The file alone, or at level 0 with all that overlap it, directly or through others. */
  ghost predicate FirstChoice(levels: seq<Level>, level: nat, f: FileMetaData, chosen: Level)
    requires level < |levels|
  {
    if level > 0 then chosen == [f]
    else SearchResult(0, levels[0], Some(f.smallest.user), Some(f.largest.user), chosen)
  }

  method CutAtLimit(inputs: Level, limit: nat) returns (r: Level)
    requires inputs != []
    ensures r != [] && r <= inputs
    ensures |r| < |inputs| ==> TotalFileSize(r) >= limit
    ensures TotalFileSize(r[..|r| - 1]) < limit || |r| == 1
  {
    var total, i := 0, 0;
    while i < |inputs|
      invariant i <= |inputs|
      invariant total == TotalFileSize(inputs[..i])
      invariant i > 0 ==> total < limit
    {
      assert inputs[..i + 1] == inputs[..i] + [inputs[i]];
      TotalFileSizeSnoc(inputs[..i], inputs[i]);
      total := total + inputs[i].fileSize;
      if total >= limit {
        r := inputs[..i + 1];
        assert r[..|r| - 1] == inputs[..i];
        return;
      }
      i := i + 1;
    }
    assert inputs[..|inputs|] == inputs;
    r := inputs;
    TotalFileSizePrefix(r);
  }

  lemma {:induction false} TotalFileSizeSnoc(files: Level, f: FileMetaData)
    ensures TotalFileSize(files + [f]) == TotalFileSize(files) + f.fileSize && TotalFileSize([]) == 0
  {
    if files != [] {
      assert (files + [f])[1..] == files[1..] + [f];
      TotalFileSizeSnoc(files[1..], f);
    }
  }

  lemma TotalFileSizePrefix(files: Level)
    requires files != []
    ensures TotalFileSize(files[..|files| - 1]) <= TotalFileSize(files)
  {
    assert files == files[..|files| - 1] + [files[|files| - 1]];
    TotalFileSizeSnoc(files[..|files| - 1], files[|files| - 1]);
  }

  lemma PrefixSelectable(level: nat, files: Level, begin: Bound, end: Bound, all: Level, cut: Level)
    requires level > 0 && ValidFiles(files) && Disjoint(files)
    requires all == Overlapping(files, begin, end) && cut != [] && cut <= all
    ensures Selectable(level, files, cut)
  {
    hide ValidFiles, Disjoint, Overlapping, Overlaps, IsRun;
    var a, b := OverlappingIsSlice(files, begin, end);
    PrefixOfSlice(files, a, b, cut);
    assert forall f :: f in cut ==> f in files;
    SliceIsRun(files, a, a + |cut|);
  }

  lemma PrefixOfSlice(files: Level, a: nat, b: nat, cut: Level)
    requires a <= b <= |files| && cut <= files[a..b]
    ensures a + |cut| <= b && cut == files[a..a + |cut|]
  {
    assert cut == files[a..b][..|cut|];
  }

  /** Above level 0 a manual compaction ends with the file that reaches the limit. */
  ghost predicate CutOff(level: nat, found: Level, limit: nat, chosen: Level) {
    if level == 0 then chosen == found
    else
      && chosen != [] && chosen <= found
      && (chosen != found ==> TotalFileSize(chosen) >= limit)
      && (|chosen| > 1 ==> TotalFileSize(chosen[..|chosen| - 1]) < limit)
  }

  /** VersionSet::CompactRange: the overlapping files, cut off at level > 0 once they
      are large enough. */
  method CompactRange(levels: seq<Level>, level: nat, begin: Bound, end: Bound, limit: nat, byteLimit: nat)
    returns (r: Option<(Level, Level)>)
    requires WellFormed(levels) && level + 1 < kNumLevels
    ensures r.Some? ==> GoodInputs(levels, level, r.value.0, r.value.1)
    ensures r.Some? ==> exists found, chosen ::
                          && SearchResult(level, levels[level], begin, end, found) && CutOff(level, found, limit, chosen)
                          && Selection(levels, level, chosen, byteLimit, r.value.0, r.value.1)
    ensures r.None? <==> forall f :: f in levels[level] ==> !Overlaps(begin, end, f)
  {
    hide WellFormed, Selectable, GoodInputs, Overlaps, Selection;
    LevelFacts(levels, level);
    var inputs := GetOverlappingInputs(level, levels[level], begin, end);
    forall f | f in levels[level] && Overlaps(begin, end, f)
      ensures f in inputs
    {
      SearchFinds(level, levels[level], begin, end, inputs, f);
    }
    if inputs == [] {
      return None;
    }
    if forall f :: f in levels[level] ==> !Overlaps(begin, end, f) {
      SearchEmpty(level, levels[level], begin, end, inputs);
    }
    SearchSelectable(level, levels[level], begin, end, inputs);
    ghost var found := inputs;
    if level > 0 {
      var cut := CutAtLimit(inputs, limit);
      PrefixSelectable(level, levels[level], begin, end, inputs, cut);
      inputs := cut;
    }
    var inputs0, inputs1;
    ghost var first;
    inputs0, inputs1, first := SetupOtherInputs(levels, level, inputs, byteLimit);
    assert SearchResult(level, levels[level], begin, end, found) && CutOff(level, found, limit, inputs);
    return Some((inputs0, inputs1));
  }
}
