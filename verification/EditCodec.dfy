/** version_edit.cc: the encoding of version edits, the records of the MANIFEST. */
module EditCodec {
  import opened DbFormat
  import opened Coding

  const TWO32: nat := 0x1_0000_0000
  const TWO64: nat := 0x1_0000_0000_0000_0000

  datatype NewFile = NewFile(number: nat, fileSize: nat, smallest: Bytes, largest: Bytes)

  /** The contents of a VersionEdit.  `deletedFiles` is an ordered set of pairs. */
  datatype Edit = Edit(
    comparator: Option<Bytes>, logNumber: Option<nat>, prevLogNumber: Option<nat>, nextFile: Option<nat>, lastSequence: Option<nat>,
    compactPointers: seq<(nat, Bytes)>, deletedFiles: seq<(nat, nat)>, newFiles: seq<(nat, NewFile)>)

  // ---------------------------------------------------------------- ordered sets of pairs

  predicate PairLess(a: (nat, nat), b: (nat, nat)) {
    a.0 < b.0 || (a.0 == b.0 && a.1 < b.1)
  }

  ghost predicate OrderedSet(s: seq<(nat, nat)>) {
    forall i, j :: 0 <= i < j < |s| ==> PairLess(s[i], s[j])
  }

  /** std::set::insert. */
  function Insert(s: seq<(nat, nat)>, p: (nat, nat)): (r: seq<(nat, nat)>)
    ensures forall x :: x in r <==> x in s || x == p
  {
    if s == [] then [p]
    else if p == s[0] then s
    else if PairLess(p, s[0]) then [p] + s
    else
      assert s == [s[0]] + s[1..];
      [s[0]] + Insert(s[1..], p)
  }

  lemma {:induction false} InsertKeepsOrder(s: seq<(nat, nat)>, p: (nat, nat))
    requires OrderedSet(s)
    ensures OrderedSet(Insert(s, p))
    decreases |s|
  {
    if s != [] && p != s[0] && !PairLess(p, s[0]) {
      var rest := Insert(s[1..], p);
      InsertKeepsOrder(s[1..], p);
      forall i | 0 <= i < |rest|
        ensures PairLess(s[0], rest[i])
      {
        assert rest[i] in rest;
      }
    }
  }

  /** What comes last in order is inserted at the end. */
  lemma {:induction false} InsertLast(s: seq<(nat, nat)>, p: (nat, nat))
    requires OrderedSet(s + [p])
    ensures Insert(s, p) == s + [p]
    decreases |s|
  {
    if s != [] {
      assert (s + [p])[0] == s[0] && (s + [p])[|s|] == p;
      assert (s + [p])[1..] == s[1..] + [p];
      InsertLast(s[1..], p);
      assert s == [s[0]] + s[1..];
    }
  }

  // ---------------------------------------------------------------- items

  /** One tagged item of the encoding. */
  datatype Item = Comparator(name: Bytes) | LogNumber(n: nat) | PrevLogNumber(n: nat) | NextFileNumber(n: nat) | LastSequence(n: nat)
                | CompactPointer(level: nat, key: Bytes) | DeletedFile(level: nat, number: nat) | AddedFile(level: nat, file: NewFile)

  function TagOf(it: Item): (t: nat)
    ensures 0 < t < 10
  {
    match it
    case Comparator(_) => 1
    case LogNumber(_) => 2
    case NextFileNumber(_) => 3
    case LastSequence(_) => 4
    case CompactPointer(_, _) => 5
    case DeletedFile(_, _) => 6
    case AddedFile(_, _) => 7
    case PrevLogNumber(_) => 9
  }

  function Body(it: Item): Bytes {
    match it
    case Comparator(name) => LengthPrefixed(name)
    case LogNumber(n) => EncodeVarint(n)
    case PrevLogNumber(n) => EncodeVarint(n)
    case NextFileNumber(n) => EncodeVarint(n)
    case LastSequence(n) => EncodeVarint(n)
    case CompactPointer(level, key) => EncodeVarint(level) + LengthPrefixed(key)
    case DeletedFile(level, number) => EncodeVarint(level) + EncodeVarint(number)
    case AddedFile(level, f) =>
      EncodeVarint(level) + EncodeVarint(f.number) + EncodeVarint(f.fileSize) + LengthPrefixed(f.smallest) + LengthPrefixed(f.largest)
  }

  function ItemBytes(it: Item): Bytes {
    EncodeVarint(TagOf(it)) + Body(it)
  }

  /** Numbers fit their types, and levels exist. */
  predicate ItemOk(it: Item) {
    match it
    case Comparator(name) => |name| < TWO32
    case LogNumber(n) => n < TWO64
    case PrevLogNumber(n) => n < TWO64
    case NextFileNumber(n) => n < TWO64
    case LastSequence(n) => n < TWO64
    case CompactPointer(level, key) => level < kNumLevels && |key| < TWO32
    case DeletedFile(level, number) => level < kNumLevels && number < TWO64
    case AddedFile(level, f) =>
      level < kNumLevels && f.number < TWO64 && f.fileSize < TWO64 && |f.smallest| < TWO32 && |f.largest| < TWO32
  }

  function AllBytes(items: seq<Item>): Bytes {
    if items == [] then [] else ItemBytes(items[0]) + AllBytes(items[1..])
  }

  function Applied(e: Edit, it: Item): Edit {
    match it
    case Comparator(name) => e.(comparator := Some(name))
    case LogNumber(n) => e.(logNumber := Some(n))
    case PrevLogNumber(n) => e.(prevLogNumber := Some(n))
    case NextFileNumber(n) => e.(nextFile := Some(n))
    case LastSequence(n) => e.(lastSequence := Some(n))
    case CompactPointer(level, key) => e.(compactPointers := e.compactPointers + [(level, key)])
    case DeletedFile(level, number) => e.(deletedFiles := Insert(e.deletedFiles, (level, number)))
    case AddedFile(level, f) => e.(newFiles := e.newFiles + [(level, f)])
  }

  function AllApplied(e: Edit, items: seq<Item>): Edit
    decreases |items|
  {
    if items == [] then e else AllApplied(Applied(e, items[0]), items[1..])
  }

  // ---------------------------------------------------------------- an edit as items

  function Field(o: Option<nat>, it: nat -> Item): seq<Item> {
    if o.Some? then [it(o.value)] else []
  }

  function Pointers(ps: seq<(nat, Bytes)>): (r: seq<Item>)
    ensures |r| == |ps| && forall i :: 0 <= i < |r| ==> r[i] == CompactPointer(ps[i].0, ps[i].1)
  {
    seq(|ps|, i requires 0 <= i < |ps| => CompactPointer(ps[i].0, ps[i].1))
  }

  function Deletions(ds: seq<(nat, nat)>): (r: seq<Item>)
    ensures |r| == |ds| && forall i :: 0 <= i < |r| ==> r[i] == DeletedFile(ds[i].0, ds[i].1)
  {
    seq(|ds|, i requires 0 <= i < |ds| => DeletedFile(ds[i].0, ds[i].1))
  }

  function Additions(fs: seq<(nat, NewFile)>): (r: seq<Item>)
    ensures |r| == |fs| && forall i :: 0 <= i < |r| ==> r[i] == AddedFile(fs[i].0, fs[i].1)
  {
    seq(|fs|, i requires 0 <= i < |fs| => AddedFile(fs[i].0, fs[i].1))
  }

  /** The order of EncodeTo. */
  function Items(e: Edit): seq<Item> {
    (if e.comparator.Some? then [Comparator(e.comparator.value)] else [])
    + Field(e.logNumber, (n: nat) => LogNumber(n)) + Field(e.prevLogNumber, (n: nat) => PrevLogNumber(n))
    + Field(e.nextFile, (n: nat) => NextFileNumber(n)) + Field(e.lastSequence, (n: nat) => LastSequence(n))
    + Pointers(e.compactPointers) + Deletions(e.deletedFiles) + Additions(e.newFiles)
  }

  predicate Fits64(o: Option<nat>) {
    o.Some? ==> o.value < TWO64
  }

  /** Numbers fit 64 bits, names and keys 32 bits of length, and levels exist. */
  ghost predicate EditOk(e: Edit) {
    && OrderedSet(e.deletedFiles) && (e.comparator.Some? ==> |e.comparator.value| < TWO32)
    && Fits64(e.logNumber) && Fits64(e.prevLogNumber) && Fits64(e.nextFile) && Fits64(e.lastSequence)
    && ListsOk(e)
  }

  ghost predicate ListsOk(e: Edit) {
    && (forall i :: 0 <= i < |e.compactPointers| ==> ItemOk(CompactPointer(e.compactPointers[i].0, e.compactPointers[i].1)))
    && (forall i :: 0 <= i < |e.deletedFiles| ==> ItemOk(DeletedFile(e.deletedFiles[i].0, e.deletedFiles[i].1)))
    && forall i :: 0 <= i < |e.newFiles| ==> ItemOk(AddedFile(e.newFiles[i].0, e.newFiles[i].1))
  }

  ghost predicate AllOk(items: seq<Item>) {
    forall it :: it in items ==> ItemOk(it)
  }

  lemma AllOkConcat(a: seq<Item>, b: seq<Item>)
    requires AllOk(a) && AllOk(b)
    ensures AllOk(a + b)
  {
    hide ItemOk;
  }

  lemma ItemsOk(e: Edit)
    requires EditOk(e)
    ensures AllOk(Items(e))
  {
    hide OrderedSet, AllOk;
    var i0 := if e.comparator.Some? then [Comparator(e.comparator.value)] else [];
    var f1, f2 := Field(e.logNumber, (n: nat) => LogNumber(n)), Field(e.prevLogNumber, (n: nat) => PrevLogNumber(n));
    var f3, f4 := Field(e.nextFile, (n: nat) => NextFileNumber(n)), Field(e.lastSequence, (n: nat) => LastSequence(n));
    var ps, ds, fs := Pointers(e.compactPointers), Deletions(e.deletedFiles), Additions(e.newFiles);
    assert AllOk(i0) && AllOk(f1) && AllOk(f2) && AllOk(f3) && AllOk(f4) by {
      FieldsOk(e, i0, f1, f2, f3, f4);
    }
    assert AllOk(ps) && AllOk(ds) && AllOk(fs) by {
      ListItemsOk(e);
    }
    AllOkConcat(i0, f1);
    AllOkConcat(i0 + f1, f2);
    AllOkConcat(i0 + f1 + f2, f3);
    AllOkConcat(i0 + f1 + f2 + f3, f4);
    AllOkConcat(i0 + f1 + f2 + f3 + f4, ps);
    AllOkConcat(i0 + f1 + f2 + f3 + f4 + ps, ds);
    AllOkConcat(i0 + f1 + f2 + f3 + f4 + ps + ds, fs);
  }

  lemma FieldsOk(e: Edit, i0: seq<Item>, f1: seq<Item>, f2: seq<Item>, f3: seq<Item>, f4: seq<Item>)
    requires EditOk(e) && i0 == if e.comparator.Some? then [Comparator(e.comparator.value)] else []
    requires f1 == Field(e.logNumber, (n: nat) => LogNumber(n)) && f2 == Field(e.prevLogNumber, (n: nat) => PrevLogNumber(n))
    requires f3 == Field(e.nextFile, (n: nat) => NextFileNumber(n)) && f4 == Field(e.lastSequence, (n: nat) => LastSequence(n))
    ensures AllOk(i0) && AllOk(f1) && AllOk(f2) && AllOk(f3) && AllOk(f4)
  {
    hide OrderedSet, ListsOk;
  }

  lemma ListItemsOk(e: Edit)
    requires ListsOk(e)
    ensures AllOk(Pointers(e.compactPointers)) && AllOk(Deletions(e.deletedFiles)) && AllOk(Additions(e.newFiles))
  {
    hide ItemOk;
  }

  function Encode(e: Edit): Bytes {
    AllBytes(Items(e))
  }

  const EMPTY: Edit := Edit(None, None, None, None, None, [], [], [])

  // ---------------------------------------------------------------- decoding

  function Get32(s: Bytes): (r: Option<(nat, Bytes)>)
    ensures r.Some? ==> |r.value.1| < |s|
  {
    match DecodeVarint(s, 5)
    case None => None
    case Some((v, rest)) => Some((v % TWO32, rest))
  }

  function Get64(s: Bytes): (r: Option<(nat, Bytes)>)
    ensures r.Some? ==> |r.value.1| < |s|
  {
    match DecodeVarint(s, 10)
    case None => None
    case Some((v, rest)) => Some((v % TWO64, rest))
  }

  function GetLevel(s: Bytes): (r: Option<(nat, Bytes)>)
    ensures r.Some? ==> |r.value.1| < |s| && r.value.0 < kNumLevels
  {
    match Get32(s)
    case None => None
    case Some((v, rest)) => if v < kNumLevels then Some((v, rest)) else None
  }

  /** The item under a tag, and what follows it. */
  function DecodeItem(tag: nat, s: Bytes): (r: Option<(Item, Bytes)>)
    ensures r.Some? ==> |r.value.1| < |s|
  {
    if tag == 1 then
      (match DecodeLengthPrefixed(s) case None => None case Some((name, rest)) => Some((Comparator(name), rest)))
    else if tag == 2 then (match Get64(s) case None => None case Some((n, rest)) => Some((LogNumber(n), rest)))
    else if tag == 9 then (match Get64(s) case None => None case Some((n, rest)) => Some((PrevLogNumber(n), rest)))
    else if tag == 3 then (match Get64(s) case None => None case Some((n, rest)) => Some((NextFileNumber(n), rest)))
    else if tag == 4 then (match Get64(s) case None => None case Some((n, rest)) => Some((LastSequence(n), rest)))
    else if tag == 5 then
      match GetLevel(s)
      case None => None
      case Some((level, s1)) =>
        (match DecodeLengthPrefixed(s1) case None => None case Some((key, rest)) => Some((CompactPointer(level, key), rest)))
    else if tag == 6 then
      match GetLevel(s)
      case None => None
      case Some((level, s1)) =>
        (match Get64(s1) case None => None case Some((n, rest)) => Some((DeletedFile(level, n), rest)))
    else if tag == 7 then
      match GetLevel(s)
      case None => None
      case Some((level, s1)) =>
        (match DecodeFile(s1) case None => None case Some((f, rest)) => Some((AddedFile(level, f), rest)))
    else None
  }

  function DecodeFile(s: Bytes): (r: Option<(NewFile, Bytes)>)
    ensures r.Some? ==> |r.value.1| < |s|
  {
    match Get64(s)
    case None => None
    case Some((number, s1)) =>
      match Get64(s1)
      case None => None
      case Some((fileSize, s2)) =>
        match DecodeLengthPrefixed(s2)
        case None => None
        case Some((smallest, s3)) =>
          match DecodeLengthPrefixed(s3)
          case None => None
          case Some((largest, rest)) => Some((NewFile(number, fileSize, smallest, largest), rest))
  }

  /** The loop of DecodeFrom: items until the input ends; anything else is corruption. */
  function DecodeAll(s: Bytes, e: Edit): Option<Edit>
    decreases |s|
  {
    match Get32(s)
    case None => if s == [] then Some(e) else None
    case Some((tag, rest)) =>
      match DecodeItem(tag, rest)
      case None => None
      case Some((it, rest')) => DecodeAll(rest', Applied(e, it))
  }

  // ---------------------------------------------------------------- round trip

  lemma Get32RoundTrip(n: nat, rest: Bytes)
    requires n < TWO32
    ensures Get32(EncodeVarint(n) + rest) == Some((n, rest))
  {
    hide EncodeVarint, DecodeVarint;
    assert n < Pow128(5) by {
      Pow128Values();
    }
    hide Pow128;
    VarintRoundTrip(n, 5, rest);
  }

  lemma Get64RoundTrip(n: nat, rest: Bytes)
    requires n < TWO64
    ensures Get64(EncodeVarint(n) + rest) == Some((n, rest))
  {
    hide EncodeVarint, DecodeVarint;
    assert n < Pow128(10) by {
      Pow128Values();
    }
    hide Pow128;
    VarintRoundTrip(n, 10, rest);
  }

  lemma LevelRoundTrip(n: nat, rest: Bytes)
    requires n < kNumLevels
    ensures GetLevel(EncodeVarint(n) + rest) == Some((n, rest))
  {
    hide Get32, EncodeVarint;
    Get32RoundTrip(n, rest);
  }

  lemma FileRoundTrip(f: NewFile, rest: Bytes)
    requires f.number < TWO64 && f.fileSize < TWO64 && |f.smallest| < TWO32 && |f.largest| < TWO32
    ensures DecodeFile(EncodeVarint(f.number) + (EncodeVarint(f.fileSize) + (LengthPrefixed(f.smallest) + (LengthPrefixed(f.largest) + rest)))) == Some((f, rest))
  {
    hide Get64, EncodeVarint, DecodeLengthPrefixed, LengthPrefixed;
    var s3 := LengthPrefixed(f.largest) + rest;
    var s2 := LengthPrefixed(f.smallest) + s3;
    Get64RoundTrip(f.number, EncodeVarint(f.fileSize) + s2);
    Get64RoundTrip(f.fileSize, s2);
    LengthPrefixedRoundTrip(f.smallest, s3);
    LengthPrefixedRoundTrip(f.largest, rest);
  }

  /** Each item is read back from its encoding. */
  lemma ItemRoundTrip(it: Item, rest: Bytes)
    requires ItemOk(it)
    ensures DecodeItem(TagOf(it), Body(it) + rest) == Some((it, rest))
  {
    hide Get64, GetLevel, EncodeVarint, DecodeLengthPrefixed, LengthPrefixed, DecodeFile;
    match it
    case Comparator(name) => LengthPrefixedRoundTrip(name, rest);
    case LogNumber(n) => Get64RoundTrip(n, rest);
    case PrevLogNumber(n) => Get64RoundTrip(n, rest);
    case NextFileNumber(n) => Get64RoundTrip(n, rest);
    case LastSequence(n) => Get64RoundTrip(n, rest);
    case CompactPointer(level, key) =>
      LevelRoundTrip(level, LengthPrefixed(key) + rest);
      LengthPrefixedRoundTrip(key, rest);
      assert Body(it) + rest == EncodeVarint(level) + (LengthPrefixed(key) + rest);
    case DeletedFile(level, number) =>
      LevelRoundTrip(level, EncodeVarint(number) + rest);
      Get64RoundTrip(number, rest);
      assert Body(it) + rest == EncodeVarint(level) + (EncodeVarint(number) + rest);
    case AddedFile(level, f) =>
      var s := EncodeVarint(f.number) + (EncodeVarint(f.fileSize) + (LengthPrefixed(f.smallest) + (LengthPrefixed(f.largest) + rest)));
      LevelRoundTrip(level, s);
      FileRoundTrip(f, rest);
      assert Body(it) + rest == EncodeVarint(level) + s;
  }

  lemma {:induction false} ItemsRoundTrip(items: seq<Item>, e: Edit)
    requires AllOk(items)
    ensures DecodeAll(AllBytes(items), e) == Some(AllApplied(e, items))
    decreases |items|
  {
    hide DecodeItem, Body, ItemOk, Applied, Get32, EncodeVarint;
    if items == [] {
      EmptyInput();
    } else {
      var it, rest := items[0], AllBytes(items[1..]);
      Get32RoundTrip(TagOf(it), Body(it) + rest);
      assert AllBytes(items) == EncodeVarint(TagOf(it)) + (Body(it) + rest);
      ItemRoundTrip(it, rest);
      ItemsRoundTrip(items[1..], Applied(e, it));
    }
  }

  lemma EmptyInput()
    ensures Get32([]).None?
  {
  }

  /** Decoding into an edit whose compaction pointers were left over keeps them in front. */
  function WithPointers(e: Edit, before: seq<(nat, Bytes)>): Edit {
    e.(compactPointers := before + e.compactPointers)
  }

  lemma {:induction false} AppliedConcat(e: Edit, a: seq<Item>, b: seq<Item>)
    ensures AllApplied(e, a + b) == AllApplied(AllApplied(e, a), b)
    decreases |a|
  {
    hide Applied;
    if a == [] {
      assert a + b == b;
    } else {
      assert (a + b)[1..] == a[1..] + b;
      AppliedConcat(Applied(e, a[0]), a[1..], b);
    }
  }

  lemma {:induction false} PointersApplied(e: Edit, ps: seq<(nat, Bytes)>)
    ensures AllApplied(e, Pointers(ps)) == e.(compactPointers := e.compactPointers + ps)
    decreases |ps|
  {
    if ps == [] {
      assert e.compactPointers + ps == e.compactPointers;
    } else {
      assert Pointers(ps)[1..] == Pointers(ps[1..]);
      PointersApplied(e.(compactPointers := e.compactPointers + [ps[0]]), ps[1..]);
      assert e.compactPointers + [ps[0]] + ps[1..] == e.compactPointers + ps;
    }
  }

  lemma {:induction false} AdditionsApplied(e: Edit, fs: seq<(nat, NewFile)>)
    ensures AllApplied(e, Additions(fs)) == e.(newFiles := e.newFiles + fs)
    decreases |fs|
  {
    if fs == [] {
      assert e.newFiles + fs == e.newFiles;
    } else {
      assert Additions(fs)[1..] == Additions(fs[1..]);
      AdditionsApplied(e.(newFiles := e.newFiles + [fs[0]]), fs[1..]);
      assert e.newFiles + [fs[0]] + fs[1..] == e.newFiles + fs;
    }
  }

  lemma {:induction false} DeletionsApplied(e: Edit, ds: seq<(nat, nat)>)
    requires OrderedSet(e.deletedFiles + ds)
    ensures AllApplied(e, Deletions(ds)) == e.(deletedFiles := e.deletedFiles + ds)
    decreases |ds|
  {
    if ds == [] {
      assert e.deletedFiles + ds == e.deletedFiles;
    } else {
      var before := e.deletedFiles;
      assert Deletions(ds)[1..] == Deletions(ds[1..]);
      assert before + [ds[0]] == (before + ds)[..|before| + 1];
      InsertLast(before, ds[0]);
      assert before + [ds[0]] + ds[1..] == before + ds;
      DeletionsApplied(e.(deletedFiles := before + [ds[0]]), ds[1..]);
    }
  }

  lemma FieldApplied(e: Edit, o: Option<nat>, it: nat -> Item)
    ensures AllApplied(e, Field(o, it)) == if o.Some? then Applied(e, it(o.value)) else e
  {
    hide Applied;
    if o.Some? {
      assert Field(o, it)[1..] == [];
    }
  }

  lemma ComparatorApplied(e: Edit, o: Option<Bytes>)
    ensures AllApplied(e, if o.Some? then [Comparator(o.value)] else []) == if o.Some? then e.(comparator := o) else e
  {
    if o.Some? {
      assert [Comparator(o.value)][1..] == [];
    }
  }

  /** The items of an edit, applied to an empty one, give the edit. */
  lemma ItemsRebuild(e: Edit, before: seq<(nat, Bytes)>)
    requires OrderedSet(e.deletedFiles)
    ensures AllApplied(EMPTY.(compactPointers := before), Items(e)) == WithPointers(e, before)
  {
    hide AllApplied, Field, OrderedSet;
    var i0 := if e.comparator.Some? then [Comparator(e.comparator.value)] else [];
    var f1, f2 := Field(e.logNumber, (n: nat) => LogNumber(n)), Field(e.prevLogNumber, (n: nat) => PrevLogNumber(n));
    var f3, f4 := Field(e.nextFile, (n: nat) => NextFileNumber(n)), Field(e.lastSequence, (n: nat) => LastSequence(n));
    var e0 := EMPTY.(compactPointers := before);
    ComparatorApplied(e0, e.comparator);
    var e1 := e0.(comparator := e.comparator);
    FieldApplied(e1, e.logNumber, (n: nat) => LogNumber(n));
    var e2 := e1.(logNumber := e.logNumber);
    AppliedConcat(e0, i0, f1);
    FieldApplied(e2, e.prevLogNumber, (n: nat) => PrevLogNumber(n));
    var e3 := e2.(prevLogNumber := e.prevLogNumber);
    AppliedConcat(e0, i0 + f1, f2);
    FieldApplied(e3, e.nextFile, (n: nat) => NextFileNumber(n));
    var e4 := e3.(nextFile := e.nextFile);
    AppliedConcat(e0, i0 + f1 + f2, f3);
    FieldApplied(e4, e.lastSequence, (n: nat) => LastSequence(n));
    var e5 := e4.(lastSequence := e.lastSequence);
    AppliedConcat(e0, i0 + f1 + f2 + f3, f4);
    var front := i0 + f1 + f2 + f3 + f4;
    assert AllApplied(e0, front) == e5;
    ListsRebuild(e, before, e0, e5, front);
  }

  lemma ListsRebuild(e: Edit, before: seq<(nat, Bytes)>, e0: Edit, e5: Edit, front: seq<Item>)
    requires OrderedSet(e.deletedFiles) && AllApplied(e0, front) == e5
    requires e5 == e.(compactPointers := before, deletedFiles := [], newFiles := [])
    ensures AllApplied(e0, front + Pointers(e.compactPointers) + Deletions(e.deletedFiles) + Additions(e.newFiles)) == WithPointers(e, before)
  {
    hide AllApplied, OrderedSet;
    var ps, ds, fs := Pointers(e.compactPointers), Deletions(e.deletedFiles), Additions(e.newFiles);
    PointersApplied(e5, e.compactPointers);
    AppliedConcat(e0, front, ps);
    var e6 := e5.(compactPointers := before + e.compactPointers);
    assert [] + e.deletedFiles == e.deletedFiles && [] + e.newFiles == e.newFiles;
    DeletionsApplied(e6, e.deletedFiles);
    AppliedConcat(e0, front + ps, ds);
    var e7 := e6.(deletedFiles := e.deletedFiles);
    AdditionsApplied(e7, e.newFiles);
    AppliedConcat(e0, front + ps + ds, fs);
  }

  /** A record decodes to the edit it encodes, with any compaction pointers that were there
      before in front of its own. */
  lemma EditRoundTrip(e: Edit, before: seq<(nat, Bytes)>)
    requires EditOk(e)
    ensures DecodeAll(Encode(e), EMPTY.(compactPointers := before)) == Some(WithPointers(e, before))
  {
    ItemsOk(e);
    ItemsRoundTrip(Items(e), EMPTY.(compactPointers := before));
    ItemsRebuild(e, before);
  }

  /** So decoding gives the edit back exactly if there were none. */
  lemma FreshDecodes(e: Edit, before: seq<(nat, Bytes)>)
    requires EditOk(e)
    ensures DecodeAll(Encode(e), EMPTY.(compactPointers := before)) == Some(e) <==> before == []
  {
    hide DecodeAll, Encode, EditOk;
    EditRoundTrip(e, before);
    assert before == [] ==> before + e.compactPointers == e.compactPointers;
    assert |before + e.compactPointers| == |before| + |e.compactPointers|;
  }

  // ---------------------------------------------------------------- the class

  class VersionEdit {
    var comparator: Bytes
    var hasComparator: bool
    var logNumber: nat
    var hasLogNumber: bool
    var prevLogNumber: nat
    var hasPrevLogNumber: bool
    var nextFileNumber: nat
    var hasNextFileNumber: bool
    var lastSequence: nat
    var hasLastSequence: bool
    var compactPointers: seq<(nat, Bytes)>
    var deletedFiles: seq<(nat, nat)>
    var newFiles: seq<(nat, NewFile)>

    ghost function Contents(): Edit
      reads this
    {
      Edit(
        if hasComparator then Some(comparator) else None, if hasLogNumber then Some(logNumber) else None,
        if hasPrevLogNumber then Some(prevLogNumber) else None, if hasNextFileNumber then Some(nextFileNumber) else None,
        if hasLastSequence then Some(lastSequence) else None, compactPointers, deletedFiles, newFiles)
    }

    constructor ()
      ensures Contents() == EMPTY
    {
      comparator, logNumber, prevLogNumber, nextFileNumber, lastSequence := [], 0, 0, 0, 0;
      hasComparator, hasLogNumber, hasPrevLogNumber, hasNextFileNumber, hasLastSequence := false, false, false, false, false;
      compactPointers, deletedFiles, newFiles := [], [], [];
    }

    /** VersionEdit::Clear, which leaves the compaction pointers alone. */
    method Clear()
      modifies this
      ensures Contents() == EMPTY.(compactPointers := old(compactPointers))
    {
      comparator, logNumber, prevLogNumber, lastSequence, nextFileNumber := [], 0, 0, 0, 0;
      hasComparator, hasLogNumber, hasPrevLogNumber, hasNextFileNumber, hasLastSequence := false, false, false, false, false;
      deletedFiles, newFiles := [], [];
    }

    method AddFile(level: nat, file: nat, fileSize: nat, smallest: Bytes, largest: Bytes)
      modifies this
      ensures Contents() == Applied(old(Contents()), AddedFile(level, NewFile(file, fileSize, smallest, largest)))
    {
      newFiles := newFiles + [(level, NewFile(file, fileSize, smallest, largest))];
    }

    method DeleteFile(level: nat, file: nat)
      modifies this
      ensures Contents() == Applied(old(Contents()), DeletedFile(level, file))
      ensures OrderedSet(old(deletedFiles)) ==> OrderedSet(deletedFiles)
    {
      if OrderedSet(deletedFiles) {
        InsertKeepsOrder(deletedFiles, (level, file));
      }
      deletedFiles := Insert(deletedFiles, (level, file));
    }

    /** VersionEdit::EncodeTo. */
    method EncodeTo(dst: Bytes) returns (r: Bytes)
      requires EditOk(Contents())
      ensures r == dst + Encode(Contents())
    {
      hide AllBytes, ItemOk, OrderedSet, Front, Items;
      ghost var e, done := Contents(), [];
      FrontItems(e);
      r, done := PutFields(dst);
      r, done := PutPointers(dst, r, done, compactPointers);
      r, done := PutDeletions(dst, r, done, deletedFiles);
      r, done := PutAdditions(dst, r, done, newFiles);
    }

    method PutFields(dst: Bytes) returns (r: Bytes, ghost done: seq<Item>)
      requires hasComparator ==> |comparator| < TWO32
      requires (hasLogNumber ==> logNumber < TWO64) && (hasPrevLogNumber ==> prevLogNumber < TWO64)
      requires (hasNextFileNumber ==> nextFileNumber < TWO64) && (hasLastSequence ==> lastSequence < TWO64)
      ensures done == Front(Contents()) && r == dst + AllBytes(done)
    {
      hide AllBytes, Front, Opt, Contents;
      NoBytes(dst);
      FrontIs();
      NothingFirst(Opt(hasComparator, Comparator(comparator)));
      r, done := PutIf(dst, dst, [], hasComparator, Comparator(comparator));
      r, done := PutIf(dst, r, done, hasLogNumber, LogNumber(logNumber));
      r, done := PutIf(dst, r, done, hasPrevLogNumber, PrevLogNumber(prevLogNumber));
      r, done := PutIf(dst, r, done, hasNextFileNumber, NextFileNumber(nextFileNumber));
      r, done := PutIf(dst, r, done, hasLastSequence, LastSequence(lastSequence));
    }

    lemma FrontIs()
      ensures Front(Contents()) == Opt(hasComparator, Comparator(comparator)) + Opt(hasLogNumber, LogNumber(logNumber))
                                   + Opt(hasPrevLogNumber, PrevLogNumber(prevLogNumber))
                                   + Opt(hasNextFileNumber, NextFileNumber(nextFileNumber)) + Opt(hasLastSequence, LastSequence(lastSequence))
    {
    }

    /** VersionEdit::DecodeFrom. */
    method DecodeFrom(src: Bytes) returns (ok: bool)
      modifies this
      ensures ok <==> DecodeAll(src, EMPTY.(compactPointers := old(compactPointers))).Some?
      ensures ok ==> Contents() == DecodeAll(src, EMPTY.(compactPointers := old(compactPointers))).value
    {
      hide Get32, DecodeItem, Applied;
      ghost var start := EMPTY.(compactPointers := compactPointers);
      Clear();
      var input := src;
      while true
        invariant DecodeAll(src, start) == DecodeAll(input, Contents())
        decreases |input|
      {
        var tag := GetWord32(input);
        if tag.None? {
          break;
        }
        var decoded, rest := DecodeField(tag.value.0, tag.value.1);
        if !decoded {
          return false;
        }
        input := rest;
      }
      // What is left when no tag can be read is an invalid tag.
      ok := input == [];
    }

    /** The switch of DecodeFrom. */
    method DecodeField(tag: nat, input: Bytes) returns (ok: bool, rest: Bytes)
      modifies this
      ensures match DecodeItem(tag, input)
              case None => !ok
              case Some((it, s)) => ok && rest == s && Contents() == Applied(old(Contents()), it)
    {
      hide Get64, GetLevel, DecodeLengthPrefixed, DecodeFile, Insert;
      ok, rest := false, input;
      if tag == 1 {
        var str := GetLengthPrefixedSlice(input);
        if str.Some? {
          comparator, hasComparator := str.value.0, true;
          ok, rest := true, str.value.1;
        }
      } else if tag == 2 {
        var n := GetWord64(input);
        if n.Some? {
          logNumber, hasLogNumber := n.value.0, true;
          ok, rest := true, n.value.1;
        }
      } else if tag == 9 {
        var n := GetWord64(input);
        if n.Some? {
          prevLogNumber, hasPrevLogNumber := n.value.0, true;
          ok, rest := true, n.value.1;
        }
      } else if tag == 3 {
        var n := GetWord64(input);
        if n.Some? {
          nextFileNumber, hasNextFileNumber := n.value.0, true;
          ok, rest := true, n.value.1;
        }
      } else if tag == 4 {
        var n := GetWord64(input);
        if n.Some? {
          lastSequence, hasLastSequence := n.value.0, true;
          ok, rest := true, n.value.1;
        }
      } else if tag == 5 {
        var level := GetLevelFrom(input);
        if level.Some? {
          var key := GetLengthPrefixedSlice(level.value.1);
          if key.Some? {
            compactPointers := compactPointers + [(level.value.0, key.value.0)];
            ok, rest := true, key.value.1;
          }
        }
      } else if tag == 6 {
        var level := GetLevelFrom(input);
        if level.Some? {
          var number := GetWord64(level.value.1);
          if number.Some? {
            deletedFiles := Insert(deletedFiles, (level.value.0, number.value.0));
            ok, rest := true, number.value.1;
          }
        }
      } else if tag == 7 {
        var level := GetLevelFrom(input);
        if level.Some? {
          var f := GetFile(level.value.1);
          if f.Some? {
            newFiles := newFiles + [(level.value.0, f.value.0)];
            ok, rest := true, f.value.1;
          }
        }
      }
    }
  }

  /** A field that may not be there. */
  method PutIf(dst: Bytes, r0: Bytes, ghost done0: seq<Item>, has: bool, it: Item) returns (r: Bytes, ghost done: seq<Item>)
    requires r0 == dst + AllBytes(done0) && (has ==> ItemOk(it))
    ensures done == done0 + Opt(has, it) && r == dst + AllBytes(done)
  {
    r, done := r0, done0;
    if has {
      r, done := AppendItem(dst, r, done, it);
    }
  }

  method PutPointers(dst: Bytes, r0: Bytes, ghost done0: seq<Item>, ps: seq<(nat, Bytes)>) returns (r: Bytes, ghost done: seq<Item>)
    requires r0 == dst + AllBytes(done0) && forall i :: 0 <= i < |ps| ==> ItemOk(CompactPointer(ps[i].0, ps[i].1))
    ensures done == done0 + Pointers(ps) && r == dst + AllBytes(done)
  {
    hide AllBytes, ItemOk;
    r, done := r0, done0;
    for i := 0 to |ps|
      invariant done == done0 + Pointers(ps)[..i] && r == dst + AllBytes(done)
    {
      r, done := AppendItem(dst, r, done, CompactPointer(ps[i].0, ps[i].1));
    }
  }

  method PutDeletions(dst: Bytes, r0: Bytes, ghost done0: seq<Item>, ds: seq<(nat, nat)>) returns (r: Bytes, ghost done: seq<Item>)
    requires r0 == dst + AllBytes(done0) && forall i :: 0 <= i < |ds| ==> ItemOk(DeletedFile(ds[i].0, ds[i].1))
    ensures done == done0 + Deletions(ds) && r == dst + AllBytes(done)
  {
    hide AllBytes, ItemOk;
    r, done := r0, done0;
    for i := 0 to |ds|
      invariant done == done0 + Deletions(ds)[..i] && r == dst + AllBytes(done)
    {
      r, done := AppendItem(dst, r, done, DeletedFile(ds[i].0, ds[i].1));
    }
  }

  method PutAdditions(dst: Bytes, r0: Bytes, ghost done0: seq<Item>, fs: seq<(nat, NewFile)>) returns (r: Bytes, ghost done: seq<Item>)
    requires r0 == dst + AllBytes(done0) && forall i :: 0 <= i < |fs| ==> ItemOk(AddedFile(fs[i].0, fs[i].1))
    ensures done == done0 + Additions(fs) && r == dst + AllBytes(done)
  {
    hide AllBytes, ItemOk;
    r, done := r0, done0;
    for i := 0 to |fs|
      invariant done == done0 + Additions(fs)[..i] && r == dst + AllBytes(done)
    {
      r, done := AppendItem(dst, r, done, AddedFile(fs[i].0, fs[i].1));
    }
  }

  /** The items before the lists. */
  function Front(e: Edit): seq<Item> {
    (if e.comparator.Some? then [Comparator(e.comparator.value)] else [])
    + Field(e.logNumber, (n: nat) => LogNumber(n)) + Field(e.prevLogNumber, (n: nat) => PrevLogNumber(n))
    + Field(e.nextFile, (n: nat) => NextFileNumber(n)) + Field(e.lastSequence, (n: nat) => LastSequence(n))
  }

  function Opt(has: bool, it: Item): seq<Item> {
    if has then [it] else []
  }

  lemma NothingFirst(items: seq<Item>)
    ensures [] + items == items
  {
  }

  lemma FrontItems(e: Edit)
    ensures Items(e) == Front(e) + Pointers(e.compactPointers) + Deletions(e.deletedFiles) + Additions(e.newFiles)
  {
  }

  lemma NoBytes(dst: Bytes)
    ensures dst + AllBytes([]) == dst
  {
  }

  lemma {:induction false} AllBytesSnoc(items: seq<Item>, it: Item)
    ensures AllBytes(items + [it]) == AllBytes(items) + ItemBytes(it)
    decreases |items|
  {
    hide ItemBytes;
    if items == [] {
      assert items + [it] == [it] && [it][1..] == [];
    } else {
      assert (items + [it])[1..] == items[1..] + [it];
      AllBytesSnoc(items[1..], it);
    }
  }

  /** One item more: its tag, then what the tag stands for. */
  method AppendItem(dst: Bytes, r: Bytes, ghost done: seq<Item>, it: Item) returns (r': Bytes, ghost done': seq<Item>)
    requires r == dst + AllBytes(done) && ItemOk(it)
    ensures done' == done + [it] && r' == dst + AllBytes(done')
  {
    hide EncodeVarint, LengthPrefixed, AllBytes;
    done' := done + [it];
    AllBytesSnoc(done, it);
    var tag := PutVarint32(TagOf(it));
    var body: Bytes;
    match it {
      case Comparator(name) => body := PutLengthPrefixedSlice(name);
      case LogNumber(n) => body := PutVarint64(n);
      case PrevLogNumber(n) => body := PutVarint64(n);
      case NextFileNumber(n) => body := PutVarint64(n);
      case LastSequence(n) => body := PutVarint64(n);
      case CompactPointer(level, key) =>
        var a := PutVarint32(level);
        var b := PutLengthPrefixedSlice(key);
        body := a + b;
      case DeletedFile(level, number) =>
        var a := PutVarint32(level);
        var b := PutVarint64(number);
        body := a + b;
      case AddedFile(level, f) =>
        var a := PutVarint32(level);
        var b := PutVarint64(f.number);
        var c := PutVarint64(f.fileSize);
        var d := PutLengthPrefixedSlice(f.smallest);
        var e := PutLengthPrefixedSlice(f.largest);
        body := a + b + c + d + e;
    }
    r' := r + (tag + body);
  }

  method PutLengthPrefixedSlice(data: Bytes) returns (r: Bytes)
    requires |data| < TWO32
    ensures r == LengthPrefixed(data)
  {
    hide EncodeVarint;
    var n := PutVarint32(|data|);
    r := n + data;
  }

  method GetWord32(s: Bytes) returns (r: Option<(nat, Bytes)>)
    ensures r == Get32(s)
  {
    hide DecodeVarint;
    r := GetVarint32(s);
  }

  method GetWord64(s: Bytes) returns (r: Option<(nat, Bytes)>)
    ensures r == Get64(s)
  {
    hide DecodeVarint;
    r := GetVarint64(s);
  }

  method GetLengthPrefixedSlice(s: Bytes) returns (r: Option<(Bytes, Bytes)>)
    ensures r == DecodeLengthPrefixed(s)
  {
    hide DecodeVarint;
    var n := GetVarint32(s);
    if n.None? || n.value.0 > |n.value.1| {
      return None;
    }
    r := Some((n.value.1[..n.value.0], n.value.1[n.value.0..]));
  }

  /** GetLevel: only levels that exist. */
  method GetLevelFrom(s: Bytes) returns (r: Option<(nat, Bytes)>)
    ensures r == GetLevel(s)
  {
    hide Get32;
    var v := GetWord32(s);
    r := if v.Some? && v.value.0 < kNumLevels then v else None;
  }

  method GetFile(s: Bytes) returns (r: Option<(NewFile, Bytes)>)
    ensures r == DecodeFile(s)
  {
    hide Get64, DecodeLengthPrefixed;
    var number := GetWord64(s);
    if number.None? {
      return None;
    }
    var fileSize := GetWord64(number.value.1);
    if fileSize.None? {
      return None;
    }
    var smallest := GetLengthPrefixedSlice(fileSize.value.1);
    if smallest.None? {
      return None;
    }
    var largest := GetLengthPrefixedSlice(smallest.value.1);
    if largest.None? {
      return None;
    }
    r := Some((NewFile(number.value.0, fileSize.value.0, smallest.value.0, largest.value.0), largest.value.1));
  }
}
