/** table.cc: opening a finished table, and the point lookup that looks into one block. */
module Tables {
  import opened DbFormat
  import opened Coding
  import opened Block
  import opened BlockIter
  import opened Comparators
  import opened FilterBlock
  import opened TableFormat
  import opened TableState
  import opened TableBuilding

  // ---------------------------------------------------------------- positions

  /** Where the pairs of block `i` begin among all pairs. */
  ghost function Start(blocks: seq<Layout>, i: nat): nat
    requires i <= |blocks|
  {
    |AllPairs(blocks[..i])|
  }

  lemma {:induction false} StartOf(blocks: seq<Layout>, i: nat)
    requires i < |blocks|
    ensures Start(blocks, i + 1) == Start(blocks, i) + |blocks[i].kvs| <= |AllPairs(blocks)|
    decreases |blocks|
  {
    var n := |blocks| - 1;
    assert blocks[..i + 1][..i] == blocks[..i];
    if i == n {
      assert blocks[..i + 1] == blocks;
    } else {
      var front := blocks[..n];
      StartOf(front, i);
      assert front[..i] == blocks[..i] && front[..i + 1] == blocks[..i + 1];
    }
  }

  lemma {:induction false} PairAt(blocks: seq<Layout>, i: nat, j: nat)
    requires i < |blocks| && j < |blocks[i].kvs|
    ensures Start(blocks, i) + j < |AllPairs(blocks)| && AllPairs(blocks)[Start(blocks, i) + j] == blocks[i].kvs[j]
    decreases |blocks|
  {
    var n := |blocks| - 1;
    StartOf(blocks, i);
    if i < n {
      var front := blocks[..n];
      PairAt(front, i, j);
      assert front[..i] == blocks[..i];
    }
  }

  lemma StartEnd(blocks: seq<Layout>)
    ensures Start(blocks, |blocks|) == |AllPairs(blocks)| && Start(blocks, 0) == 0
  {
    assert blocks[..|blocks|] == blocks;
  }

  /** A table state that is complete. */
  ghost predicate Complete(step: CrcStep, st: State) {
    StateOk(step, st) && st.tail == [] && |st.index| == |st.blocks|
  }

  /** What is known of block `i` and its index key. */
  lemma BlockFacts(step: CrcStep, st: State, i: nat)
    requires Complete(step, st) && i < |st.blocks|
    ensures StoredBlock(step, st.file, st.blocks[i], st.handles[i]) && st.index[i].value == HandleBytes(st.handles[i])
    ensures st.blocks[i].kvs != [] && Ordered(st.blocks[i].kvs)
    ensures !ByInternalKey(st.index[i].key, Last(st.blocks[i]))
    ensures i + 1 < |st.blocks| ==>
              && st.blocks[i + 1].kvs != []
              && InternalSeparator(Last(st.blocks[i]), First(st.blocks[i + 1]), st.index[i].key)
              && ByInternalKey(st.index[i].key, First(st.blocks[i + 1]))
  {
    hide Fits, Contents, BlockAt, InternalSeparator, InternalSuccessor, ByInternalKey, InternalLess, HandleBytes, Ordered;
    assert StoredBlock(step, st.file, st.blocks[i], st.handles[i]) && IndexEntry(st, i);
    var all := AllPairs(st.blocks);
    assert Entries(st) == all by {
      assert all + [] == all;
    }
    BlockOrdered(st.blocks, i);
    if i + 1 < |st.blocks| {
      assert StoredBlock(step, st.file, st.blocks[i + 1], st.handles[i + 1]);
      BlocksInOrder(st.blocks, i);
      Between(Last(st.blocks[i]), First(st.blocks[i + 1]), st.index[i].key);
    } else {
      After(Last(st.blocks[i]), st.index[i].key);
    }
  }

  lemma Between(start: Bytes, limit: Bytes, r: Bytes)
    requires InternalSeparator(start, limit, r) && ByInternalKey(start, limit)
    ensures !ByInternalKey(r, start) && ByInternalKey(r, limit)
  {
    SeparatorBetween(start, limit, r);
  }

  lemma After(key: Bytes, r: Bytes)
    requires InternalSuccessor(key, r)
    ensures !ByInternalKey(r, key)
  {
    SuccessorAfter(key, r);
  }

  /** The pairs of one block are in order because all pairs are. */
  lemma BlockOrdered(blocks: seq<Layout>, i: nat)
    requires i < |blocks| && Ordered(AllPairs(blocks))
    ensures Ordered(blocks[i].kvs)
  {
    hide ByInternalKey, AllPairs;
    StartOf(blocks, i);
    var all, s, kvs := AllPairs(blocks), Start(blocks, i), blocks[i].kvs;
    forall a, b | 0 <= a < b < |kvs|
      ensures ByInternalKey(kvs[a].key, kvs[b].key)
    {
      PairAt(blocks, i, a);
      PairAt(blocks, i, b);
    }
    forall a | 0 <= a < |kvs|
      ensures |kvs[a].key| >= 8
    {
      PairAt(blocks, i, a);
    }
  }

  lemma BlocksInOrder(blocks: seq<Layout>, i: nat)
    requires i + 1 < |blocks| && Ordered(AllPairs(blocks)) && blocks[i].kvs != [] && blocks[i + 1].kvs != []
    ensures ByInternalKey(Last(blocks[i]), First(blocks[i + 1]))
  {
    hide ByInternalKey, AllPairs, Ordered, Start;
    StartOf(blocks, i);
    var n := |blocks[i].kvs| - 1;
    PairAt(blocks, i, n);
    PairAt(blocks, i + 1, 0);
    PairsInOrder(AllPairs(blocks), Start(blocks, i) + n, Start(blocks, i + 1) + 0);
  }

  lemma PairsInOrder(kvs: seq<Pair>, i: nat, j: nat)
    requires Ordered(kvs) && i < j < |kvs|
    ensures ByInternalKey(kvs[i].key, kvs[j].key)
  {
    hide ByInternalKey;
  }

  /** The order of internal keys, for three of them. */
  lemma KeyOrder(a: Bytes, b: Bytes, c: Bytes)
    ensures !ByInternalKey(a, a)
    ensures ByInternalKey(a, b) ==> !ByInternalKey(b, a)
    ensures ByInternalKey(a, b) && ByInternalKey(b, c) ==> ByInternalKey(a, c)
    ensures ByInternalKey(a, b) && !ByInternalKey(c, b) ==> ByInternalKey(a, c)
    ensures !ByInternalKey(b, a) && ByInternalKey(b, c) ==> ByInternalKey(a, c)
    ensures !ByInternalKey(a, b) && !ByInternalKey(b, c) ==> !ByInternalKey(a, c)
  {
    BytewiseIsOrder();
    InternalIsOrder(Bytewise);
    hide Internal;
    OrderOf(ByInternalKey, a, b, c);
  }

  /** Index keys are in order, so that the index can be searched. */
  lemma IndexSorted(step: CrcStep, st: State)
    requires Complete(step, st)
    ensures SortedPairs(ByInternalKey, st.index)
  {
    hide ByInternalKey, StateOk;
    forall i, j | 0 <= i < j < |st.index|
      ensures ByInternalKey(st.index[i].key, st.index[j].key)
    {
      IndexBefore(step, st, i, j);
    }
  }

  lemma {:induction false} IndexBefore(step: CrcStep, st: State, i: nat, j: nat)
    requires Complete(step, st) && i < j < |st.index|
    ensures ByInternalKey(st.index[i].key, st.index[j].key)
    decreases j
  {
    hide ByInternalKey, StateOk, InternalSeparator, StoredBlock;
    BlockFacts(step, st, j - 1);
    BlockFacts(step, st, j);
    FirstToLast(st.blocks[j].kvs);
    KeyOrder(st.index[j - 1].key, First(st.blocks[j]), Last(st.blocks[j]));
    KeyOrder(st.index[j - 1].key, Last(st.blocks[j]), st.index[j].key);
    if i < j - 1 {
      IndexBefore(step, st, i, j - 1);
      KeyOrder(st.index[i].key, st.index[j - 1].key, st.index[j].key);
    }
  }

  lemma FirstToLast(kvs: seq<Pair>)
    requires Ordered(kvs) && kvs != []
    ensures !ByInternalKey(kvs[|kvs| - 1].key, kvs[0].key)
  {
    hide ByInternalKey;
    KeyOrder(kvs[0].key, kvs[|kvs| - 1].key, kvs[0].key);
  }

  // ---------------------------------------------------------------- seeking in two steps

  /** Seeking in the index, then in that block, is seeking among all pairs.  When the block
      has nothing at or after the target, the pair found, which is the first of the next
      block, has another user key. */
  lemma SeekInTable(step: CrcStep, st: State, target: Bytes, b: nat, p: nat)
    requires Complete(step, st) && IsSeek(ByInternalKey, st.index, target, b)
    requires b < |st.blocks| ==> IsSeek(ByInternalKey, st.blocks[b].kvs, target, p)
    ensures b == |st.blocks| ==> IsSeek(ByInternalKey, AllPairs(st.blocks), target, |AllPairs(st.blocks)|)
    ensures b < |st.blocks| ==> IsSeek(ByInternalKey, AllPairs(st.blocks), target, Start(st.blocks, b) + p)
    ensures b < |st.blocks| && p == |st.blocks[b].kvs| ==> Start(st.blocks, b) + p == Start(st.blocks, b + 1)
    ensures b < |st.blocks| && p == |st.blocks[b].kvs| && Start(st.blocks, b + 1) < |AllPairs(st.blocks)| ==>
              UserOf(AllPairs(st.blocks)[Start(st.blocks, b + 1)].key) != UserOf(target)
  {
    hide ByInternalKey, StateOk, InternalSeparator, StoredBlock, AllPairs;
    var all, s := AllPairs(st.blocks), Start(st.blocks, b);
    StartEnd(st.blocks);
    EarlierBlocks(step, st, target, b);
    if b < |st.blocks| {
      BlockFacts(step, st, b);
      StartOf(st.blocks, b);
      var kvs := st.blocks[b].kvs;
      forall i | 0 <= i < s + p
        ensures ByInternalKey(all[i].key, target)
      {
        if i >= s {
          PairAt(st.blocks, b, i - s);
        }
      }
      if p < |kvs| {
        PairAt(st.blocks, b, p);
      } else if b + 1 < |st.blocks| {
        NextBlock(step, st, target, b);
      }
    }
  }

  /** Everything in the blocks before is before the target. */
  lemma EarlierBlocks(step: CrcStep, st: State, target: Bytes, b: nat)
    requires Complete(step, st) && IsSeek(ByInternalKey, st.index, target, b)
    ensures b <= |st.blocks| && Start(st.blocks, b) <= |AllPairs(st.blocks)|
    ensures forall i :: 0 <= i < Start(st.blocks, b) ==> ByInternalKey(AllPairs(st.blocks)[i].key, target)
  {
    hide ByInternalKey, InternalSeparator, StoredBlock, AllPairs, BlocksOk, IndexOk;
    StartEnd(st.blocks);
    if b > 0 {
      BlockFacts(step, st, b - 1);
      StartOf(st.blocks, b - 1);
      var all, last := AllPairs(st.blocks), Start(st.blocks, b) - 1;
      var n := |st.blocks[b - 1].kvs| - 1;
      PairAt(st.blocks, b - 1, n);
      KeyOrder(all[last].key, st.index[b - 1].key, target);
      assert Entries(st) == all + [] == all;
      forall i | 0 <= i < Start(st.blocks, b)
        ensures ByInternalKey(all[i].key, target)
      {
        KeyOrder(all[i].key, all[last].key, target);
      }
    }
  }

  /** If all of block `b` is before a target that the index leads there, the next block
      begins after the target, at another user key. */
  lemma NextBlock(step: CrcStep, st: State, target: Bytes, b: nat)
    requires Complete(step, st) && b + 1 < |st.blocks| && !ByInternalKey(st.index[b].key, target)
    requires st.blocks[b].kvs != [] && ByInternalKey(Last(st.blocks[b]), target)
    ensures Start(st.blocks, b + 1) < |AllPairs(st.blocks)|
    ensures !ByInternalKey(AllPairs(st.blocks)[Start(st.blocks, b + 1)].key, target)
    ensures UserOf(AllPairs(st.blocks)[Start(st.blocks, b + 1)].key) != UserOf(target)
  {
    hide StateOk, StoredBlock, AllPairs, UserOf, TagOf, Lex;
    BlockFacts(step, st, b);
    StartOf(st.blocks, b + 1);
    var first, key := First(st.blocks[b + 1]), st.index[b].key;
    PairAt(st.blocks, b + 1, 0);
    KeyOrder(first, target, key);
    KeyOrder(key, first, target);
    KeyOrder(target, key, first);
  }

  // ---------------------------------------------------------------- tables

  class Table {
    const policy: Option<Policy>
    const step: CrcStep
    const file: Bytes
    // The index block, with where its restarts begin and how many there are.
    const index: Bytes
    const restarts: nat
    const numRestarts: nat
    var filter: FilterBlockReader?
    ghost const t: TableFile

    ghost predicate Valid()
      reads this
    {
      && IsTable(policy, step, file, t)
      && index == Contents(t.index) && Opened(index) == Some((restarts, numRestarts))
      && (filter != null ==> t.filter.Some? && filter.hash == policy.value.hash && filter.Reads(t.filter.value.contents))
    }

    /** All pairs of the table. */
    ghost function Pairs(): seq<Pair> {
      AllPairs(t.st.blocks)
    }

    /** Table::Open on a finished table: the footer leads to the index. */
    constructor (policy: Option<Policy>, step: CrcStep, file: Bytes, ghost t: TableFile)
      requires IsTable(policy, step, file, t)
      ensures Valid() && this.policy == policy && this.step == step && this.file == file && this.t == t
      ensures policy.Some? <==> filter != null
    {
      hide StateOk, Fits, Contents, Opened, HandleBytes, IsFilterBlock, BlocksCovered, DecodeFooter;
      FooterReads(policy, step, file, t);
      var footer := DecodeFooter(file[|file| - kEncodedLength..]);
      var (metaHandle, indexHandle) := footer.value;
      HandlesSmall(step, file, indexHandle, Contents(t.index));
      var contents := ReadBlock(step, file, indexHandle);
      assert BlockAt(step, file, indexHandle, Contents(t.index));
      ContentsOpened(t.index);
      var ends := OpenBlock(contents.value);
      this.policy, this.step, this.file, this.t := policy, step, file, t;
      index, restarts, numRestarts := contents.value, ends.value.0, ends.value.1;
      filter := null;
      new;
      ReadMeta(metaHandle);
    }

    /** Table::ReadMeta: the metaindex leads to the filters. */
    method ReadMeta(metaHandle: BlockHandle)
      requires Valid() && filter == null && metaHandle == t.metaHandle
      modifies this`filter
      ensures Valid() && (policy.Some? <==> filter != null)
    {
      hide StateOk, Fits, Contents, Opened, HandleBytes, IsFilterBlock, BlocksCovered, DecodeHandle, Lex;
      if policy.None? {
        return;
      }
      var iter := OpenStored(step, file, metaHandle, Bytewise, t.meta);
      BytewiseIsOrder();
      iter.Seek(FILTER_KEY);
      OnlyPair(t.meta.kvs, iter.pos);
      IterValid(iter);
      if iter.Valid() {
        var key, value := iter.KeyAndValue();
        if key == FILTER_KEY {
          ReadFilter(value);
        }
      }
    }

    /** Table::ReadFilter. */
    method ReadFilter(filterHandleValue: Bytes)
      requires Valid() && t.filter.Some? && filterHandleValue == HandleBytes(t.filter.value.handle)
      modifies this`filter
      ensures Valid() && filter != null
    {
      hide StateOk, Fits, Contents, Opened, IsFilterBlock, BlocksCovered, HandleBytes, DecodeHandle, FilterBlockReader.Reads;
      ghost var f := t.filter.value;
      HandlesSmall(step, file, f.handle, f.contents);
      HandleRoundTrip(f.handle, []);
      assert HandleBytes(f.handle) + [] == filterHandleValue;
      var handle := DecodeHandleFrom(filterHandleValue);
      var block := ReadBlock(step, file, handle.value.0);
      assert BlockAt(step, file, f.handle, f.contents);
      filter := new FilterBlockReader(policy.value.hash, block.value);
    }

    /** Table::BlockReader: from an index value to an iterator over that block. */
    method BlockReader(indexValue: Bytes, ghost i: nat) returns (iter: Iter)
      requires Valid() && i < |t.st.blocks| && indexValue == t.st.index[i].value
      ensures fresh(iter) && iter.Inv() && iter.layout == t.st.blocks[i] && iter.lt == ByInternalKey
    {
      hide Fits, Contents, HandleBytes, DecodeHandle, StateOk, ByInternalKey, EndsInFooter, FilterStored, BlockAt;
      BlockCount(step, t.st);
      BlockFacts(step, t.st, i);
      ghost var h, l := t.st.handles[i], t.st.blocks[i];
      HandlesSmall(step, file, h, Contents(l));
      HandleRoundTrip(h, []);
      assert HandleBytes(h) + [] == indexValue;
      // Extra bytes after the handle are allowed.
      var handle := DecodeHandleFrom(indexValue);
      iter := OpenStored(step, file, handle.value.0, ByInternalKey, l);
    }

    /** The block of an index entry, behind its filter. */
    method LookInBlock(handleValue: Bytes, k: Bytes, ghost b: nat, ghost q: nat) returns (r: Option<Pair>)
      requires Valid() && b < |t.st.blocks| && handleValue == t.st.index[b].value
      requires IsSeek(ByInternalKey, t.st.blocks[b].kvs, k, q)
      ensures r.Some? ==> q < |t.st.blocks[b].kvs| && r.value == t.st.blocks[b].kvs[q]
      ensures r.None? ==> q < |t.st.blocks[b].kvs| ==> UserOf(t.st.blocks[b].kvs[q].key) != UserOf(k)
    {
      hide StateOk, Fits, Contents, Opened, IsFilterBlock, BlocksCovered, ByInternalKey, EndsInFooter, IsSeek,
        HandleBytes, DecodeHandle, BlockAt, UserOf, Ordered;
      BlockCount(step, t.st);
      BlockFacts(step, t.st, b);
      ghost var h := t.st.handles[b];
      HandlesSmall(step, file, h, Contents(t.st.blocks[b]));
      HandleRoundTrip(h, []);
      assert HandleBytes(h) + [] == handleValue;
      SeekBound(t.st.blocks[b].kvs, k, q);
      if filter != null {
        var handle := DecodeHandleFrom(handleValue);
        var mayMatch := filter.KeyMayMatch(handle.value.0.offset, k, t.filter.value.contents);
        if !mayMatch {
          BlockCount(step, t.st);
          DeniedByFilter(policy.value, t, b, k);
          return None;
        }
      }
      OrderHolds();
      var blockIter := BlockReader(handleValue, b);
      SortedBlock(t.st.blocks[b].kvs);
      blockIter.Seek(k);
      SeekUnique(t.st.blocks[b].kvs, k, q, blockIter.pos);
      IterValid(blockIter);
      if blockIter.Valid() {
        var key, value := blockIter.KeyAndValue();
        return Some(Pair(key, value));
      }
      return None;
    }

    /** Table::InternalGet.  Where the target would stand among all pairs is the pair it
        hands over, if that pair has the user key of the target; it hands over no other. */
    method InternalGet(k: Bytes, ghost p: nat) returns (r: Option<Pair>)
      requires Valid() && IsSeek(ByInternalKey, Pairs(), k, p)
      ensures r.Some? ==> p < |Pairs()| && r.value == Pairs()[p]
      ensures p < |Pairs()| && UserOf(Pairs()[p].key) == UserOf(k) ==> r == Some(Pairs()[p])
    {
      hide StateOk, ByInternalKey, AllPairs, IsSeek, UserOf, Ordered, StoredBlock;
      ghost var b;
      var handleValue;
      handleValue, b := FindBlock(k);
      TableComplete(policy, step, file, t);
      hide IsTable;
      ghost var q := if b < |t.st.blocks| then TheSeek(t.st.blocks[b].kvs, k) else 0;
      Found(step, t.st, k, b, q, p);
      if handleValue.None? {
        return None;
      }
      r := LookInBlock(handleValue.value, k, b, q);
    }

    /** The search of the index. */
    method FindBlock(k: Bytes) returns (handleValue: Option<Bytes>, ghost b: nat)
      requires Valid()
      ensures IsSeek(ByInternalKey, t.st.index, k, b) && (handleValue.Some? <==> b < |t.st.blocks|)
      ensures handleValue.Some? ==> b < |t.st.index| && handleValue.value == t.st.index[b].value
    {
      hide StateOk, Fits, Contents, IsFilterBlock, BlocksCovered, ByInternalKey, EndsInFooter, FilterStored, IsSeek, BlockAt, SortedPairs;
      IndexSorted(step, t.st);
      OrderHolds();
      var iiter := new Iter(ByInternalKey, index, restarts, numRestarts, t.index);
      iiter.Seek(k);
      b := iiter.pos;
      IterValid(iiter);
      SeekBound(t.st.index, k, b);
      handleValue := None;
      if iiter.Valid() {
        var key, value := iiter.KeyAndValue();
        handleValue := Some(value);
      }
    }
  }

  /** What the seeks in index and block say about the place among all pairs. */
  lemma Found(step: CrcStep, st: State, k: Bytes, b: nat, q: nat, p: nat)
    requires Complete(step, st) && IsSeek(ByInternalKey, st.index, k, b) && IsSeek(ByInternalKey, AllPairs(st.blocks), k, p)
    requires b < |st.blocks| ==> q == TheSeek(st.blocks[b].kvs, k)
    ensures p <= |AllPairs(st.blocks)| && (b >= |st.blocks| ==> p == |AllPairs(st.blocks)|)
    ensures b < |st.blocks| ==> IsSeek(ByInternalKey, st.blocks[b].kvs, k, q) && q <= |st.blocks[b].kvs|
    ensures b < |st.blocks| && q < |st.blocks[b].kvs| ==> p < |AllPairs(st.blocks)| && AllPairs(st.blocks)[p] == st.blocks[b].kvs[q]
    ensures b < |st.blocks| && q == |st.blocks[b].kvs| && p < |AllPairs(st.blocks)| ==> UserOf(AllPairs(st.blocks)[p].key) != UserOf(k)
  {
    hide StateOk, ByInternalKey, AllPairs, IsSeek, UserOf, Ordered, TheSeek;
    SeekBound(AllPairs(st.blocks), k, p);
    SeekBound(st.index, k, b);
    if b >= |st.blocks| {
      SeekInTable(step, st, k, b, 0);
      SeekUnique(AllPairs(st.blocks), k, p, |AllPairs(st.blocks)|);
    } else {
      BlockOrderedAt(step, st, b);
      TheSeekIs(st.blocks[b].kvs, k);
      SeekInTable(step, st, k, b, q);
      SeekUnique(AllPairs(st.blocks), k, p, Start(st.blocks, b) + q);
      if q < |st.blocks[b].kvs| {
        PairAt(st.blocks, b, q);
      }
    }
  }

  lemma TableComplete(policy: Option<Policy>, step: CrcStep, file: Bytes, t: TableFile)
    requires IsTable(policy, step, file, t)
    ensures Complete(step, t.st)
  {
    hide StateOk;
  }

  lemma BlockOrderedAt(step: CrcStep, st: State, i: nat)
    requires Complete(step, st) && i < |st.blocks|
    ensures Ordered(st.blocks[i].kvs)
  {
    hide StateOk, Ordered;
    BlockCount(step, st);
    BlockFacts(step, st, i);
  }

  lemma SeekBound(kvs: seq<Pair>, k: Bytes, p: nat)
    requires IsSeek(ByInternalKey, kvs, k, p)
    ensures p <= |kvs|
  {
  }

  lemma SortedBlock(kvs: seq<Pair>)
    requires Ordered(kvs)
    ensures SortedPairs(ByInternalKey, kvs)
  {
  }

  lemma BlockCount(step: CrcStep, st: State)
    requires StateOk(step, st)
    ensures |st.blocks| == |st.handles|
  {
  }

  /** An iterator over a block that is in the file. */
  method OpenStored(step: CrcStep, file: Bytes, h: BlockHandle, lt: Less, ghost l: Layout) returns (iter: Iter)
    requires Fits(l) && BlockAt(step, file, h, Contents(l))
    ensures fresh(iter) && iter.Inv() && iter.layout == l && iter.lt == lt
  {
    hide Fits, Contents, Opened, BlockAt;
    HandlesSmall(step, file, h, Contents(l));
    var contents := ReadBlock(step, file, h);
    assert BlockAt(step, file, h, Contents(l));
    ContentsOpened(l);
    var ends := OpenBlock(contents.value);
    iter := new Iter(lt, contents.value, ends.value.0, ends.value.1, l);
  }

  lemma FooterReads(policy: Option<Policy>, step: CrcStep, file: Bytes, t: TableFile)
    requires IsTable(policy, step, file, t)
    ensures |file| >= kEncodedLength && DecodeFooter(file[|file| - kEncodedLength..]) == Some((t.metaHandle, t.indexHandle))
  {
    hide StateOk, Fits, Contents, FooterBytes, DecodeFooter, HandleBytes;
    HandlesSmall(step, file, t.indexHandle, Contents(t.index));
    HandlesSmall(step, file, t.metaHandle, Contents(t.meta));
    FooterRoundTrip(t.metaHandle, t.indexHandle);
  }

  lemma OrderHolds()
    ensures Order(ByInternalKey)
  {
    BytewiseIsOrder();
    InternalIsOrder(Bytewise);
  }

  lemma IterValid(iter: Iter)
    requires iter.Inv()
    ensures iter.Valid() <==> iter.pos < |iter.layout.kvs|
  {
  }

  /** The metaindex has nothing but the filter's entry. */
  lemma OnlyPair(kvs: seq<Pair>, p: nat)
    requires |kvs| == 1 && IsSeek(Bytewise, kvs, kvs[0].key, p)
    ensures p == 0
  {
    BytewiseIsOrder();
  }

  lemma SeekUnique(kvs: seq<Pair>, k: Bytes, p: nat, q: nat)
    requires IsSeek(ByInternalKey, kvs, k, p) && IsSeek(ByInternalKey, kvs, k, q)
    ensures p == q
  {
    hide ByInternalKey;
  }

  ghost function TheSeek(kvs: seq<Pair>, k: Bytes): nat {
    if kvs == [] || !ByInternalKey(kvs[0].key, k) then 0 else 1 + TheSeek(kvs[1..], k)
  }

  lemma {:induction false} TheSeekIs(kvs: seq<Pair>, k: Bytes)
    ensures IsSeek(ByInternalKey, kvs, k, TheSeek(kvs, k)) && TheSeek(kvs, k) <= |kvs|
    decreases |kvs|
  {
    hide ByInternalKey;
    if kvs != [] && ByInternalKey(kvs[0].key, k) {
      TheSeekIs(kvs[1..], k);
      var p := TheSeek(kvs, k);
      forall i | 0 <= i < p
        ensures ByInternalKey(kvs[i].key, k)
      {
        if i > 0 {
          assert kvs[1..][i - 1] == kvs[i];
        }
      }
    }
  }

  /** If the filter of block `b` denies the target, no pair of the block has its user key. */
  lemma DeniedByFilter(policy: Policy, t: TableFile, b: nat, k: Bytes)
    requires t.filter.Some? && b < |t.st.blocks| == |t.st.handles|
    requires IsFilterBlock(policy.hash, policy.bitsPerKey, t.filter.value.filters, t.filter.value.contents)
    requires BlocksCovered(t.filter.value.filters, [], t.st)
    requires !Says(policy.hash, t.filter.value.contents, t.st.handles[b].offset, k)
    ensures forall j :: 0 <= j < |t.st.blocks[b].kvs| ==> UserOf(t.st.blocks[b].kvs[j].key) != UserOf(k)
  {
    hide IsFilterBlock, Says, UserOf;
    var f, h, kvs := t.filter.value, t.st.handles[b], t.st.blocks[b].kvs;
    assert BlockCovered(f.filters, [], h, kvs);
    forall j | 0 <= j < |kvs|
      ensures UserOf(kvs[j].key) != UserOf(k)
    {
      var i := h.offset / FilterBlock.kFilterBase;
      assert Covered(f.filters, [], h.offset, kvs[j].key);
      var x :| 0 <= x < |f.filters[i]| && f.filters[i][x] == kvs[j].key;
      assert UsersOf(f.filters[i])[x] == UserOf(kvs[j].key);
      FilterBlockReads(policy.hash, policy.bitsPerKey, f.filters, f.contents, h.offset, k);
    }
  }
}
