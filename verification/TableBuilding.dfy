/** table_builder.cc: pairs go into blocks of the file, with an index and filters. */
module TableBuilding {
  import opened DbFormat
  import opened Coding
  import opened Block
  import opened Comparators
  import opened Bloom
  import opened FilterBlock
  import opened TableFormat
  import opened TableState

  // ---------------------------------------------------------------- filters

  /** The key is in the list of the filter for block offset `off`, made or being collected. */
  ghost predicate Covered(filters: seq<seq<Bytes>>, pending: seq<Bytes>, off: nat, key: Bytes) {
    var i := off / kFilterBase;
    (i < |filters| && key in filters[i]) || (i == |filters| && key in pending)
  }

  lemma CoveredStays(filters: seq<seq<Bytes>>, pending: seq<Bytes>, filters': seq<seq<Bytes>>, pending': seq<Bytes>, off: nat, key: Bytes)
    requires Grown(filters, pending, filters', pending') && Covered(filters, pending, off, key)
    ensures Covered(filters', pending', off, key)
  {
  }

  ghost predicate BlockCovered(filters: seq<seq<Bytes>>, pending: seq<Bytes>, h: BlockHandle, kvs: seq<Pair>) {
    forall j :: 0 <= j < |kvs| ==> Covered(filters, pending, h.offset, kvs[j].key)
  }

  ghost predicate BlocksCovered(filters: seq<seq<Bytes>>, pending: seq<Bytes>, st: State) {
    |st.handles| == |st.blocks| && forall i :: 0 <= i < |st.blocks| ==> BlockCovered(filters, pending, st.handles[i], st.blocks[i].kvs)
  }

  ghost predicate FiltersOk(filters: seq<seq<Bytes>>, pending: seq<Bytes>, st: State) {
    && BlocksCovered(filters, pending, st) && |filters| == |st.file| / kFilterBase
    && forall j :: 0 <= j < |st.tail| ==> st.tail[j].key in pending
  }

  lemma BlocksStayCovered(filters: seq<seq<Bytes>>, pending: seq<Bytes>, filters': seq<seq<Bytes>>, pending': seq<Bytes>, st: State)
    requires Grown(filters, pending, filters', pending') && BlocksCovered(filters, pending, st)
    ensures BlocksCovered(filters', pending', st)
  {
    forall i | 0 <= i < |st.blocks|
      ensures BlockCovered(filters', pending', st.handles[i], st.blocks[i].kvs)
    {
      assert BlockCovered(filters, pending, st.handles[i], st.blocks[i].kvs);
      forall j | 0 <= j < |st.blocks[i].kvs|
        ensures Covered(filters', pending', st.handles[i].offset, st.blocks[i].kvs[j].key)
      {
        CoveredStays(filters, pending, filters', pending', st.handles[i].offset, st.blocks[i].kvs[j].key);
      }
    }
  }

  lemma AddedCovered(filters: seq<seq<Bytes>>, pending: seq<Bytes>, st: State, p: Pair, separator: Bytes)
    requires FiltersOk(filters, pending, st)
    ensures FiltersOk(filters, pending + [p.key], WithPair(st, p, separator))
  {
    hide Covered;
    var more := pending + [p.key];
    assert Grown(filters, pending, filters, more);
    BlocksStayCovered(filters, pending, filters, more, st);
    assert more[|pending|] == p.key;
  }

  lemma NothingCovered()
    ensures FiltersOk([], [], State([], [], [], [], []))
  {
  }

  lemma FlushedCovered(filters: seq<seq<Bytes>>, pending: seq<Bytes>, filters': seq<seq<Bytes>>,
      pending': seq<Bytes>, st: State, l: Layout, file: Bytes, h: BlockHandle)
    requires FiltersOk(filters, pending, st) && l.kvs == st.tail && h.offset == |st.file|
    requires Grown(filters, pending, filters', pending') && |filters'| == |file| / kFilterBase
    ensures FiltersOk(filters', pending', Flushed(st, l, file, h))
  {
    var st' := Flushed(st, l, file, h);
    assert BlocksCovered(filters, pending, st') by {
      forall i | 0 <= i < |st'.blocks|
        ensures BlockCovered(filters, pending, st'.handles[i], st'.blocks[i].kvs)
      {
        if i < |st.blocks| {
          assert BlockCovered(filters, pending, st.handles[i], st.blocks[i].kvs);
        }
      }
    }
    BlocksStayCovered(filters, pending, filters', pending', st');
  }

  // ---------------------------------------------------------------- finished tables

  /** "filter." and the name of the policy. */
  const FILTER_KEY: Bytes :=
    [102, 105, 108, 116, 101, 114, 46, 108, 101, 118, 101, 108, 100, 98, 46,
     66, 117, 105, 108, 116, 105, 110, 66, 108, 111, 111, 109, 70, 105, 108, 116, 101, 114, 50]

  datatype Policy = Policy(hash: Hash, bitsPerKey: nat)

  datatype StoredFilter = StoredFilter(handle: BlockHandle, contents: Bytes, filters: seq<seq<Bytes>>)

  datatype TableFile = TableFile(st: State, index: Layout, indexHandle: BlockHandle, meta: Layout,
      metaHandle: BlockHandle, filter: Option<StoredFilter>)

  ghost predicate FilterStored(policy: Policy, step: CrcStep, t: TableFile, f: StoredFilter) {
    && BlockAt(step, t.st.file, f.handle, f.contents)
    && IsFilterBlock(policy.hash, policy.bitsPerKey, f.filters, f.contents)
    && BlocksCovered(f.filters, [], t.st)
  }

  /** A table file with these pairs: everything is indexed, the footer leads to the index and
      the metaindex, and the metaindex to the filters if there are any. */
  ghost predicate IsTable(policy: Option<Policy>, step: CrcStep, file: Bytes, t: TableFile) {
    && t.st.file == file && StateOk(step, t.st) && t.st.tail == [] && |t.st.index| == |t.st.blocks|
    && Fits(t.index) && t.index.kvs == t.st.index && BlockAt(step, file, t.indexHandle, Contents(t.index))
    && Fits(t.meta) && BlockAt(step, file, t.metaHandle, Contents(t.meta))
    && EndsInFooter(file, t.metaHandle, t.indexHandle)
    && (policy.None? <==> t.filter.None?)
    && match t.filter
       case None => t.meta.kvs == []
       case Some(f) => t.meta.kvs == [Pair(FILTER_KEY, HandleBytes(f.handle))] && policy.Some? && FilterStored(policy.value, step, t, f)
  }

  ghost predicate EndsInFooter(file: Bytes, meta: BlockHandle, index: BlockHandle) {
    && |file| >= kEncodedLength && |HandleBytes(meta)| + |HandleBytes(index)| <= 2 * kMaxEncodedLength
    && file[|file| - kEncodedLength..] == FooterBytes(meta, index)
  }

  // ---------------------------------------------------------------- the builder

  /** The pairs are one block more, and it has the size that a block is to have. */
  ghost predicate Filled(before: seq<Layout>, kvs: seq<Pair>, blocks: seq<Layout>, blockSize: nat) {
    exists l :: blocks == before + [l] && l.kvs == kvs && Fits(l) && |Contents(l)| >= blockSize
  }

  /** The pairs wait for more: a block of them would be smaller than that. */
  ghost predicate Waits(before: seq<Layout>, kvs: seq<Pair>, blocks: seq<Layout>, l: Layout, blockSize: nat) {
    blocks == before && l.kvs == kvs && Fits(l) && |Contents(l)| < blockSize
  }

  class TableBuilder {
    const step: CrcStep
    const policy: Option<Policy>
    const blockSize: nat
    const dataBlock: BlockBuilder
    const indexBlock: BlockBuilder
    const filterBlock: FilterBlockBuilder?
    var file: Bytes
    var offset: nat
    var lastKey: Bytes
    var numEntries: nat
    var closed: bool
    // The block just written has no index entry yet: its key waits for the next pair.
    var pendingIndexEntry: bool
    var pendingHandle: BlockHandle
    ghost var blocks: seq<Layout>
    ghost var handles: seq<BlockHandle>

    ghost function Now(): State
      reads this, dataBlock, indexBlock
    {
      State(file, blocks, handles, dataBlock.layout.kvs, indexBlock.layout.kvs)
    }

    ghost predicate Valid()
      reads this, dataBlock, indexBlock, filterBlock
    {
      && dataBlock != indexBlock
      && dataBlock.Valid() && !dataBlock.finished && indexBlock.Valid() && !indexBlock.finished && indexBlock.interval == 1
      && StateOk(step, Now()) && Indexed(Now()) && offset == |file|
      && dataBlock.CurrentSizeEstimate() <= MAX32 && indexBlock.CurrentSizeEstimate() <= MAX32
      && (pendingIndexEntry <==> blocks != [] && dataBlock.layout.kvs == [])
      && (pendingIndexEntry ==> |handles| > 0 && pendingHandle == handles[|handles| - 1])
      && LastKeyIs(Entries(Now()), lastKey) && numEntries == |Entries(Now())|
      && (policy.Some? <==> filterBlock != null)
      && (filterBlock != null ==> FilterOk())
    }

    ghost predicate FilterOk()
      requires filterBlock != null
      reads this, dataBlock, indexBlock, filterBlock
    {
      && filterBlock.Valid() && policy == Some(Policy(filterBlock.hash, filterBlock.bitsPerKey))
      && FiltersOk(filterBlock.filters, filterBlock.pending, Now())
    }

    constructor (blockSize: nat, interval: nat, policy: Option<Policy>, step: CrcStep)
      requires interval >= 1
      ensures Valid() && !closed && Entries(Now()) == [] && this.policy == policy && this.step == step
      ensures this.blockSize == blockSize && dataBlock.interval == interval
      ensures fresh(dataBlock) && fresh(indexBlock) && (filterBlock != null ==> fresh(filterBlock))
    {
      hide StateOk, Entries, Indexed, FiltersOk, BlockBuilder.Valid, FilterBlockBuilder.Valid, Grown, LayoutOk, Fits, Contents;
      this.blockSize, this.policy, this.step := blockSize, policy, step;
      dataBlock := new BlockBuilder(interval);
      indexBlock := new BlockBuilder(1);
      if policy.Some? {
        filterBlock := new FilterBlockBuilder(policy.value.hash, policy.value.bitsPerKey);
      } else {
        filterBlock := null;
      }
      file, offset, lastKey, numEntries, closed := [], 0, [], 0, false;
      pendingIndexEntry, pendingHandle := false, BlockHandle(0, 0);
      blocks, handles := [], [];
      new;
      NothingYet(step);
      NothingCovered();
      if filterBlock != null {
        StartFilters(filterBlock);
      }
    }

    /** The table has room for one pair more: blocks are at most 4 GB. */
    ghost predicate Room(key: Bytes, value: Bytes)
      reads this, dataBlock, indexBlock
    {
      && dataBlock.CurrentSizeEstimate() + |key| + |value| + 19 <= MAX32
      && indexBlock.CurrentSizeEstimate() + |lastKey| + kMaxEncodedLength + 19 <= MAX32
      && |file| + MAX32 + kBlockTrailerSize < TWO64
    }

    method WriteRawBlock(contents: Bytes) returns (h: BlockHandle)
      requires offset == |file|
      modifies this`file, this`offset
      ensures h == BlockHandle(old(|file|), |contents|) && offset == |file|
      ensures file == old(file) + contents + Trailer(step, contents)
    {
      h := BlockHandle(offset, |contents|);
      file := file + contents;
      var crc := CrcValue(step, contents);
      crc := Extend(step, crc, [kNoCompression]);
      file := file + ([kNoCompression] + EncodeFixed32(Mask(crc)));
      offset := offset + |contents| + kBlockTrailerSize;
    }

    method WriteBlock(block: BlockBuilder) returns (h: BlockHandle)
      requires block.Valid() && !block.finished && block.CurrentSizeEstimate() <= MAX32
      requires offset == |file| && |file| + MAX32 + kBlockTrailerSize < TWO64
      modifies this`file, this`offset, block
      ensures block.Valid() && !block.finished && block.layout.kvs == [] && block.CurrentSizeEstimate() == 8
      ensures h.offset == old(|file|) && offset == |file| <= old(|file|) + MAX32 + kBlockTrailerSize && Fits(old(block.layout))
      ensures file == old(file) + Contents(old(block.layout)) + Trailer(step, Contents(old(block.layout)))
      ensures BlockAt(step, file, h, Contents(old(block.layout)))
    {
      hide Fits, Contents, Trailer, BlockBuilder.Valid;
      block.Estimate();
      var raw := block.Finish();
      h := WriteRawBlock(raw);
      WrittenAt(step, old(file), raw);
      block.Reset();
    }

    method Flush()
      requires Valid() && |file| + MAX32 + kBlockTrailerSize < TWO64
      modifies this, dataBlock, filterBlock
      ensures Valid() && Entries(Now()) == old(Entries(Now())) && dataBlock.layout.kvs == []
      ensures blocks == old(blocks) + if old(dataBlock.layout.kvs) == [] then [] else [old(dataBlock.layout)]
      ensures closed == old(closed) && lastKey == old(lastKey) && indexBlock.layout == old(indexBlock.layout)
      ensures |file| <= old(|file|) + MAX32 + kBlockTrailerSize
      ensures filterBlock != null ==> filterBlock.FinalSize() == old(filterBlock.FinalSize())
    {
      hide StateOk, Entries, Indexed, FiltersOk, BlockBuilder.Valid, FilterBlockBuilder.Valid, Grown, Fits, Contents, BlockAt, Trailer;
      dataBlock.Estimate();
      if dataBlock.Empty() {
        return;
      }
      ghost var st, l := Now(), dataBlock.layout;
      pendingHandle := WriteBlock(dataBlock);
      blocks, handles := blocks + [l], handles + [pendingHandle];
      pendingIndexEntry := true;
      FlushStep(step, st, l, file, pendingHandle);
      assert Now() == Flushed(st, l, file, pendingHandle);
      if filterBlock != null {
        ghost var filters, pending := filterBlock.filters, filterBlock.pending;
        FilterCount(filters, pending, st, |file|);
        filterBlock.StartBlock(offset);
        FlushedCovered(filters, pending, filterBlock.filters, filterBlock.pending, st, l, file, pendingHandle);
      }
    }

    /** The index entry of the block just written, now that the next key is known. */
    method AddIndexEntry(key: Bytes) returns (ghost separator: Bytes)
      requires indexBlock.Valid() && !indexBlock.finished && |key| >= 8 && |lastKey| >= 8
      requires pendingHandle.offset < TWO64 && pendingHandle.size < TWO64
      requires indexBlock.CurrentSizeEstimate() + |lastKey| + kMaxEncodedLength + 19 <= MAX32
      modifies this`lastKey, this`pendingIndexEntry, indexBlock
      ensures InternalSeparator(old(lastKey), key, separator) && !pendingIndexEntry
      ensures indexBlock.Valid() && !indexBlock.finished && indexBlock.CurrentSizeEstimate() <= MAX32
      ensures indexBlock.layout.kvs == old(indexBlock.layout.kvs) + [Pair(separator, HandleBytes(pendingHandle))]
    {
      hide BlockBuilder.Valid, HandleBytes, InternalSeparator;
      lastKey := FindInternalSeparator(lastKey, key);
      separator := lastKey;
      HandleSize(pendingHandle);
      var handleEncoding := EncodeHandle(pendingHandle);
      indexBlock.Add(lastKey, handleEncoding);
      pendingIndexEntry := false;
    }

    method Add(key: Bytes, value: Bytes)
      requires Valid() && !closed && |key| >= 8 && Room(key, value)
      requires numEntries > 0 ==> ByInternalKey(lastKey, key)
      modifies this, dataBlock, indexBlock, filterBlock
      ensures Valid() && !closed && Entries(Now()) == old(Entries(Now())) + [Pair(key, value)]
      ensures if dataBlock.layout.kvs == [] then Filled(old(blocks), old(dataBlock.layout.kvs) + [Pair(key, value)], blocks, blockSize)
              else Waits(old(blocks), old(dataBlock.layout.kvs) + [Pair(key, value)], blocks, dataBlock.layout, blockSize)
    {
      hide StateOk, Entries, Indexed, FiltersOk, BlockBuilder.Valid, FilterBlockBuilder.Valid, Fits, Contents,
        ByInternalKey, InternalSeparator, HandleBytes, WithPair, Internal, LayoutOk, EncodeVarint;
      ghost var st, p, separator: Bytes := Now(), Pair(key, value), [];
      StateFacts(step, st);
      if pendingIndexEntry {
        separator := AddIndexEntry(key);
      }
      WithPairOk(step, st, p, separator);
      if filterBlock != null {
        AddedCovered(filterBlock.filters, filterBlock.pending, st, p, separator);
        filterBlock.AddKey(key);
      }
      lastKey := key;
      numEntries := numEntries + 1;
      dataBlock.Add(key, value);
      WithPairIs(st, p, separator);
      assert Now() == WithPair(st, p, separator);
      dataBlock.Estimate();
      if dataBlock.CurrentSizeEstimate() >= blockSize {
        Flush();
      }
    }

    /** The whole file fits, with what Finish adds. */
    ghost predicate FinishRoom()
      reads this, dataBlock, indexBlock, filterBlock
    {
      && indexBlock.CurrentSizeEstimate() + |lastKey| + kMaxEncodedLength + 19 <= MAX32
      && |file| + MAX32 + kBlockTrailerSize < 0x1000_0000_0000_0000
      && (filterBlock != null ==> filterBlock.FinalSize() <= MAX32)
    }

    /** The filters, if there are any, at the end of the file. */
    method FinishFilter() returns (ghost f: Option<StoredFilter>, handle: BlockHandle)
      requires Valid() && |file| < 0x1000_0000_0000_0000 && dataBlock.layout.kvs == []
      requires filterBlock != null ==> filterBlock.FinalSize() <= MAX32
      modifies this`file, this`offset, filterBlock
      ensures offset == |file| && old(|file|) <= |file| <= 5 * old(|file|) + 2 * MAX32
      ensures old(file) <= file && StateOk(step, Now()) && Indexed(Now()) && Entries(Now()) == old(Entries(Now()))
      ensures policy.None? <==> f.None?
      ensures f.None? ==> handle == BlockHandle(0, 0)
      ensures f.Some? ==> handle == f.value.handle && policy.Some? && filterBlock != null
      ensures f.Some? ==> BlockAt(step, file, handle, f.value.contents)
      ensures f.Some? ==> IsFilterBlock(policy.value.hash, policy.value.bitsPerKey, f.value.filters, f.value.contents)
      ensures f.Some? ==> BlocksCovered(f.value.filters, [], Now())
    {
      hide StateOk, Entries, Indexed, BlockBuilder.Valid, Fits, Contents, IsFilterBlock, Trailer, BlockAt,
        BlocksCovered, FiltersOk, LastKeyIs, FilterBlockBuilder.Valid;
      f, handle := None, BlockHandle(0, 0);
      if filterBlock != null {
        ghost var st, filters, pending := Now(), filterBlock.filters, filterBlock.pending;
        var contents := filterBlock.Finish();
        AllGrown(filters, pending, filterBlock.filters, st);
        handle := WriteRawBlock(contents);
        WrittenAt(step, st.file, contents);
        Longer(step, st, contents + Trailer(step, contents), filterBlock.filters);
        assert file == st.file + (contents + Trailer(step, contents));
        f := Some(StoredFilter(handle, contents, filterBlock.filters));
      }
    }

    /** The metaindex block, which leads to the filters. */
    method FinishMeta(filter: bool, filterHandle: BlockHandle) returns (ghost meta: Layout, handle: BlockHandle)
      requires offset == |file| && |file| + MAX32 + kBlockTrailerSize < TWO64 && dataBlock.interval >= 1
      requires filterHandle.offset < TWO64 && filterHandle.size < TWO64
      modifies this`file, this`offset
      ensures offset == |file| <= old(|file|) + MAX32 + kBlockTrailerSize && old(file) <= file
      ensures Fits(meta) && BlockAt(step, file, handle, Contents(meta))
      ensures meta.kvs == if filter then [Pair(FILTER_KEY, HandleBytes(filterHandle))] else []
    {
      hide Fits, Contents, Trailer, BlockAt, BlockBuilder.Valid, HandleBytes;
      var metaBlock := new BlockBuilder(dataBlock.interval);
      HandleSize(filterHandle);
      if filter {
        var handleEncoding := EncodeHandle(filterHandle);
        metaBlock.Add(FILTER_KEY, handleEncoding);
      }
      meta := metaBlock.layout;
      handle := WriteBlock(metaBlock);
      assert old(file) <= file;
    }

    /** The last index entry, then the index block. */
    method FinishIndex(ghost st: State) returns (ghost index: Layout, handle: BlockHandle, ghost successor: Bytes)
      requires indexBlock.Valid() && !indexBlock.finished && offset == |file| && |file| + MAX32 + kBlockTrailerSize < TWO64
      requires indexBlock.CurrentSizeEstimate() + |lastKey| + kMaxEncodedLength + 19 <= MAX32
      requires StateOk(step, st) && Indexed(st) && st.tail == [] && st.index == indexBlock.layout.kvs
      requires pendingIndexEntry <==> st.blocks != []
      requires pendingIndexEntry ==> |st.handles| > 0 && pendingHandle == st.handles[|st.handles| - 1] && LastKeyIs(Entries(st), lastKey)
      modifies this`file, this`offset, this`lastKey, this`pendingIndexEntry, indexBlock
      ensures offset == |file| <= old(|file|) + MAX32 + kBlockTrailerSize && old(file) <= file
      ensures Fits(index) && BlockAt(step, file, handle, Contents(index)) && index.kvs == Completed(st, successor).index
      ensures StateOk(step, Completed(st, successor)) && |Completed(st, successor).index| == |st.blocks|
      ensures Entries(Completed(st, successor)) == Entries(st)
    {
      hide StateOk, Entries, Indexed, Fits, Contents, Trailer, BlockAt, BlockBuilder.Valid, HandleBytes, InternalSuccessor;
      StateFacts(step, st);
      successor := [];
      if pendingIndexEntry {
        lastKey := FindInternalSuccessor(lastKey);
        successor := lastKey;
        HandleSize(pendingHandle);
        var handleEncoding := EncodeHandle(pendingHandle);
        indexBlock.Add(lastKey, handleEncoding);
        pendingIndexEntry := false;
      }
      CompletedOk(step, st, successor);
      index := indexBlock.layout;
      handle := WriteBlock(indexBlock);
      assert old(file) <= file;
    }

    /** TableBuilder::Finish. */
    method Finish() returns (ghost t: TableFile)
      requires Valid() && !closed && FinishRoom()
      modifies this, dataBlock, indexBlock, filterBlock
      ensures closed && IsTable(policy, step, file, t) && AllPairs(t.st.blocks) == old(Entries(Now()))
    {
      hide StateOk, Indexed, Entries, Fits, Contents, BlockAt, BlockBuilder.Valid, HandleBytes, IsFilterBlock, BlocksCovered, FiltersOk,
        Completed, FooterBytes, IsTable, FilterStored, FilterBlockBuilder.Valid, LastKeyIs, AllPairs, LayoutOk;
      Flush();
      closed := true;
      ghost var st0 := Now();
      ghost var f;
      var filterHandle, metaHandle, indexHandle;
      f, filterHandle := FinishFilter();
      ghost var st, file1 := Now(), file;
      FilterHandleSmall(step, file, filterHandle, f);
      dataBlock.Estimate();
      ghost var meta, index, successor;
      meta, metaHandle := FinishMeta(filterBlock != null, filterHandle);
      ghost var file2 := file;
      index, indexHandle, successor := FinishIndex(st);
      ghost var file3 := file;
      HandlesSmall(step, file2, metaHandle, Contents(meta));
      HandlesSmall(step, file3, indexHandle, Contents(index));
      FooterRoundTrip(metaHandle, indexHandle);
      var footer := FooterEncoding(metaHandle, indexHandle);
      file := file + footer;
      offset := offset + |footer|;
      t := TableFile(Completed(st, successor).(file := file), index, indexHandle, meta, metaHandle, f);
      Assembled(policy, step, st, successor, file1, file2, file3, footer, t);
      NoTail(st);
    }
  }

  lemma NoTail(st: State)
    requires st.tail == []
    ensures Entries(st) == AllPairs(st.blocks)
  {
  }

  /** Footer::EncodeTo. */
  method FooterEncoding(meta: BlockHandle, index: BlockHandle) returns (r: Bytes)
    requires |HandleBytes(meta)| + |HandleBytes(index)| <= 2 * kMaxEncodedLength
    ensures r == FooterBytes(meta, index)
  {
    hide EncodeVarint, EncodeFixed32;
    var a := EncodeHandle(meta);
    var b := EncodeHandle(index);
    r := a + b;
    r := r + Zeros(2 * kMaxEncodedLength - |r|);
    r := r + EncodeFixed32(kTableMagicNumber % 0x1_0000_0000);
    r := r + EncodeFixed32(kTableMagicNumber / 0x1_0000_0000);
  }

  lemma FilterHandleSmall(step: CrcStep, file: Bytes, h: BlockHandle, f: Option<StoredFilter>)
    requires f.Some? ==> BlockAt(step, file, h, f.value.contents)
    requires f.None? ==> h == BlockHandle(0, 0)
    ensures h.offset < TWO64 && h.size < TWO64
  {
  }

  lemma HandlesSmall(step: CrcStep, file: Bytes, h: BlockHandle, c: Bytes)
    requires BlockAt(step, file, h, c)
    ensures h.offset < TWO64 && h.size < TWO64
  {
  }

  lemma StaysTo(step: CrcStep, file: Bytes, file': Bytes, h: BlockHandle, c: Bytes)
    requires BlockAt(step, file, h, c) && file <= file'
    ensures BlockAt(step, file', h, c)
  {
    assert file' == file + file'[|file|..];
    BlockStays(step, file, file'[|file|..], h, c);
  }

  /** The parts of a finished file make a table. */
  lemma Assembled(policy: Option<Policy>, step: CrcStep, st: State, successor: Bytes, file1: Bytes, file2: Bytes,
      file3: Bytes, footer: Bytes, t: TableFile)
    requires st.file == file1 <= file2 <= file3 && st.tail == [] && |footer| == kEncodedLength
    requires StateOk(step, Completed(st, successor)) && |Completed(st, successor).index| == |st.blocks|
    requires t.st == Completed(st, successor).(file := file3 + footer) && t.index.kvs == t.st.index
    requires Fits(t.index) && BlockAt(step, file3, t.indexHandle, Contents(t.index))
    requires Fits(t.meta) && BlockAt(step, file2, t.metaHandle, Contents(t.meta))
    requires |HandleBytes(t.metaHandle)| + |HandleBytes(t.indexHandle)| <= 2 * kMaxEncodedLength
    requires footer == FooterBytes(t.metaHandle, t.indexHandle)
    requires policy.None? <==> t.filter.None?
    requires t.filter.None? ==> t.meta.kvs == []
    requires t.filter.Some? ==>
               && BlockAt(step, file1, t.filter.value.handle, t.filter.value.contents) && policy.Some?
               && t.meta.kvs == [Pair(FILTER_KEY, HandleBytes(t.filter.value.handle))]
               && IsFilterBlock(policy.value.hash, policy.value.bitsPerKey, t.filter.value.filters, t.filter.value.contents)
               && BlocksCovered(t.filter.value.filters, [], st)
    ensures IsTable(policy, step, file3 + footer, t) && AllPairs(t.st.blocks) == AllPairs(st.blocks)
  {
    hide StateOk, Fits, Contents, BlockAt, HandleBytes, IsFilterBlock, FooterBytes, Covered, EncodeVarint;
    var file, all := file3 + footer, Completed(st, successor);
    assert file1 <= file && file2 <= file && file3 <= file;
    StaysTo(step, file3, file, t.indexHandle, Contents(t.index));
    StaysTo(step, file2, file, t.metaHandle, Contents(t.meta));
    assert file == all.file + file[|file1|..];
    AppendedOk(step, all, file[|file1|..]);
    assert file[|file| - kEncodedLength..] == footer;
    if t.filter.Some? {
      StaysTo(step, file1, file, t.filter.value.handle, t.filter.value.contents);
      assert BlocksCovered(t.filter.value.filters, [], t.st);
    }
  }

  /** When the list being collected has become the last filter, everything is in a filter. */
  lemma AllGrown(filters: seq<seq<Bytes>>, pending: seq<Bytes>, filters': seq<seq<Bytes>>, st: State)
    requires FiltersOk(filters, pending, st) && filters' == if pending == [] then filters else filters + [pending]
    ensures BlocksCovered(filters', [], st) && |filters'| <= |st.file| + 1
  {
    BlocksStayCovered(filters, pending, filters', [], st);
  }

  lemma Longer(step: CrcStep, st: State, more: Bytes, filters: seq<seq<Bytes>>)
    requires StateOk(step, st)
    ensures StateOk(step, st.(file := st.file + more)) && Entries(st.(file := st.file + more)) == Entries(st)
    ensures Indexed(st.(file := st.file + more)) <==> Indexed(st)
    ensures BlocksCovered(filters, [], st.(file := st.file + more)) <==> BlocksCovered(filters, [], st)
  {
    hide StateOk, Covered;
    AppendedOk(step, st, more);
  }

  /** What the state says about the last block. */
  lemma StateFacts(step: CrcStep, st: State)
    requires StateOk(step, st) && Indexed(st)
    ensures |st.handles| == |st.blocks|
    ensures Entries(st) == [] <==> st.blocks == [] && st.tail == []
    ensures st.blocks != [] ==>
              && st.blocks[|st.blocks| - 1].kvs != [] && st.handles[|st.handles| - 1].offset < TWO64 && st.handles[|st.handles| - 1].size < TWO64
              && (st.tail == [] ==> Entries(st)[|Entries(st)| - 1].key == Last(st.blocks[|st.blocks| - 1]) && |Last(st.blocks[|st.blocks| - 1])| >= 8)
  {
    hide Fits, Contents, SortedPairs, IndexOk;
    if st.blocks != [] {
      var n := |st.blocks| - 1;
      assert StoredBlock(step, st.file, st.blocks[n], st.handles[n]);
      assert AllPairs(st.blocks) == AllPairs(st.blocks[..n]) + st.blocks[n].kvs;
    }
  }

  lemma HandleSize(h: BlockHandle)
    requires h.offset < TWO64 && h.size < TWO64
    ensures |HandleBytes(h)| <= kMaxEncodedLength
  {
    HandleRoundTrip(h, []);
  }

  lemma WithPairIs(st: State, p: Pair, separator: Bytes)
    requires |st.handles| == |st.blocks|
    ensures WithPair(st, p, separator) ==
            if st.tail == [] && st.blocks != [] then
              State(st.file, st.blocks, st.handles, [] + [p], st.index + [Pair(separator, HandleBytes(st.handles[|st.handles| - 1]))])
            else State(st.file, st.blocks, st.handles, st.tail + [p], st.index)
  {
  }

  lemma FlushStep(step: CrcStep, st: State, l: Layout, file: Bytes, h: BlockHandle)
    requires StateOk(step, st) && Indexed(st) && st.tail != [] && l.kvs == st.tail && Fits(l)
    requires file == st.file + Contents(l) + Trailer(step, Contents(l)) && h.offset == |st.file|
    requires BlockAt(step, file, h, Contents(l))
    ensures StateOk(step, Flushed(st, l, file, h)) && Indexed(Flushed(st, l, file, h))
    ensures Entries(Flushed(st, l, file, h)) == Entries(st)
  {
    hide Fits, Contents, Trailer, StateOk, Indexed, BlockAt;
    var more := Contents(l) + Trailer(step, Contents(l));
    assert file == st.file + more;
    FlushedOk(step, st, l, more, h);
  }

  lemma FilterCount(filters: seq<seq<Bytes>>, pending: seq<Bytes>, st: State, n: nat)
    requires FiltersOk(filters, pending, st) && n >= |st.file|
    ensures n / kFilterBase >= |filters|
  {
  }

  method StartFilters(filterBlock: FilterBlockBuilder)
    requires filterBlock.Valid() && filterBlock.filters == [] && filterBlock.pending == []
    modifies filterBlock
    ensures filterBlock.Valid() && filterBlock.filters == [] && filterBlock.pending == []
  {
    filterBlock.StartBlock(0);
  }

  lemma WrittenAt(step: CrcStep, file: Bytes, contents: Bytes)
    requires |file| + |contents| + kBlockTrailerSize < TWO64
    ensures BlockAt(step, file + contents + Trailer(step, contents), BlockHandle(|file|, |contents|), contents)
  {
    hide Trailer;
    var t := Trailer(step, contents);
    assert file + contents + t == file + (contents + t);
    assert (file + (contents + t))[|file|..|file| + |contents| + kBlockTrailerSize] == contents + t;
  }

  ghost predicate LastKeyIs(kvs: seq<Pair>, key: Bytes) {
    key == if kvs == [] then [] else kvs[|kvs| - 1].key
  }
}
