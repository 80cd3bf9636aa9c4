/** What a table file holds: sorted pairs in blocks, and an index with a key between each
    block and the next. */
module TableState {
  import opened DbFormat
  import opened Coding
  import opened Block
  import opened Comparators
  import opened TableFormat

  const ByInternalKey: Less := Internal(Bytewise)

  function First(l: Layout): Bytes
    requires l.kvs != []
  {
    l.kvs[0].key
  }

  function Last(l: Layout): Bytes
    requires l.kvs != []
  {
    l.kvs[|l.kvs| - 1].key
  }

  ghost function AllPairs(blocks: seq<Layout>): seq<Pair> {
    if blocks == [] then [] else AllPairs(blocks[..|blocks| - 1]) + blocks[|blocks| - 1].kvs
  }

  /** The blocks written, where they are, the pairs not yet in a block, and the index. */
  datatype State = State(file: Bytes, blocks: seq<Layout>, handles: seq<BlockHandle>, tail: seq<Pair>, index: seq<Pair>)

  ghost function Entries(st: State): seq<Pair> {
    AllPairs(st.blocks) + st.tail
  }

  ghost predicate StoredBlock(step: CrcStep, file: Bytes, l: Layout, h: BlockHandle) {
    Fits(l) && l.kvs != [] && BlockAt(step, file, h, Contents(l))
  }

  ghost predicate BlocksOk(step: CrcStep, st: State) {
    && |st.handles| == |st.blocks|
    && (forall i :: 0 <= i < |st.blocks| ==> StoredBlock(step, st.file, st.blocks[i], st.handles[i]))
    && (forall i, j :: 0 <= i < j < |st.handles| ==> st.handles[i].offset < st.handles[j].offset)
  }

  /** Keys are internal keys, in order. */
  ghost predicate Ordered(kvs: seq<Pair>) {
    SortedPairs(ByInternalKey, kvs) && forall i :: 0 <= i < |kvs| ==> |kvs[i].key| >= 8
  }

  /** The first key after block `i`, if there is one. */
  ghost function FirstAfter(st: State, i: nat): Option<Bytes>
    requires i < |st.blocks| && forall j :: 0 <= j < |st.blocks| ==> st.blocks[j].kvs != []
  {
    if i + 1 < |st.blocks| then Some(First(st.blocks[i + 1]))
    else if st.tail != [] then Some(st.tail[0].key)
    else None
  }

  /** The index entry of block `i`: its handle, under a key from its last key to before the
      next. */
  ghost predicate IndexEntry(st: State, i: nat)
    requires i < |st.index| && i < |st.blocks| == |st.handles| && forall j :: 0 <= j < |st.blocks| ==> st.blocks[j].kvs != []
  {
    && st.index[i].value == HandleBytes(st.handles[i])
    && match FirstAfter(st, i)
       case Some(next) => InternalSeparator(Last(st.blocks[i]), next, st.index[i].key)
       case None => InternalSuccessor(Last(st.blocks[i]), st.index[i].key)
  }

  ghost predicate IndexOk(st: State) {
    && |st.index| <= |st.blocks| == |st.handles| && (forall j :: 0 <= j < |st.blocks| ==> st.blocks[j].kvs != [])
    && forall i :: 0 <= i < |st.index| ==> IndexEntry(st, i)
  }

  ghost predicate StateOk(step: CrcStep, st: State) {
    BlocksOk(step, st) && IndexOk(st) && Ordered(Entries(st))
  }

  /** Every block but one just finished has its index entry. */
  ghost predicate Indexed(st: State) {
    |st.index| == if st.blocks != [] && st.tail == [] then |st.blocks| - 1 else |st.blocks|
  }

  // ---------------------------------------------------------------- steps of building

  /** A pair is added; the block before gets its index entry now that a next key is known. */
  ghost function WithPair(st: State, p: Pair, separator: Bytes): State {
    if st.tail == [] && st.blocks != [] && |st.handles| == |st.blocks| then
      st.(tail := [p], index := st.index + [Pair(separator, HandleBytes(st.handles[|st.blocks| - 1]))])
    else st.(tail := st.tail + [p])
  }

  lemma WithPairOk(step: CrcStep, st: State, p: Pair, separator: Bytes)
    requires StateOk(step, st) && Indexed(st) && |p.key| >= 8
    requires Entries(st) != [] ==> ByInternalKey(Entries(st)[|Entries(st)| - 1].key, p.key)
    requires st.tail == [] && st.blocks != [] ==> InternalSeparator(Last(st.blocks[|st.blocks| - 1]), p.key, separator)
    ensures StateOk(step, WithPair(st, p, separator)) && Indexed(WithPair(st, p, separator))
    ensures Entries(WithPair(st, p, separator)) == Entries(st) + [p]
  {
    hide BlocksOk, Ordered, IndexOk, Indexed, AllPairs, InternalSeparator, ByInternalKey, WithPair;
    var st' := WithPair(st, p, separator);
    WithPairIndexOk(st, p, separator);
    WithPairParts(st, p, separator);
    SameBlocks(step, st, st');
    assert Entries(st') == Entries(st) + [p];
    OneMoreOrdered(Entries(st), p);
  }

  lemma WithPairParts(st: State, p: Pair, separator: Bytes)
    ensures var st' := WithPair(st, p, separator);
            st'.file == st.file && st'.blocks == st.blocks && st'.handles == st.handles && st'.tail == st.tail + [p]
  {
  }

  lemma SameBlocks(step: CrcStep, st: State, st': State)
    requires BlocksOk(step, st) && st'.file == st.file && st'.blocks == st.blocks && st'.handles == st.handles
    ensures BlocksOk(step, st')
  {
  }

  lemma WithPairIndexOk(st: State, p: Pair, separator: Bytes)
    requires IndexOk(st) && Indexed(st)
    requires st.tail == [] && st.blocks != [] ==> InternalSeparator(Last(st.blocks[|st.blocks| - 1]), p.key, separator)
    ensures IndexOk(WithPair(st, p, separator)) && Indexed(WithPair(st, p, separator))
  {
    hide InternalSeparator, InternalSuccessor, HandleBytes, AllPairs;
    var st' := WithPair(st, p, separator);
    forall i | 0 <= i < |st'.index|
      ensures IndexEntry(st', i)
    {
      if i < |st.index| {
        assert IndexEntry(st, i);
      }
    }
  }

  lemma NothingYet(step: CrcStep)
    ensures var st := State([], [], [], [], []);
            StateOk(step, st) && Indexed(st) && Entries(st) == []
  {
  }

  lemma OneMoreOrdered(kvs: seq<Pair>, p: Pair)
    requires Ordered(kvs) && |p.key| >= 8 && (kvs != [] ==> ByInternalKey(kvs[|kvs| - 1].key, p.key))
    ensures Ordered(kvs + [p])
  {
    BytewiseIsOrder();
    InternalIsOrder(Bytewise);
    hide Internal;
    forall i | 0 <= i < |kvs|
      ensures ByInternalKey(kvs[i].key, p.key)
    {
      OrderOf(ByInternalKey, kvs[i].key, kvs[|kvs| - 1].key, p.key);
    }
  }

  /** The pairs collected become a block of the file. */
  ghost function Flushed(st: State, l: Layout, file: Bytes, h: BlockHandle): State {
    State(file, st.blocks + [l], st.handles + [h], [], st.index)
  }

  lemma FlushedOk(step: CrcStep, st: State, l: Layout, more: Bytes, h: BlockHandle)
    requires StateOk(step, st) && Indexed(st) && st.tail != [] && l.kvs == st.tail
    requires StoredBlock(step, st.file + more, l, h) && h.offset == |st.file|
    ensures StateOk(step, Flushed(st, l, st.file + more, h)) && Indexed(Flushed(st, l, st.file + more, h))
    ensures Entries(Flushed(st, l, st.file + more, h)) == Entries(st)
  {
    hide Fits, Contents, InternalSeparator, InternalSuccessor, Ordered;
    var st' := Flushed(st, l, st.file + more, h);
    assert st'.blocks[..|st.blocks|] == st.blocks;
    assert Entries(st') == Entries(st);
    forall i | 0 <= i < |st'.blocks|
      ensures StoredBlock(step, st'.file, st'.blocks[i], st'.handles[i])
    {
      if i < |st.blocks| {
        assert StoredBlock(step, st.file, st.blocks[i], st.handles[i]);
        BlockStays(step, st.file, more, st.handles[i], Contents(st.blocks[i]));
      }
    }
    forall i, j | 0 <= i < j < |st'.handles|
      ensures st'.handles[i].offset < st'.handles[j].offset
    {
      assert StoredBlock(step, st.file, st.blocks[i], st.handles[i]);
    }
    forall i | 0 <= i < |st'.index|
      ensures IndexEntry(st', i)
    {
      assert IndexEntry(st, i);
    }
  }

  /** The last index entry, when there is no next key. */
  ghost function Completed(st: State, successor: Bytes): State {
    if st.blocks != [] && |st.handles| == |st.blocks| then
      st.(index := st.index + [Pair(successor, HandleBytes(st.handles[|st.blocks| - 1]))])
    else st
  }

  lemma CompletedOk(step: CrcStep, st: State, successor: Bytes)
    requires StateOk(step, st) && Indexed(st) && st.tail == []
    requires st.blocks != [] ==> InternalSuccessor(Last(st.blocks[|st.blocks| - 1]), successor)
    ensures StateOk(step, Completed(st, successor)) && |Completed(st, successor).index| == |st.blocks|
    ensures Entries(Completed(st, successor)) == Entries(st)
  {
    hide Ordered, StoredBlock;
    var st' := Completed(st, successor);
    forall i | 0 <= i < |st'.index|
      ensures IndexEntry(st', i)
    {
      if i < |st.index| {
        assert IndexEntry(st, i);
      }
    }
  }

  /** More is appended to the file. */
  lemma AppendedOk(step: CrcStep, st: State, more: Bytes)
    requires StateOk(step, st)
    ensures StateOk(step, st.(file := st.file + more))
  {
    hide Fits, Contents, InternalSeparator, InternalSuccessor, Ordered;
    var st' := st.(file := st.file + more);
    assert Entries(st') == Entries(st);
    forall i | 0 <= i < |st'.blocks|
      ensures StoredBlock(step, st'.file, st'.blocks[i], st'.handles[i])
    {
      assert StoredBlock(step, st.file, st.blocks[i], st.handles[i]);
      BlockStays(step, st.file, more, st.handles[i], Contents(st.blocks[i]));
    }
    forall i | 0 <= i < |st'.index|
      ensures IndexEntry(st', i)
    {
      assert IndexEntry(st, i);
    }
  }
}
