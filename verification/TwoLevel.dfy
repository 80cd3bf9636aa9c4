/** two_level_iterator.cc over a table: a cursor over all its pairs made of a cursor over the
    index and one over a block. */
module TwoLevel {
  import opened DbFormat
  import opened Block
  import opened BlockIter
  import opened TableFormat
  import opened TableState
  import opened TableBuilding
  import opened Tables

  class TwoLevelIterator {
    const table: Table
    const indexIter: Iter
    var dataIter: Iter?
    // The index value that `dataIter` was made from.
    var dataBlockHandle: Bytes
    ghost var loaded: nat

    ghost function Blocks(): seq<Layout> {
      table.t.st.blocks
    }

    ghost function Pairs(): seq<Pair> {
      AllPairs(Blocks())
    }

    /** The two cursors are over the index and over the block it was loaded from. */
    ghost predicate Loaded()
      reads this, table, indexIter, dataIter
    {
      && table.Valid() && indexIter != dataIter
      && indexIter.Inv() && indexIter.layout == table.t.index && indexIter.lt == ByInternalKey
      && (dataIter != null ==>
            && loaded < |Blocks()| == |table.t.st.index| && dataBlockHandle == table.t.st.index[loaded].value
            && dataIter.Inv() && dataIter.layout == Blocks()[loaded] && dataIter.lt == ByInternalKey)
    }

    /** Where the cursor stands: both cursors are valid, or there is no data cursor. */
    ghost predicate Inv()
      reads this, table, indexIter, dataIter
    {
      Loaded() && (dataIter != null ==> dataIter.Valid() && indexIter.pos == loaded)
    }

    /** The position among all pairs; past the end if the cursor is invalid. */
    ghost function Pos(): nat
      requires Inv()
      reads this, table, indexIter, dataIter
    {
      if dataIter == null then |Pairs()| else Start(Blocks(), loaded) + dataIter.pos
    }

    predicate Valid()
      reads this, dataIter
    {
      dataIter != null && dataIter.Valid()
    }

    constructor (table: Table)
      requires table.Valid()
      ensures Inv() && !Valid() && this.table == table && fresh(indexIter)
    {
      hide IsTable, Contents, Fits, Opened;
      IndexBlockFits(table);
      this.table := table;
      indexIter := new Iter(ByInternalKey, table.index, table.restarts, table.numRestarts, table.t.index);
      dataIter, dataBlockHandle, loaded := null, [], 0;
    }

    /** The pair the cursor stands at. */
    ghost predicate StandsAt(p: Pair)
      requires Inv()
      reads this, table, indexIter, dataIter
    {
      Pos() < |Pairs()| && p == Pairs()[Pos()]
    }

    method KeyAndValue() returns (k: Bytes, v: Bytes)
      requires Inv() && Valid()
      ensures StandsAt(Pair(k, v))
    {
      hide IsTable, AllPairs, Start, Iter.Inv, Table.Valid;
      IterValid(dataIter);
      k, v := dataIter.KeyAndValue();
      PairAt(Blocks(), loaded, dataIter.pos);
    }

    /** InitDataBlock: a block that is loaded already is not loaded again. */
    method InitDataBlock()
      requires Loaded()
      modifies this
      ensures Loaded() && (dataIter == null <==> indexIter.pos >= |Blocks()|)
      ensures dataIter != null ==> loaded == indexIter.pos
      ensures dataIter == null || dataIter == old(dataIter) || fresh(dataIter)
    {
      hide IsTable, AllPairs, Start, Iter.Inv;
      IndexCount(table);
      IterValid(indexIter);
      IndexPosition(indexIter);
      if !indexIter.Valid() {
        dataIter := null;
      } else {
        var _, handle := indexIter.KeyAndValue();
        if dataIter != null && handle == dataBlockHandle {
          // dataIter is already over this block.
          SameBlock(table, loaded, indexIter.pos);
        } else {
          loaded := indexIter.pos;
          dataIter := table.BlockReader(handle, loaded);
          dataBlockHandle := handle;
        }
      }
    }

    /** Before empty blocks are skipped going forward: where the cursor is headed. */
    ghost predicate Ahead(goal: nat)
      requires Loaded()
      reads this, table, indexIter, dataIter
    {
      if dataIter == null then indexIter.pos >= |Blocks()| && goal == |Pairs()|
      else
        && indexIter.pos == loaded
        && goal == if dataIter.pos < |Blocks()[loaded].kvs| then Start(Blocks(), loaded) + dataIter.pos else Start(Blocks(), loaded + 1)
    }

    method SkipEmptyDataBlocksForward(ghost goal: nat)
      requires Loaded() && Ahead(goal)
      modifies this, indexIter, dataIter
      ensures Inv() && Pos() == goal
      ensures dataIter == null || dataIter == old(dataIter) || fresh(dataIter)
    {
      hide IsTable, AllPairs, Start, Iter.Inv;
      IndexCount(table);
      CheckIters();
      while dataIter == null || !dataIter.Valid()
        invariant Loaded() && Ahead(goal)
        invariant dataIter != null ==> (dataIter.Valid() <==> dataIter.pos < |Blocks()[loaded].kvs|)
        invariant dataIter == null || dataIter == old(dataIter) || fresh(dataIter)
        decreases |Blocks()| - (if dataIter == null then |Blocks()| else loaded), dataIter != null
      {
        IterValid(indexIter);
        IndexPosition(indexIter);
        if !indexIter.Valid() {
          dataIter := null;
          return;
        }
        NextStart(Blocks(), loaded);
        indexIter.Next();
        InitDataBlock();
        if dataIter != null {
          dataIter.SeekToFirst();
          NonEmpty(table, loaded);
        }
        CheckIters();
      }
    }

    /** Before empty blocks are skipped going backward: nothing, if the goal is past the
        end. */
    ghost predicate Behind(goal: nat)
      requires Loaded()
      reads this, table, indexIter, dataIter
    {
      if dataIter == null then indexIter.pos >= |Blocks()| && goal == |Pairs()|
      else
        && indexIter.pos == loaded
        && goal == if dataIter.pos < |Blocks()[loaded].kvs| then Start(Blocks(), loaded) + dataIter.pos
                   else if loaded > 0 then Start(Blocks(), loaded) - 1 else |Pairs()|
    }

    method SkipEmptyDataBlocksBackward(ghost goal: nat)
      requires Loaded() && Behind(goal)
      modifies this, indexIter, dataIter
      ensures Inv() && Pos() == goal
      ensures dataIter == null || dataIter == old(dataIter) || fresh(dataIter)
    {
      hide IsTable, AllPairs, Start, Iter.Inv;
      IndexCount(table);
      CheckIters();
      while dataIter == null || !dataIter.Valid()
        invariant Loaded() && Behind(goal)
        invariant dataIter != null ==> (dataIter.Valid() <==> dataIter.pos < |Blocks()[loaded].kvs|)
        invariant dataIter == null || dataIter == old(dataIter) || fresh(dataIter)
        decreases if dataIter == null then 0 else loaded + 1, dataIter != null
      {
        IterValid(indexIter);
        IndexPosition(indexIter);
        if !indexIter.Valid() {
          dataIter := null;
          return;
        }
        if loaded > 0 {
          NextStart(Blocks(), loaded - 1);
        }
        indexIter.Prev();
        InitDataBlock();
        if dataIter != null {
          dataIter.SeekToLast();
          NonEmpty(table, loaded);
        }
        CheckIters();
      }
    }

    lemma CheckIters()
      requires Loaded()
      ensures dataIter != null ==> (dataIter.Valid() <==> dataIter.pos < |Blocks()[loaded].kvs|)
    {
      if dataIter != null {
        IterValid(dataIter);
      }
    }

    // -------------------------------------------------------------- moving

    method Next()
      requires Inv() && Valid()
      modifies this, indexIter, dataIter
      ensures Inv() && Pos() == old(Pos()) + 1
    {
      hide IsTable, AllPairs, Start, Iter.Inv;
      CheckIters();
      ghost var goal := Pos() + 1;
      NextStart(Blocks(), loaded);
      dataIter.Next();
      SkipEmptyDataBlocksForward(goal);
    }

    method Prev()
      requires Inv() && Valid()
      modifies this, indexIter, dataIter
      ensures Inv() && Pos() == if old(Pos()) == 0 then |Pairs()| else old(Pos()) - 1
    {
      hide IsTable, AllPairs, Iter.Inv;
      CheckIters();
      ghost var goal := if Pos() == 0 then |Pairs()| else Pos() - 1;
      StartPositive(table, loaded);
      dataIter.Prev();
      SkipEmptyDataBlocksBackward(goal);
    }

    method SeekToFirst()
      requires Loaded()
      modifies this, indexIter, dataIter
      ensures Inv() && Pos() == 0
    {
      hide IsTable, AllPairs, Iter.Inv;
      indexIter.SeekToFirst();
      InitDataBlock();
      StartEnd(Blocks());
      if dataIter != null {
        dataIter.SeekToFirst();
        NonEmpty(table, loaded);
      }
      SkipEmptyDataBlocksForward(0);
    }

    method SeekToLast()
      requires Loaded()
      modifies this, indexIter, dataIter
      ensures Inv() && Pos() == if |Pairs()| == 0 then 0 else |Pairs()| - 1
    {
      hide IsTable, AllPairs, Iter.Inv;
      IndexCount(table);
      indexIter.SeekToLast();
      InitDataBlock();
      StartEnd(Blocks());
      if dataIter != null {
        dataIter.SeekToLast();
        NonEmpty(table, loaded);
        NextStart(Blocks(), loaded);
      }
      SkipEmptyDataBlocksBackward(if |Pairs()| == 0 then 0 else |Pairs()| - 1);
    }

    /** Seek: to the first pair at or after the target among all pairs. */
    method Seek(target: Bytes)
      requires Loaded()
      modifies this, indexIter, dataIter
      ensures Inv() && IsSeek(ByInternalKey, Pairs(), target, Pos())
    {
      hide IsTable, AllPairs, Start, Iter.Inv, IsSeek, ByInternalKey, Ordered, Table.Valid, Complete, SortedPairs, Order;
      IndexCount(table);
      OrderHolds();
      Searchable(table);
      indexIter.Seek(target);
      ghost var b := indexIter.pos;
      InitDataBlock();
      ghost var goal := |Pairs()|;
      if dataIter != null {
        BlockOrderedAt(table.step, table.t.st, b);
        SortedBlock(Blocks()[b].kvs);
        dataIter.Seek(target);
        NextStart(Blocks(), b);
        goal := Start(Blocks(), b) + dataIter.pos;
        SeekBound(Blocks()[b].kvs, target, dataIter.pos);
      }
      SeekBound(table.t.st.index, target, b);
      SeekInTable(table.step, table.t.st, target, b, if dataIter == null then 0 else dataIter.pos);
      SkipEmptyDataBlocksForward(goal);
    }
  }

  lemma IndexBlockFits(table: Table)
    requires table.Valid()
    ensures Fits(table.t.index) && table.index == Contents(table.t.index) && Opened(table.index) == Some((table.restarts, table.numRestarts))
  {
    hide StateOk, Fits, Contents, Opened;
  }

  lemma IndexCount(table: Table)
    requires table.Valid()
    ensures |table.t.index.kvs| == |table.t.st.blocks| == |table.t.st.index| && table.t.index.kvs == table.t.st.index
  {
    hide StateOk, Fits, Contents, Opened;
  }

  lemma Searchable(table: Table)
    requires table.Valid()
    ensures Complete(table.step, table.t.st) && SortedPairs(ByInternalKey, table.t.st.index)
  {
    TableComplete(table.policy, table.step, table.file, table.t);
    IndexSorted(table.step, table.t.st);
  }

  lemma IndexPosition(iter: Iter)
    requires iter.Inv()
    ensures iter.pos <= |iter.layout.kvs|
  {
  }

  lemma NonEmpty(table: Table, i: nat)
    requires table.Valid() && i < |table.t.st.blocks|
    ensures |table.t.st.blocks[i].kvs| > 0
  {
    hide StateOk;
    TableComplete(table.policy, table.step, table.file, table.t);
    BlockCount(table.step, table.t.st);
    BlockFacts(table.step, table.t.st, i);
  }

  lemma NextStart(blocks: seq<Layout>, i: nat)
    ensures i < |blocks| ==> Start(blocks, i + 1) == Start(blocks, i) + |blocks[i].kvs| <= |AllPairs(blocks)|
    ensures i + 1 == |blocks| ==> Start(blocks, i + 1) == |AllPairs(blocks)|
  {
    if i < |blocks| {
      StartOf(blocks, i);
      StartEnd(blocks);
    }
  }

  /** Only the first block begins at the first pair. */
  lemma StartPositive(table: Table, i: nat)
    requires table.Valid() && i < |table.t.st.blocks|
    ensures i == 0 <==> Start(table.t.st.blocks, i) == 0
  {
    hide AllPairs, IsTable;
    StartEnd(table.t.st.blocks);
    if i > 0 {
      NonEmpty(table, i - 1);
      StartOf(table.t.st.blocks, i - 1);
    }
  }

  /** Blocks have different index values. */
  lemma SameBlock(table: Table, i: nat, j: nat)
    requires table.Valid() && i < |table.t.st.index| && j < |table.t.st.index| == |table.t.st.blocks|
    requires table.t.st.index[i].value == table.t.st.index[j].value
    ensures i == j
  {
    hide Fits, Contents, Opened, HandleBytes, DecodeHandle, BlockAt;
    var st := table.t.st;
    TableComplete(table.policy, table.step, table.file, table.t);
    BlockFacts(table.step, st, i);
    BlockFacts(table.step, st, j);
    HandlesSmall(table.step, st.file, st.handles[i], Contents(st.blocks[i]));
    HandlesSmall(table.step, st.file, st.handles[j], Contents(st.blocks[j]));
    HandleRoundTrip(st.handles[i], []);
    HandleRoundTrip(st.handles[j], []);
  }
}
