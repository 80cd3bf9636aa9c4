/** Block::Iter: a cursor over the pairs of a block, moved by decoding entries forward from
    restart points. */
module BlockIter {
  import opened DbFormat
  import opened Coding
  import opened Block

  /** The first position whose key is not before the target. */
  ghost predicate IsSeek(lt: Less, kvs: seq<Pair>, target: Bytes, p: nat) {
    && p <= |kvs|
    && (forall i :: 0 <= i < p ==> lt(kvs[i].key, target))
    && (p < |kvs| ==> !lt(kvs[p].key, target))
  }

  /** Entry `i` is in the part of the block that restart `r` begins; the first entry of a
      part may be counted to the part before, too. */
  ghost predicate InRestart(l: Layout, r: nat, i: nat) {
    r < |l.restarts| && l.restarts[r] <= i && (r + 1 < |l.restarts| ==> i <= l.restarts[r + 1])
  }

  /** The key that was read last helps to read entry `i`. */
  ghost predicate Leads(l: Layout, key: Bytes, i: nat)
    requires |l.shared| == |l.kvs|
  {
    i < |l.kvs| ==> Shares(key, l.kvs[i].key, l.shared[i])
  }

  lemma PreviousLeads(l: Layout, i: nat)
    requires LayoutOk(l) && i < |l.kvs|
    ensures Leads(l, l.kvs[i].key, i + 1)
  {
    if i + 1 < |l.kvs| {
      assert EntryOk(l, i + 1);
    }
  }

  lemma RestartLeads(l: Layout, key: Bytes, r: nat)
    requires LayoutOk(l) && r < |l.restarts|
    ensures l.restarts[r] <= |l.kvs| && Leads(l, key, l.restarts[r])
  {
  }

  class Iter {
    const lt: Less
    const data: Bytes
    const restarts: nat
    const numRestarts: nat
    var current: nat
    var restartIndex: nat
    var key: Bytes
    // The value slice.
    var valueStart: nat
    var valueSize: nat
    ghost const layout: Layout
    ghost var pos: nat

    /** The block is one that was built from sorted pairs. */
    ghost predicate Base() {
      && Fits(layout) && data == Contents(layout) && restarts == |Data(layout)|
      && numRestarts == |layout.restarts| && |layout.shared| == |layout.kvs|
      && |data| == restarts + 4 * numRestarts + 4
    }

    predicate Valid()
      reads this`current
    {
      current < restarts
    }

    /** The iterator stands at pair `pos`, or at none. */
    ghost predicate Inv()
      reads this
    {
      && Base() && pos <= |layout.kvs|
      && if pos < |layout.kvs| then Standing() else current == restarts && restartIndex == numRestarts
    }

    ghost predicate Standing()
      requires Base() && pos < |layout.kvs|
      reads this
    {
      && current == Off(layout, pos) < restarts && InRestart(layout, restartIndex, pos)
      && key == layout.kvs[pos].key && valueStart + valueSize == Off(layout, pos + 1) <= |data|
      && data[valueStart..valueStart + valueSize] == layout.kvs[pos].value
    }

    /** The value slice ends where entry `i` begins, which ParseNextKey is to read next. */
    ghost predicate Ready(i: nat)
      requires Base()
      reads this
    {
      && i <= |layout.kvs| && valueStart + valueSize == Off(layout, i)
      && restartIndex < numRestarts && layout.restarts[restartIndex] <= i && Leads(layout, key, i)
    }

    constructor (lt: Less, data: Bytes, restarts: nat, numRestarts: nat, ghost layout: Layout)
      requires Fits(layout) && data == Contents(layout) && Opened(data) == Some((restarts, numRestarts))
      ensures Inv() && !Valid() && this.layout == layout && this.lt == lt
    {
      this.lt, this.data, this.restarts, this.numRestarts := lt, data, restarts, numRestarts;
      current, restartIndex := restarts, numRestarts;
      key, valueStart, valueSize := [], 0, 0;
      this.layout := layout;
      pos := |layout.kvs|;
      ContentsOpened(layout);
      FitsOk(layout);
    }

    /** The key and value read are those of the pair at `pos`. */
    method KeyAndValue() returns (k: Bytes, v: Bytes)
      requires Inv() && Valid()
      ensures pos < |layout.kvs| && Pair(k, v) == layout.kvs[pos]
    {
      k, v := key, data[valueStart..valueStart + valueSize];
    }

    function NextEntryOffset(): nat
      reads this
    {
      valueStart + valueSize
    }

    function GetRestartPoint(index: nat): nat
      requires index < numRestarts && |data| == restarts + 4 * numRestarts + 4
    {
      DecodeFixed32(data[restarts + index * 4..])
    }

    lemma RestartPoint(index: nat)
      requires Base() && index < numRestarts
      ensures layout.restarts[index] <= |layout.kvs| && GetRestartPoint(index) == Off(layout, layout.restarts[index])
    {
      hide DecodeFixed32, Contents, Data, LayoutOk;
      TrailerAt(layout);
      FitsOk(layout);
      RestartLeads(layout, [], index);
    }

    /** The order of restart points and entries. */
    lemma RestartOrder(index: nat, i: nat)
      requires Base() && index < numRestarts && i <= |layout.kvs|
      ensures layout.restarts[index] <= |layout.kvs|
      ensures layout.restarts[index] < i <==> GetRestartPoint(index) < Off(layout, i)
      ensures layout.restarts[index] == i <==> GetRestartPoint(index) == Off(layout, i)
    {
      hide LayoutOk, Fits, Contents, Data, DataUpTo;
      FitsOk(layout);
      RestartPoint(index);
      OffOrder(layout, layout.restarts[index], i);
    }

    method SeekToRestartPoint(index: nat)
      requires Base() && index < numRestarts
      modifies this
      ensures restartIndex == index && layout.restarts[index] <= |layout.kvs| && Ready(layout.restarts[index])
    {
      hide LayoutOk, Fits, Contents, Data, DataUpTo;
      FitsOk(layout);
      key := [];
      restartIndex := index;
      RestartPoint(index);
      var offset := GetRestartPoint(index);
      valueStart, valueSize := offset, 0;
      RestartLeads(layout, key, index);
    }

    /** The loop at the end of ParseNextKey. */
    method PassRestarts()
      requires Base() && pos < |layout.kvs| && current == Off(layout, pos)
      requires restartIndex < numRestarts && layout.restarts[restartIndex] <= pos
      modifies this`restartIndex
      ensures InRestart(layout, restartIndex, pos)
    {
      hide LayoutOk, Fits, Contents, Data, DataUpTo;
      FitsOk(layout);
      if restartIndex + 1 < numRestarts {
        RestartOrder(restartIndex + 1, pos);
      }
      while restartIndex + 1 < numRestarts && GetRestartPoint(restartIndex + 1) < current
        invariant restartIndex < numRestarts && layout.restarts[restartIndex] <= pos
        invariant restartIndex + 1 < numRestarts ==>
                    (layout.restarts[restartIndex + 1] < pos <==> GetRestartPoint(restartIndex + 1) < current)
      {
        restartIndex := restartIndex + 1;
        if restartIndex + 1 < numRestarts {
          RestartOrder(restartIndex + 1, pos);
        }
      }
    }

    method ParseNextKey(ghost i: nat) returns (ok: bool)
      requires Base() && Ready(i)
      modifies this
      ensures Inv() && pos == i && (ok <==> i < |layout.kvs|)
    {
      hide LayoutOk, Fits, Contents, Data, DataUpTo, Header, InRestart;
      FitsOk(layout);
      pos := i;
      current := NextEntryOffset();
      EndOffset(layout, i);
      if current >= restarts {
        current := restarts;
        restartIndex := numRestarts;
        return false;
      }
      EntryParts(layout, i);
      var header := DecodeEntry(data[current..restarts]);
      var (shared, nonShared, valueLength, p) := header.value;
      assert shared <= |key|;
      key := key[..shared] + p[..nonShared];
      valueStart, valueSize := restarts - |p| + nonShared, valueLength;
      PassRestarts();
      ok := true;
    }

    // -------------------------------------------------------------- moving

    method Next()
      requires Inv() && Valid()
      modifies this
      ensures Inv() && pos == old(pos) + 1
    {
      hide LayoutOk, Fits, Contents, Data, DataUpTo, Shares;
      FitsOk(layout);
      PreviousLeads(layout, pos);
      var _ := ParseNextKey(pos + 1);
    }

    /** Back to a restart point before the current entry, then forward to the entry whose
        end is the current entry's start. */
    method Prev()
      requires Inv() && Valid()
      modifies this
      ensures Inv() && pos == if old(pos) == 0 then |layout.kvs| else old(pos) - 1
    {
      hide LayoutOk, Fits, Contents, Data, DataUpTo, Standing, InRestart, Leads;
      FitsOk(layout);
      StandsAt();
      var original := current;
      ghost var target := pos;
      RestartOrder(restartIndex, target);
      while GetRestartPoint(restartIndex) >= original
        invariant restartIndex < numRestarts && layout.restarts[restartIndex] <= target
        invariant layout.restarts[restartIndex] < target <==> GetRestartPoint(restartIndex) < original
        decreases restartIndex
      {
        if restartIndex == 0 {
          FirstRestart(layout);
          current := restarts;
          restartIndex := numRestarts;
          pos := |layout.kvs|;
          return;
        }
        restartIndex := restartIndex - 1;
        BeforeRestart(layout, restartIndex + 1, target);
        RestartOrder(restartIndex, target);
      }
      SeekToRestartPoint(restartIndex);
      var ok := ParseNextKey(layout.restarts[restartIndex]);
      StandsAt();
      OffOrder(layout, pos + 1, target);
      while ok && NextEntryOffset() < original
        invariant Inv() && ok && pos < target && NextEntryOffset() == Off(layout, pos + 1)
        invariant Off(layout, pos + 1) < original <==> pos + 1 < target
        decreases target - pos
      {
        PreviousReady();
        ok := ParseNextKey(pos + 1);
        StandsAt();
        OffOrder(layout, pos + 1, target);
      }
    }

    /** A binary search for the last restart point with a key before the target, then a
        linear scan. */
    method Seek(target: Bytes)
      requires Inv() && Order(lt) && SortedPairs(lt, layout.kvs)
      modifies this
      ensures Inv() && IsSeek(lt, layout.kvs, target, pos)
    {
      hide LayoutOk, Fits, Contents, Data, DataUpTo, Standing, InRestart, Leads, Shares, Header, Order, SortedPairs, IsSeek;
      FitsOk(layout);
      var left: nat, right: nat := 0, numRestarts - 1;
      while left < right
        invariant left <= right < numRestarts
        invariant left > 0 ==> RestartBefore(left, target)
        invariant right + 1 < numRestarts ==> !RestartBefore(right + 1, target)
        decreases right - left
      {
        var mid := (left + right + 1) / 2;
        var regionOffset := GetRestartPoint(mid);
        RestartEntry(mid);
        var entry := DecodeEntry(data[regionOffset..restarts]);
        if entry.None? || entry.value.0 != 0 {
          // CorruptionError, which a block that was built never gives.
          assert false;
        }
        var midKey := entry.value.3[..entry.value.1];
        if lt(midKey, target) {
          left := mid;
        } else {
          right := mid - 1;
        }
      }
      SeekToRestartPoint(left);
      ghost var start := layout.restarts[left];
      SkippedAreBefore(left, target);
      var ok := ParseNextKey(start);
      while ok
        invariant Inv() && (ok <==> pos < |layout.kvs|)
        invariant AllBefore(lt, layout.kvs, target, pos)
        decreases |layout.kvs| - pos
      {
        StandsAt();
        KeyIs();
        if !lt(key, target) {
          SeekFound(lt, layout.kvs, target, pos);
          return;
        }
        PreviousReady();
        ok := ParseNextKey(pos + 1);
      }
      SeekFound(lt, layout.kvs, target, pos);
    }

    /** The key at a restart point is before the target. */
    ghost predicate RestartBefore(r: nat, target: Bytes)
      requires Base() && r < numRestarts
    {
      layout.restarts[r] < |layout.kvs| && lt(layout.kvs[layout.restarts[r]].key, target)
    }

    /** What the binary search decodes at a restart point other than the first. */
    lemma RestartEntry(r: nat)
      requires Base() && 0 < r < numRestarts
      ensures layout.restarts[r] < |layout.kvs| && GetRestartPoint(r) < restarts <= |data|
      ensures var header := Header(data[GetRestartPoint(r)..restarts]);
              header.Some? && header.value.0 == 0 && header.value.1 <= |header.value.3|
              && header.value.3[..header.value.1] == layout.kvs[layout.restarts[r]].key
    {
      hide Fits, Contents, Data, DataUpTo, Header;
      FitsOk(layout);
      RestartPoint(r);
      EntryParts(layout, layout.restarts[r]);
    }

    /** No entry before the restart point the search ends at is at or after the target. */
    lemma SkippedAreBefore(left: nat, target: Bytes)
      requires Base() && left < numRestarts && Order(lt) && SortedPairs(lt, layout.kvs)
      requires left > 0 ==> RestartBefore(left, target)
      ensures layout.restarts[left] <= |layout.kvs| && AllBefore(lt, layout.kvs, target, layout.restarts[left])
    {
      hide Fits, Contents, Data, DataUpTo;
      FitsOk(layout);
    }

    lemma KeyIs()
      requires Inv() && pos < |layout.kvs|
      ensures key == layout.kvs[pos].key
    {
    }

    method SeekToFirst()
      requires Inv()
      modifies this
      ensures Inv() && pos == 0
    {
      hide LayoutOk, Fits, Contents, Data, DataUpTo, Standing, InRestart, Leads;
      FitsOk(layout);
      FirstRestart(layout);
      SeekToRestartPoint(0);
      var _ := ParseNextKey(0);
    }

    method SeekToLast()
      requires Inv()
      modifies this
      ensures Inv() && pos == if |layout.kvs| == 0 then 0 else |layout.kvs| - 1
    {
      hide LayoutOk, Fits, Contents, Data, DataUpTo, Standing, InRestart, Leads;
      FitsOk(layout);
      SeekToRestartPoint(numRestarts - 1);
      LastRestart(layout);
      var ok := ParseNextKey(layout.restarts[numRestarts - 1]);
      if ok {
        StandsAt();
        EndOffset(layout, pos + 1);
      }
      while ok && NextEntryOffset() < restarts
        invariant Inv() && (ok <==> |layout.kvs| > 0) && (ok ==> pos < |layout.kvs|) && (!ok ==> pos == 0)
        invariant ok ==> (NextEntryOffset() < restarts <==> pos + 1 < |layout.kvs|)
        decreases |layout.kvs| - pos
      {
        PreviousReady();
        ok := ParseNextKey(pos + 1);
        StandsAt();
        EndOffset(layout, pos + 1);
      }
    }

    /** What standing at a pair says about the position. */
    lemma StandsAt()
      requires Inv() && pos < |layout.kvs|
      ensures current == Off(layout, pos) && NextEntryOffset() == Off(layout, pos + 1)
      ensures restartIndex < numRestarts && layout.restarts[restartIndex] <= pos && Valid()
    {
    }

    /** After reading one entry the iterator is ready to read the next. */
    lemma PreviousReady()
      requires Inv() && pos < |layout.kvs|
      ensures Ready(pos + 1)
    {
      PreviousLeads(layout, pos);
    }
  }

  lemma EndOffset(l: Layout, i: nat)
    requires Fits(l) && i <= |l.kvs|
    ensures Off(l, i) >= |Data(l)| <==> i == |l.kvs|
  {
    OffOrder(l, i, |l.kvs|);
  }

  lemma FirstRestart(l: Layout)
    requires LayoutOk(l)
    ensures l.restarts[0] == 0
  {
  }

  lemma BeforeRestart(l: Layout, r: nat, i: nat)
    requires LayoutOk(l) && 0 < r < |l.restarts| && l.restarts[r] <= i
    ensures l.restarts[r - 1] < i
  {
  }

  lemma LastRestart(l: Layout)
    requires LayoutOk(l)
    ensures var r := l.restarts[|l.restarts| - 1]; r < |l.kvs| || r == |l.kvs| == 0
  {
  }

  ghost predicate AllBefore(lt: Less, kvs: seq<Pair>, target: Bytes, n: nat)
    requires n <= |kvs|
  {
    forall i :: 0 <= i < n ==> lt(kvs[i].key, target)
  }

  lemma SeekFound(lt: Less, kvs: seq<Pair>, target: Bytes, p: nat)
    requires p <= |kvs| && AllBefore(lt, kvs, target, p) && (p < |kvs| ==> !lt(kvs[p].key, target))
    ensures IsSeek(lt, kvs, target, p)
  {
  }
}
