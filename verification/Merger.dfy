/** MergingIterator: several sorted iterators read as one, in both directions. */
module Merger {
  import opened DbFormat
  import opened Version
  import opened SortedIterator

  // ---------------------------------------------------------------- the merged list

  /** `merged` is the sorted merge of `lists`, whose keys are pairwise distinct. */
  ghost predicate IsMerge(lists: seq<seq<Entry>>, merged: seq<Entry>) {
    && Sorted(merged)
    && (forall e :: e in merged ==> exists c: nat :: c < |lists| && e in lists[c])
    && (forall c: nat :: c < |lists| ==> Part(lists[c], merged))
    && DistinctKeys(lists)
  }

  ghost predicate Part(es: seq<Entry>, merged: seq<Entry>) {
    Sorted(es) && forall e :: e in es ==> e in merged
  }

  ghost predicate DistinctKeys(lists: seq<seq<Entry>>) {
    forall c: nat, d: nat, e, f :: c < |lists| && d < |lists| && e in lists[c] && f in lists[d] && e.key == f.key ==> c == d
  }

  /** Sorted lists with pairwise distinct keys have a merge. */
  lemma MergeExists(lists: seq<seq<Entry>>)
    requires DistinctKeys(lists) && forall c: nat :: c < |lists| ==> Sorted(lists[c])
    ensures exists merged :: IsMerge(lists, merged)
  {
    var S := set c: nat, e | c < |lists| && e in lists[c] :: e;
    forall e, f | e in S && f in S && e.key == f.key
      ensures e == f
    {
      var c: nat :| c < |lists| && e in lists[c];
      var d: nat :| d < |lists| && f in lists[d];
      assert c == d;
      var i: nat :| i < |lists[c]| && lists[c][i] == e;
      var j: nat :| j < |lists[c]| && lists[c][j] == f;
      SortedOrder(lists[c], i, j);
    }
    var merged := SortedListOf(S);
    forall e
      ensures e in merged <==> e in S
    {
      assert e in Elements(merged) <==> e in S;
    }
    assert IsMerge(lists, merged);
  }

  lemma {:induction false} SortedListOf(S: set<Entry>) returns (es: seq<Entry>)
    requires Coherent(S)
    ensures Sorted(es) && Elements(es) == S
  {
    if S == {} {
      es := [];
    } else {
      var e :| e in S;
      var rest := SortedListOf(S - {e});
      forall x | x in rest
        ensures x.key != e.key
      {
        assert x in Elements(rest);
      }
      es := InsertEntry(rest, e);
      assert Elements(es) == S - {e} + {e};
    }
  }

  lemma OneOwner(lists: seq<seq<Entry>>, c: nat, d: nat, e: Entry)
    requires DistinctKeys(lists) && c < |lists| && d < |lists| && e in lists[c] && e in lists[d]
    ensures c == d
  {
  }

  /** Where a child reading forward stands when the merge stands at `n`. */
  function ForwardPos(es: seq<Entry>, merged: seq<Entry>, n: nat): (i: nat)
    requires n <= |merged|
    ensures i <= |es|
  {
    if n < |merged| then SeekIndex(es, merged[n].key) else |es|
  }

  /** Where a child reading backward stands when the first `n` merged entries are
      still ahead of it: on the last of its own entries among them. */
  function BackwardPos(es: seq<Entry>, merged: seq<Entry>, n: nat): (i: nat)
    requires n <= |merged|
    ensures i <= |es|
  {
    var i := ForwardPos(es, merged, n);
    if i == 0 then |es| else i - 1
  }

  /** Entries before the forward position are exactly those among the first `n`. */
  lemma ForwardSplits(es: seq<Entry>, merged: seq<Entry>, n: nat, x: nat, y: nat)
    requires Part(es, merged) && Sorted(merged) && n <= |merged|
    requires x < |es| && y < |merged| && es[x] == merged[y]
    ensures x < ForwardPos(es, merged, n) <==> y < n
  {
    if n < |merged| {
      var i := ForwardPos(es, merged, n);
      if i < |es| {
        SortedOrder(es, i, x);
      }
      SortedOrder(merged, y, n);
    }
  }

  /** Two positions with the same entries before them are the same. */
  lemma ForwardIs(es: seq<Entry>, merged: seq<Entry>, n: nat, p: nat)
    requires Part(es, merged) && Sorted(merged) && n <= |merged| && p <= |es|
    requires forall x: nat, y: nat :: x < |es| && y < |merged| && es[x] == merged[y] ==> (x < p <==> y < n)
    ensures p == ForwardPos(es, merged, n)
  {
    var i := ForwardPos(es, merged, n);
    if p < i {
      assert es[p] in es;
      var y: nat :| y < |merged| && es[p] == merged[y];
      ForwardSplits(es, merged, n, p, y);
    } else if i < p {
      assert es[i] in es;
      var y: nat :| y < |merged| && es[i] == merged[y];
      ForwardSplits(es, merged, n, i, y);
    }
  }

  /** When the merge advances past `merged[n]`, the child that holds it advances by
      one and every other child stays. */
  lemma ForwardStep(es: seq<Entry>, merged: seq<Entry>, n: nat)
    requires Part(es, merged) && Sorted(merged) && n < |merged|
    ensures merged[n] in es ==>
              && ForwardPos(es, merged, n) < |es|
              && es[ForwardPos(es, merged, n)] == merged[n]
              && ForwardPos(es, merged, n + 1) == ForwardPos(es, merged, n) + 1
    ensures merged[n] !in es ==> ForwardPos(es, merged, n + 1) == ForwardPos(es, merged, n)
  {
    var i := ForwardPos(es, merged, n);
    if merged[n] in es {
      var x: nat :| x < |es| && es[x] == merged[n];
      ForwardSplits(es, merged, n, x, n);
      SortedOrder(es, i, x);
    }
    forall x: nat, y: nat | x < |es| && y < |merged| && es[x] == merged[y]
      ensures x < (if merged[n] in es then i + 1 else i) <==> y < n + 1
    {
      ForwardSplits(es, merged, n, x, y);
      SortedOrder(merged, n, y);
      if i < |es| {
        SortedOrder(es, i, x);
      }
    }
    ForwardIs(es, merged, n + 1, if merged[n] in es then i + 1 else i);
  }

  /** Seeking every child is seeking the merge. */
  lemma SeekAll(es: seq<Entry>, merged: seq<Entry>, target: InternalKey)
    requires Part(es, merged) && Sorted(merged)
    ensures SeekIndex(es, target) == ForwardPos(es, merged, SeekIndex(merged, target))
  {
    var n, p := SeekIndex(merged, target), SeekIndex(es, target);
    forall x: nat, y: nat | x < |es| && y < |merged| && es[x] == merged[y]
      ensures x < p <==> y < n
    {
      if p < |es| {
        SortedOrder(es, p, x);
      }
      if n < |merged| {
        SortedOrder(merged, n, y);
      }
    }
    ForwardIs(es, merged, n, p);
  }

  /** Before the whole merge a child is at its first entry. */
  lemma ForwardStart(es: seq<Entry>, merged: seq<Entry>)
    requires Part(es, merged) && Sorted(merged)
    ensures ForwardPos(es, merged, 0) == 0
  {
    ForwardIs(es, merged, 0, 0);
  }

  /** A child at its backward position is at or before the last entry of the merge. */
  lemma BackwardBelow(es: seq<Entry>, merged: seq<Entry>, n: nat)
    requires Part(es, merged) && Sorted(merged) && n <= |merged|
    requires BackwardPos(es, merged, n) < |es|
    ensures n > 0 && !Before(merged[n - 1].key, es[BackwardPos(es, merged, n)].key)
  {
    var i := BackwardPos(es, merged, n);
    assert es[i] in es;
    var y: nat :| y < |merged| && es[i] == merged[y];
    ForwardSplits(es, merged, n, i, y);
    SortedOrder(merged, n - 1, y);
  }

  datatype Direction = Forward | Reverse

  class MergingIterator {
    const children: seq<ListIterator>
    var current: int
    var direction: Direction
    ghost const merged: seq<Entry>
    ghost var at: nat

    ghost function Lists(): seq<seq<Entry>> {
      seq(|children|, i requires 0 <= i < |children| => children[i].entries)
    }

    /** What never changes: distinct child iterators over the lists being merged. */
    ghost predicate Shape()
      reads children
    {
      && (forall i, j :: 0 <= i < j < |children| ==> children[i] != children[j])
      && (forall i :: 0 <= i < |children| ==> children[i].WellFormed())
      && IsMerge(Lists(), merged)
    }

    ghost predicate AllForward(n: nat)
      requires n <= |merged|
      reads children
    {
      forall i :: 0 <= i < |children| ==> children[i].pos == ForwardPos(children[i].entries, merged, n)
    }

    ghost predicate AllBackward(n: nat)
      requires n <= |merged|
      reads children
    {
      forall i :: 0 <= i < |children| ==> children[i].pos == BackwardPos(children[i].entries, merged, n)
    }

    predicate Valid()
      reads this
    {
      current != -1
    }

    /** `at` is the abstract cursor over `merged`. */
    ghost predicate Inv()
      reads this, children
    {
      && Shape()
      && at <= |merged|
      && (Valid() <==> at < |merged|)
      && (Valid() ==> OnCurrent())
      && (Valid() && direction == Forward ==> AllForward(at))
      && (Valid() && direction == Reverse ==> AllBackward(at + 1))
    }

    ghost predicate OnCurrent()
      requires at < |merged|
      reads this, children
    {
      && 0 <= current < |children|
      && children[current].Valid()
      && children[current].entries[children[current].pos] == merged[at]
    }

    /** The entry under the current child. */
    function Current(): (e: Entry)
      requires Inv() && Valid()
      reads this, children
      ensures e == merged[at]
    {
      children[current].entries[children[current].pos]
    }

    lemma CursorBounds()
      requires Inv()
      ensures Sorted(merged) && at <= |merged| && (Valid() <==> at < |merged|)
    {
    }

    constructor (children: seq<ListIterator>, ghost merged: seq<Entry>)
      requires forall i, j :: 0 <= i < j < |children| ==> children[i] != children[j]
      requires forall i :: 0 <= i < |children| ==> children[i].WellFormed()
      requires IsMerge(seq(|children|, i requires 0 <= i < |children| => children[i].entries), merged)
      ensures Inv() && !Valid() && this.children == children && this.merged == merged
    {
      this.children, this.merged := children, merged;
      current, direction := -1, Forward;
      at := |merged|;
      new;
      assert Lists() == seq(|children|, i requires 0 <= i < |children| => children[i].entries);
    }

    method FindSmallest()
      modifies this`current
      ensures IsSmallest(current)
    {
      var smallest := -1;
      for i := 0 to |children|
        invariant IsSmallestBelow(smallest, i)
      {
        var child := children[i];
        if child.Valid() {
          if smallest == -1 {
            smallest := i;
          } else if Before(child.Key(), children[smallest].Key()) {
            smallest := i;
          }
        }
      }
      current := smallest;
    }

    ghost predicate IsSmallestBelow(c: int, n: nat)
      requires n <= |children|
      reads children
    {
      && -1 <= c < n
      && (c == -1 ==> forall i :: 0 <= i < n ==> !children[i].Valid())
      && (c >= 0 ==> children[c].Valid())
      && (c >= 0 ==>
            forall i :: 0 <= i < n && children[i].Valid() ==> !Before(children[i].Key(), children[c].Key()))
    }

    ghost predicate IsSmallest(c: int)
      reads children
    {
      IsSmallestBelow(c, |children|)
    }

    method FindLargest()
      modifies this`current
      ensures IsLargest(current)
    {
      var largest := -1;
      for i := |children| downto 0
        invariant IsLargestFrom(largest, i)
      {
        var child := children[i];
        if child.Valid() {
          if largest == -1 {
            largest := i;
          } else if Before(children[largest].Key(), child.Key()) {
            largest := i;
          }
        }
      }
      current := largest;
    }

    ghost predicate IsLargestFrom(c: int, n: nat)
      requires n <= |children|
      reads children
    {
      && (c == -1 || n <= c < |children|)
      && (c == -1 ==> forall i :: n <= i < |children| ==> !children[i].Valid())
      && (c >= 0 ==> children[c].Valid())
      && (c >= 0 ==>
            forall i :: n <= i < |children| && children[i].Valid() ==> !Before(children[c].Key(), children[i].Key()))
    }

    ghost predicate IsLargest(c: int)
      reads children
    {
      IsLargestFrom(c, 0)
    }

    lemma ChildIsPart(i: nat)
      requires Shape() && i < |children|
      ensures Part(children[i].entries, merged) && Sorted(merged)
    {
      assert Part(Lists()[i], merged);
    }

    /** Each merged entry is in exactly one child. */
    lemma Owner(n: nat) returns (c: nat)
      requires Shape() && n < |merged|
      ensures c < |children| && merged[n] in children[c].entries
      ensures forall d: nat :: d < |children| && d != c ==> merged[n] !in children[d].entries
    {
      assert merged[n] in merged;
      c :| c < |Lists()| && merged[n] in Lists()[c];
      forall d: nat | d < |children| && d != c
        ensures merged[n] !in children[d].entries
      {
        if merged[n] in children[d].entries {
          OneOwner(Lists(), c, d, merged[n]);
        }
      }
    }

    lemma SmallestIsNext(n: nat, c: int)
      requires Shape() && n <= |merged| && AllForward(n) && IsSmallest(c)
      ensures n == |merged| ==> c == -1
      ensures n < |merged| ==>
                && 0 <= c < |children|
                && children[c].Valid()
                && children[c].entries[children[c].pos] == merged[n]
    {
      hide IsMerge, Part, Sorted;
      if n < |merged| {
        var d := Owner(n);
        ChildIsPart(d);
        ForwardStep(children[d].entries, merged, n);
        assert children[d].Key() == merged[n].key;
        SameKeySameEntry(n, c);
      }
    }

    /** A child at its forward position with the key of `merged[n]` holds that entry. */
    lemma SameKeySameEntry(n: nat, c: nat)
      requires Shape() && n < |merged| && c < |children| && children[c].Valid()
      requires !Before(merged[n].key, children[c].Key()) && !Before(children[c].Key(), merged[n].key)
      ensures children[c].entries[children[c].pos] == merged[n]
    {
      ChildIsPart(c);
      var e := children[c].entries[children[c].pos];
      assert e in children[c].entries;
      var y: nat :| y < |merged| && merged[y] == e;
      SortedOrder(merged, y, n);
    }

    lemma LargestIsLast(n: nat, c: int)
      requires Shape() && n <= |merged| && AllBackward(n) && IsLargest(c)
      ensures n == 0 ==> c == -1
      ensures n > 0 ==>
                && 0 <= c < |children|
                && children[c].Valid()
                && children[c].entries[children[c].pos] == merged[n - 1]
    {
      hide IsMerge, Part, Sorted;
      forall i: nat | i < |children|
        ensures children[i].Valid() ==> n > 0 && !Before(merged[n - 1].key, children[i].Key())
      {
        ChildIsPart(i);
        if children[i].Valid() {
          BackwardBelow(children[i].entries, merged, n);
        }
      }
      if n > 0 {
        var d := Owner(n - 1);
        ChildIsPart(d);
        ForwardStep(children[d].entries, merged, n - 1);
        assert children[d].Key() == merged[n - 1].key;
        SameKeySameEntry(n - 1, c);
      }
    }

    method SeekToFirst()
      requires Inv()
      modifies this, children
      ensures Inv()
      ensures at == 0
    {
      for i := 0 to |children|
        invariant Shape()
        invariant forall j :: 0 <= j < i ==> children[j].pos == 0
      {
        children[i].SeekToFirst();
      }
      forall i: nat | i < |children|
        ensures ForwardPos(children[i].entries, merged, 0) == 0
      {
        ChildIsPart(i);
        ForwardStart(children[i].entries, merged);
      }
      FindSmallest();
      SmallestIsNext(0, current);
      at, direction := 0, Forward;
    }

    method SeekToLast()
      requires Inv()
      modifies this, children
      ensures Inv()
      ensures at == if |merged| == 0 then 0 else |merged| - 1
    {
      for i := 0 to |children|
        invariant Shape()
        invariant forall j :: 0 <= j < i ==> children[j].pos == BackwardPos(children[j].entries, merged, |merged|)
      {
        children[i].SeekToLast();
      }
      FindLargest();
      LargestIsLast(|merged|, current);
      direction := Reverse;
      at := if |merged| == 0 then 0 else |merged| - 1;
    }

    method Seek(target: InternalKey)
      requires Inv()
      modifies this, children
      ensures Inv()
      ensures at == SeekIndex(merged, target)
    {
      for i := 0 to |children|
        invariant Shape()
        invariant forall j :: 0 <= j < i ==> children[j].pos == SeekIndex(children[j].entries, target)
      {
        children[i].Seek(target);
      }
      forall i: nat | i < |children|
        ensures SeekIndex(children[i].entries, target) == ForwardPos(children[i].entries, merged, SeekIndex(merged, target))
      {
        ChildIsPart(i);
        SeekAll(children[i].entries, merged, target);
      }
      FindSmallest();
      SmallestIsNext(SeekIndex(merged, target), current);
      direction := Forward;
      at := SeekIndex(merged, target);
    }

    /** Next after a backward move: the other children step over the current key. */
    method PlaceAhead()
      requires Shape() && at < |merged| && OnCurrent()
      modifies children
      ensures Shape() && OnCurrent() && children[current].pos == old(children[current].pos)
      ensures forall i :: 0 <= i < |children| && i != current ==>
                children[i].pos == ForwardPos(children[i].entries, merged, at + 1)
    {
      hide IsMerge, ForwardPos;
      Turn(at);
      var key := children[current].Key();
      for i := 0 to |children|
        invariant Shape()
        invariant children[current].pos == old(children[current].pos)
        invariant forall j :: 0 <= j < i && j != current ==> children[j].pos == AfterKey(children[j].entries, key)
      {
        if i != current {
          children[i].Seek(key);
          if children[i].Valid() && children[i].Key() == key {
            children[i].Next();
          }
        }
      }
    }

    /** Prev after a forward move: the other children step back before the current key. */
    method PlaceBehind()
      requires Shape() && at < |merged| && OnCurrent()
      modifies children
      ensures Shape() && OnCurrent() && children[current].pos == old(children[current].pos)
      ensures forall i :: 0 <= i < |children| && i != current ==>
                children[i].pos == BackwardPos(children[i].entries, merged, at)
    {
      hide IsMerge;
      var key := children[current].Key();
      for i := 0 to |children|
        invariant Shape()
        invariant children[current].pos == old(children[current].pos)
        invariant forall j :: 0 <= j < i && j != current ==> children[j].pos == BackwardPos(children[j].entries, merged, at)
      {
        if i != current {
          children[i].Seek(key);
          if children[i].Valid() {
            children[i].Prev();
          } else {
            children[i].SeekToLast();
          }
        }
      }
    }

    method Advance()
      requires Inv() && Valid()
      modifies this`direction, children
      ensures Shape() && AllForward(at + 1) && direction == Forward
    {
      hide IsMerge, ForwardPos, AfterKey;
      Turn(at);
      if direction != Forward {
        PlaceAhead();
        direction := Forward;
      }
      children[current].Next();
    }

    method Retreat()
      requires Inv() && Valid()
      modifies this`direction, children
      ensures Shape() && AllBackward(at) && direction == Reverse
    {
      hide IsMerge, ForwardPos, BackwardPos;
      TurnBack(at);
      if direction != Reverse {
        PlaceBehind();
        direction := Reverse;
      }
      children[current].Prev();
    }

    method Next()
      requires Inv() && Valid()
      modifies this, children
      ensures Inv()
      ensures at == old(at) + 1
    {
      hide IsMerge, ForwardPos, IsSmallest;
      Advance();
      FindSmallest();
      SmallestIsNext(at + 1, current);
      at := at + 1;
    }

    method Prev()
      requires Inv() && Valid()
      modifies this, children
      ensures Inv()
      ensures at == if old(at) == 0 then |merged| else old(at) - 1
    {
      hide IsMerge, ForwardPos, BackwardPos, IsLargest;
      Retreat();
      FindLargest();
      LargestIsLast(at, current);
      at := if at == 0 then |merged| else at - 1;
    }

    /** How the backward positions of the children change around the current entry. */
    lemma TurnBack(n: nat)
      requires Shape() && n == at && at < |merged| && OnCurrent()
      ensures forall i: nat :: i < |children| ==>
                var es := children[i].entries;
                && (i == current ==> BackwardPos(es, merged, n + 1) == ForwardPos(es, merged, n))
                && (i == current ==> children[i].pos == ForwardPos(es, merged, n))
                && (i == current ==>
                      BackwardPos(es, merged, n) == if children[i].pos == 0 then |es| else children[i].pos - 1)
                && (i != current ==> BackwardPos(es, merged, n + 1) == BackwardPos(es, merged, n))
    {
      hide IsMerge, ForwardPos, AfterKey;
      Turn(n);
      ChildIsPart(current);
      var es := children[current].entries;
      assert merged[n] in es;
      ForwardStep(es, merged, n);
      SortedOrder(es, ForwardPos(es, merged, n), children[current].pos);
    }

    /** How the forward positions of the children change around the current entry. */
    lemma Turn(n: nat)
      requires Shape() && n == at && at < |merged| && OnCurrent()
      ensures forall i: nat :: i < |children| ==>
                var es := children[i].entries;
                && AfterKey(es, merged[n].key) == ForwardPos(es, merged, n + 1)
                && (i == current ==> ForwardPos(es, merged, n + 1) == ForwardPos(es, merged, n) + 1)
                && (i != current ==> ForwardPos(es, merged, n + 1) == ForwardPos(es, merged, n))
    {
      var c := Owner(n);
      var e := children[current].entries[children[current].pos];
      assert e in children[current].entries;
      assert c == current;
      forall i: nat | i < |children|
        ensures AfterKey(children[i].entries, merged[n].key) == ForwardPos(children[i].entries, merged, n + 1)
        ensures i == current ==> ForwardPos(children[i].entries, merged, n + 1) == ForwardPos(children[i].entries, merged, n) + 1
        ensures i != current ==> ForwardPos(children[i].entries, merged, n + 1) == ForwardPos(children[i].entries, merged, n)
      {
        ChildIsPart(i);
        ForwardStep(children[i].entries, merged, n);
        KeyInPart(children[i].entries, merged, n);
      }
    }
  }

  /** The first position whose key is greater than `key`, as Next finds it. */
  function AfterKey(es: seq<Entry>, key: InternalKey): nat {
    var i := SeekIndex(es, key);
    if i < |es| && es[i].key == key then i + 1 else i
  }

  lemma KeyInPart(es: seq<Entry>, merged: seq<Entry>, n: nat)
    requires Part(es, merged) && Sorted(merged) && n < |merged|
    ensures var i := ForwardPos(es, merged, n);
            i < |es| && es[i].key == merged[n].key ==> merged[n] in es
  {
    var i := ForwardPos(es, merged, n);
    if i < |es| && es[i].key == merged[n].key {
      assert es[i] in es;
      var y: nat :| y < |merged| && merged[y] == es[i];
      SortedOrder(merged, y, n);
    }
  }
}
