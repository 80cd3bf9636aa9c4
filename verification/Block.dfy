/** block_builder.cc and block.cc: blocks of prefix-compressed entries with restart points,
    and the iterator that reads them back. */
module Block {
  import opened DbFormat
  import opened Coding

  datatype Pair = Pair(key: Bytes, value: Bytes)

  /** The comparator: whether its three-way result is negative. */
  type Less = (Bytes, Bytes) -> bool

  /** A comparator orders the keys, up to those it does not tell apart. */
  ghost predicate Order(lt: Less) {
    && (forall a :: !lt(a, a))
    && (forall a, b, c :: lt(a, b) && lt(b, c) ==> lt(a, c))
    && forall a, b, c :: !lt(a, b) && !lt(b, c) ==> !lt(a, c)
  }

  ghost predicate SortedPairs(lt: Less, kvs: seq<Pair>) {
    forall i, j :: 0 <= i < j < |kvs| ==> lt(kvs[i].key, kvs[j].key)
  }

  const MAX32: nat := 0xffff_ffff

  // ---------------------------------------------------------------- layout

  /** What a block holds: its pairs, how many bytes of key each shares with the pair before,
      and which pairs are restart points. */
  datatype Layout = Layout(kvs: seq<Pair>, shared: seq<nat>, restarts: seq<nat>)

  ghost predicate LayoutOk(l: Layout) {
    |l.shared| == |l.kvs| && EntriesOk(l) && RestartsOk(l)
  }

  ghost predicate EntriesOk(l: Layout)
    requires |l.shared| == |l.kvs|
  {
    forall i :: 0 <= i < |l.kvs| ==> EntryOk(l, i)
  }

  ghost predicate RestartsOk(l: Layout)
    requires |l.shared| == |l.kvs|
  {
    && |l.restarts| > 0 && l.restarts[0] == 0
    && (forall j :: 0 < j < |l.restarts| ==> l.restarts[j] < |l.kvs|)
    && (forall i, j :: 0 <= i < j < |l.restarts| ==> l.restarts[i] < l.restarts[j])
    && forall j :: 0 <= j < |l.restarts| && l.restarts[j] < |l.kvs| ==> l.shared[l.restarts[j]] == 0
  }

  ghost predicate EntryOk(l: Layout, i: nat)
    requires i < |l.kvs| == |l.shared|
  {
    && SizesOk(l.kvs[i], l.shared[i])
    && if i == 0 then l.shared[i] == 0 else Shares(l.kvs[i - 1].key, l.kvs[i].key, l.shared[i])
  }

  ghost predicate SizesOk(p: Pair, shared: nat) {
    |p.key| + |p.value| <= MAX32 && shared <= |p.key|
  }

  ghost predicate Shares(a: Bytes, b: Bytes, n: nat) {
    n <= |a| && n <= |b| && a[..n] == b[..n]
  }

  /** An entry: three lengths, the rest of the key, the value. */
  function EntryBytes(shared: nat, p: Pair): Bytes
    requires shared <= |p.key|
  {
    EncodeVarint(shared) + EncodeVarint(|p.key| - shared) + EncodeVarint(|p.value|) + p.key[shared..] + p.value
  }

  ghost function EntryOf(l: Layout, i: nat): Bytes
    requires LayoutOk(l) && i < |l.kvs|
  {
    assert EntryOk(l, i);
    EntryBytes(l.shared[i], l.kvs[i])
  }

  ghost function DataUpTo(l: Layout, i: nat): Bytes
    requires LayoutOk(l) && i <= |l.kvs|
  {
    if i == 0 then [] else DataUpTo(l, i - 1) + EntryOf(l, i - 1)
  }

  ghost function DataFrom(l: Layout, i: nat): Bytes
    requires LayoutOk(l) && i <= |l.kvs|
    decreases |l.kvs| - i
  {
    if i == |l.kvs| then [] else EntryOf(l, i) + DataFrom(l, i + 1)
  }

  ghost function Off(l: Layout, i: nat): nat
    requires LayoutOk(l) && i <= |l.kvs|
  {
    |DataUpTo(l, i)|
  }

  ghost function Data(l: Layout): Bytes
    requires LayoutOk(l)
  {
    DataUpTo(l, |l.kvs|)
  }

  ghost function RestartOffsets(l: Layout): (r: seq<nat>)
    requires LayoutOk(l)
    ensures |r| == |l.restarts| && forall j :: 0 <= j < |r| ==> r[j] == Off(l, l.restarts[j])
  {
    seq(|l.restarts|, j requires 0 <= j < |l.restarts| => Off(l, l.restarts[j]))
  }

  function Fixed32s(ns: seq<nat>): (r: Bytes)
    requires forall j :: 0 <= j < |ns| ==> ns[j] <= MAX32
    ensures |r| == 4 * |ns|
  {
    if ns == [] then [] else Fixed32s(ns[..|ns| - 1]) + EncodeFixed32(ns[|ns| - 1])
  }

  /** All sizes and offsets fit 32 bits. */
  ghost predicate Fits(l: Layout) {
    LayoutOk(l) && |Data(l)| + 4 * |l.restarts| + 4 <= MAX32
  }

  /** The block as it is stored. */
  ghost function Contents(l: Layout): Bytes
    requires Fits(l)
  {
    AllBelow(l);
    Data(l) + Fixed32s(RestartOffsets(l)) + EncodeFixed32(|l.restarts|)
  }

  lemma AllBelow(l: Layout)
    requires LayoutOk(l)
    ensures forall j :: 0 <= j < |l.restarts| ==> Off(l, l.restarts[j]) <= |Data(l)|
  {
    forall j | 0 <= j < |l.restarts|
      ensures Off(l, l.restarts[j]) <= |Data(l)|
    {
      OffGrows(l, l.restarts[j], |l.kvs|);
    }
  }

  lemma {:induction false} OffGrows(l: Layout, i: nat, j: nat)
    requires LayoutOk(l) && i <= |l.kvs| && j <= |l.kvs|
    ensures i < j ==> Off(l, i) + 3 <= Off(l, j)
    ensures i == j ==> Off(l, i) == Off(l, j)
    decreases j
  {
    if i < j {
      OffGrows(l, i, j - 1);
      assert |EntryOf(l, j - 1)| >= 3;
    }
  }

  /** Offsets are in the order of the entries. */
  lemma OffOrder(l: Layout, i: nat, j: nat)
    requires LayoutOk(l) && i <= |l.kvs| && j <= |l.kvs|
    ensures i < j <==> Off(l, i) < Off(l, j)
    ensures i == j <==> Off(l, i) == Off(l, j)
  {
    OffGrows(l, i, j);
    OffGrows(l, j, i);
  }

  lemma {:induction false} Split(l: Layout, i: nat)
    requires LayoutOk(l) && i <= |l.kvs|
    ensures DataUpTo(l, i) + DataFrom(l, i) == Data(l)
    decreases |l.kvs| - i
  {
    hide LayoutOk, EntryBytes;
    SharedCount(l);
    if i == |l.kvs| {
      assert DataUpTo(l, i) + [] == Data(l);
    } else {
      Split(l, i + 1);
      Associative(DataUpTo(l, i), EntryOf(l, i), DataFrom(l, i + 1));
    }
  }

  lemma Associative(a: Bytes, b: Bytes, c: Bytes)
    ensures a + b + c == a + (b + c)
  {
  }

  /** From the offset of an entry to the restarts there is that entry and those after it. */
  lemma EntriesAt(l: Layout, i: nat)
    requires Fits(l) && i <= |l.kvs|
    ensures Off(l, i) <= |Data(l)| <= |Contents(l)| && Contents(l)[Off(l, i)..|Data(l)|] == DataFrom(l, i)
  {
    AllBelow(l);
    Split(l, i);
    OffGrows(l, i, |l.kvs|);
    var tail := Fixed32s(RestartOffsets(l)) + EncodeFixed32(|l.restarts|);
    assert Contents(l) == Data(l) + tail;
    Middle(DataUpTo(l, i), DataFrom(l, i), tail);
  }

  lemma Middle(a: Bytes, b: Bytes, c: Bytes)
    ensures (a + b + c)[|a|..|a + b|] == b
  {
  }

  lemma {:induction false} Fixed32sAt(ns: seq<nat>, j: nat, rest: Bytes)
    requires j < |ns| && forall k :: 0 <= k < |ns| ==> ns[k] <= MAX32
    ensures DecodeFixed32((Fixed32s(ns) + rest)[4 * j..]) == ns[j]
    decreases |ns|
  {
    var front, last := ns[..|ns| - 1], EncodeFixed32(ns[|ns| - 1]);
    assert Fixed32s(ns) + rest == Fixed32s(front) + (last + rest);
    if j == |ns| - 1 {
      assert (Fixed32s(front) + (last + rest))[4 * j..] == last + rest;
      Fixed32RoundTrip(ns[j], rest);
    } else {
      Fixed32sAt(front, j, last + rest);
      assert front[j] == ns[j];
    }
  }

  // ---------------------------------------------------------------- the builder

  /** The length of the longest common prefix. */
  ghost predicate IsShared(a: Bytes, b: Bytes, n: nat) {
    && Shares(a, b, n)
    && (n == |a| || n == |b| || a[n] != b[n])
  }

  /** Restart points are `interval` entries apart, and between them as much as possible is
      shared. */
  ghost predicate Compressed(l: Layout, interval: nat)
    requires LayoutOk(l)
  {
    && (forall j :: 0 < j < |l.restarts| ==> l.restarts[j] == l.restarts[j - 1] + interval)
    && |l.kvs| - l.restarts[|l.restarts| - 1] <= interval
    && forall i {:trigger l.shared[i]} :: 0 < i < |l.kvs| && i !in l.restarts ==> IsShared(l.kvs[i - 1].key, l.kvs[i].key, l.shared[i])
  }

  /** The layout with one more pair, which may begin a restart. */
  ghost function Extended(l: Layout, p: Pair, shared: nat, restart: bool): Layout {
    Layout(l.kvs + [p], l.shared + [shared], if restart then l.restarts + [|l.kvs|] else l.restarts)
  }

  ghost predicate MayFollow(l: Layout, p: Pair, shared: nat, restart: bool) {
    && SizesOk(p, shared) && (restart ==> shared == 0)
    && if l.kvs == [] then shared == 0 && !restart else Shares(l.kvs[|l.kvs| - 1].key, p.key, shared)
  }

  lemma ExtendedOk(l: Layout, p: Pair, shared: nat, restart: bool)
    requires LayoutOk(l) && MayFollow(l, p, shared, restart)
    ensures LayoutOk(Extended(l, p, shared, restart))
  {
    ExtendedEntriesOk(l, p, shared, restart);
    ExtendedRestartsOk(l, p, shared, restart);
  }

  lemma ExtendedEntriesOk(l: Layout, p: Pair, shared: nat, restart: bool)
    requires |l.shared| == |l.kvs| && EntriesOk(l) && MayFollow(l, p, shared, restart)
    ensures EntriesOk(Extended(l, p, shared, restart))
  {
    hide Shares, SizesOk;
    var l', n := Extended(l, p, shared, restart), |l.kvs|;
    forall i | 0 <= i < |l'.kvs|
      ensures EntryOk(l', i)
    {
      assert i < n ==> EntryOk(l, i);
    }
  }

  lemma ExtendedRestartsOk(l: Layout, p: Pair, shared: nat, restart: bool)
    requires |l.shared| == |l.kvs| && RestartsOk(l) && MayFollow(l, p, shared, restart)
    ensures RestartsOk(Extended(l, p, shared, restart))
  {
    hide Shares, SizesOk;
  }

  lemma {:induction false} ExtendedDataUpTo(l: Layout, p: Pair, shared: nat, restart: bool, i: nat)
    requires LayoutOk(l) && LayoutOk(Extended(l, p, shared, restart)) && i <= |l.kvs|
    ensures DataUpTo(Extended(l, p, shared, restart), i) == DataUpTo(l, i)
    decreases i
  {
    hide LayoutOk;
    SharedCount(l);
    if i > 0 {
      ExtendedDataUpTo(l, p, shared, restart, i - 1);
      SharedCount(Extended(l, p, shared, restart));
    }
  }

  lemma SharedCount(l: Layout)
    requires LayoutOk(l)
    ensures |l.shared| == |l.kvs| && |l.restarts| > 0
  {
  }

  lemma ExtendedData(l: Layout, p: Pair, shared: nat, restart: bool)
    requires LayoutOk(l) && MayFollow(l, p, shared, restart)
    ensures LayoutOk(Extended(l, p, shared, restart))
    ensures Data(Extended(l, p, shared, restart)) == Data(l) + EntryBytes(shared, p)
    ensures RestartOffsets(Extended(l, p, shared, restart)) == RestartOffsets(l) + if restart then [|Data(l)|] else []
  {
    hide EntryBytes;
    var l', n := Extended(l, p, shared, restart), |l.kvs|;
    ExtendedOk(l, p, shared, restart);
    forall i: nat | i <= n
      ensures DataUpTo(l', i) == DataUpTo(l, i)
    {
      ExtendedDataUpTo(l, p, shared, restart, i);
    }
    assert RestartOffsets(l') == RestartOffsets(l) + if restart then [|Data(l)|] else [];
  }

  lemma ExtendedCompressed(l: Layout, interval: nat, p: Pair, shared: nat, restart: bool)
    requires LayoutOk(l) && MayFollow(l, p, shared, restart) && Compressed(l, interval) && interval >= 1
    requires LayoutOk(Extended(l, p, shared, restart))
    requires restart <==> |l.kvs| - l.restarts[|l.restarts| - 1] == interval
    requires l.kvs == [] ==> !restart
    requires l.kvs != [] && !restart ==> IsShared(l.kvs[|l.kvs| - 1].key, p.key, shared)
    ensures Compressed(Extended(l, p, shared, restart), interval)
  {
    hide IsShared, EntriesOk;
    ExtendedSharing(l, interval, p, shared, restart);
  }

  lemma ExtendedSharing(l: Layout, interval: nat, p: Pair, shared: nat, restart: bool)
    requires LayoutOk(l) && Compressed(l, interval)
    requires l.kvs != [] && !restart ==> IsShared(l.kvs[|l.kvs| - 1].key, p.key, shared)
    ensures var l' := Extended(l, p, shared, restart);
            forall i {:trigger l'.shared[i]} :: 0 < i < |l'.kvs| && i !in l'.restarts ==>
              IsShared(l'.kvs[i - 1].key, l'.kvs[i].key, l'.shared[i])
  {
    hide IsShared, EntriesOk;
    var l', n := Extended(l, p, shared, restart), |l.kvs|;
    assert restart ==> l'.restarts[|l'.restarts| - 1] == n;
    forall i {:trigger l'.shared[i]} | 0 < i < |l'.kvs| && i !in l'.restarts
      ensures IsShared(l'.kvs[i - 1].key, l'.kvs[i].key, l'.shared[i])
    {
      if i < n {
        assert l.shared[i] == l'.shared[i] && i !in l.restarts;
      }
    }
  }

  /** How much to share with the key before. */
  method SharedPrefix(last: Bytes, key: Bytes) returns (shared: nat)
    ensures IsShared(last, key, shared)
  {
    shared := 0;
    var minLength := if |last| < |key| then |last| else |key|;
    while shared < minLength && last[shared] == key[shared]
      invariant shared <= minLength && last[..shared] == key[..shared]
    {
      shared := shared + 1;
    }
  }

  /** The three lengths, the rest of the key and the value at the end of the buffer. */
  method AppendEntry(buffer: Bytes, shared: nat, key: Bytes, value: Bytes) returns (r: Bytes)
    requires SizesOk(Pair(key, value), shared)
    ensures r == buffer + EntryBytes(shared, Pair(key, value))
  {
    hide EncodeVarint;
    var b1 := PutVarint32(shared);
    var b2 := PutVarint32(|key| - shared);
    var b3 := PutVarint32(|value|);
    Regroup(buffer, b1, b2, b3, key[shared..], value);
    r := buffer + b1 + b2 + b3 + key[shared..] + value;
  }

  /** last_key_ cut to what is shared, then the rest of the new key: that is the new key. */
  method Resized(last: Bytes, shared: nat, key: Bytes) returns (r: Bytes)
    requires Shares(last, key, shared)
    ensures r == key
  {
    r := last[..shared] + key[shared..];
  }

  /** Whatever the builder shares may follow. */
  lemma Follows(l: Layout, p: Pair, shared: nat, restart: bool)
    requires |p.key| + |p.value| <= MAX32 && (l.kvs == [] ==> !restart)
    requires if restart then shared == 0 else IsShared(if l.kvs == [] then [] else l.kvs[|l.kvs| - 1].key, p.key, shared)
    ensures MayFollow(l, p, shared, restart) && SizesOk(p, shared)
    ensures Shares(if l.kvs == [] then [] else l.kvs[|l.kvs| - 1].key, p.key, shared)
  {
  }

  lemma EntrySize(shared: nat, p: Pair)
    requires SizesOk(p, shared)
    ensures |EntryBytes(shared, p)| <= |p.key| + |p.value| + 15
  {
    hide EncodeVarint;
    Pow128Values();
    VarintLength(shared, 5);
    VarintLength(|p.key| - shared, 5);
    VarintLength(|p.value|, 5);
  }

  lemma NoPairs(interval: nat)
    ensures var l := Layout([], [], [0]);
            LayoutOk(l) && Compressed(l, interval) && Data(l) == [] && RestartOffsets(l) == [0]
  {
  }

  /** All that adding a pair does to the layout. */
  lemma AddStep(l: Layout, interval: nat, p: Pair, shared: nat, restart: bool)
    requires LayoutOk(l) && Compressed(l, interval) && interval >= 1 && |p.key| + |p.value| <= MAX32 && |l.restarts| > 0
    requires restart <==> |l.kvs| - l.restarts[|l.restarts| - 1] == interval
    requires if restart then shared == 0 else IsShared(if l.kvs == [] then [] else l.kvs[|l.kvs| - 1].key, p.key, shared)
    ensures var l' := Extended(l, p, shared, restart);
            && LayoutOk(l') && Compressed(l', interval) && SizesOk(p, shared)
            && Data(l') == Data(l) + EntryBytes(shared, p)
            && RestartOffsets(l') == RestartOffsets(l) + (if restart then [|Data(l)|] else [])
            && l'.kvs == l.kvs + [p] && l'.kvs[|l'.kvs| - 1] == p && |l'.restarts| > 0
            && l'.restarts[|l'.restarts| - 1] == if restart then |l.kvs| else l.restarts[|l.restarts| - 1]
    ensures Shares(if l.kvs == [] then [] else l.kvs[|l.kvs| - 1].key, p.key, shared)
  {
    hide LayoutOk, Compressed, Data, RestartOffsets, IsShared, EntryBytes, Extended, MayFollow, SizesOk, Shares;
    CounterBound(l, interval);
    Follows(l, p, shared, restart);
    ExtendedData(l, p, shared, restart);
    ExtendedCompressed(l, interval, p, shared, restart);
    ExtendedLast(l, p, shared, restart);
  }

  class BlockBuilder {
    const interval: nat
    var buffer: Bytes
    var restarts: seq<nat>
    var counter: nat
    var finished: bool
    var lastKey: Bytes
    ghost var layout: Layout

    ghost predicate Valid()
      reads this
    {
      && interval >= 1 && LayoutOk(layout) && Compressed(layout, interval)
      && (finished ==> Fits(layout)) && buffer == (if finished then Contents(layout) else Data(layout))
      && restarts == RestartOffsets(layout)
      && counter == |layout.kvs| - layout.restarts[|layout.restarts| - 1]
      && lastKey == if layout.kvs == [] then [] else layout.kvs[|layout.kvs| - 1].key
    }

    constructor (interval: nat)
      requires interval >= 1
      ensures Valid() && !finished && layout.kvs == [] && this.interval == interval && CurrentSizeEstimate() == 8
    {
      this.interval := interval;
      buffer, restarts, counter, finished, lastKey := [], [0], 0, false, [];
      layout := Layout([], [], [0]);
    }

    /** BlockBuilder::Reset. */
    method Reset()
      requires Valid()
      modifies this
      ensures Valid() && !finished && layout.kvs == [] && CurrentSizeEstimate() == 8
    {
      hide LayoutOk, Compressed, Data, RestartOffsets, Fits, Contents;
      PositiveInterval();
      NoPairs(interval);
      buffer, restarts, counter, finished, lastKey := [], [0], 0, false, [];
      layout := Layout([], [], [0]);
    }

    lemma PositiveInterval()
      requires Valid()
      ensures interval >= 1
    {
    }

    function CurrentSizeEstimate(): nat
      reads this
    {
      |buffer| + 4 * |restarts| + 4
    }

    predicate Empty()
      reads this
    {
      buffer == []
    }

    /** The estimate is exact: it is the size of the block if it is finished now. */
    lemma Estimate()
      requires Valid() && !finished
      ensures Fits(layout) <==> CurrentSizeEstimate() <= MAX32
      ensures Fits(layout) ==> |Contents(layout)| == CurrentSizeEstimate()
      ensures Empty() <==> layout.kvs == []
      ensures interval >= 1
    {
      OffOrder(layout, 0, |layout.kvs|);
      if Fits(layout) {
        OffsetsFit(layout);
      }
    }

    /** BlockBuilder::Add. */
    method Add(key: Bytes, value: Bytes)
      requires Valid() && !finished && |key| + |value| <= MAX32
      modifies this
      ensures Valid() && !finished && layout.kvs == old(layout).kvs + [Pair(key, value)]
      ensures CurrentSizeEstimate() <= old(CurrentSizeEstimate()) + |key| + |value| + 19
    {
      hide LayoutOk, Compressed, Data, RestartOffsets, IsShared, Extended, EntryBytes, Fits, Contents, SizesOk, Shares;
      ghost var l, p, restart := layout, Pair(key, value), counter == interval;
      SharedCount(l);
      CounterBound(l, interval);
      var shared: nat := 0;
      if counter < interval {
        shared := SharedPrefix(lastKey, key);
      } else {
        restarts := restarts + [|buffer|];
        counter := 0;
      }
      AddStep(l, interval, p, shared, restart);
      EntrySize(shared, p);
      buffer := AppendEntry(buffer, shared, key, value);
      lastKey := Resized(lastKey, shared, key);
      counter := counter + 1;
      layout := Extended(l, p, shared, restart);
    }

    /** BlockBuilder::Finish. */
    method Finish() returns (r: Bytes)
      requires Valid() && !finished && Fits(layout)
      modifies this
      ensures Valid() && finished && layout == old(layout) && r == buffer == Contents(layout)
    {
      hide LayoutOk, Compressed, Data, RestartOffsets, EncodeFixed32, Fixed32s, Contents;
      OffsetsFit(layout);
      buffer := AppendWords(buffer, restarts);
      buffer := buffer + EncodeFixed32(|restarts|);
      finished := true;
      r := buffer;
    }
  }

  method AppendWords(buffer: Bytes, ns: seq<nat>) returns (r: Bytes)
    requires forall j :: 0 <= j < |ns| ==> ns[j] <= MAX32
    ensures r == buffer + Fixed32s(ns)
  {
    hide EncodeFixed32;
    r := buffer;
    for i := 0 to |ns|
      invariant r == buffer + Fixed32s(ns[..i])
    {
      OneWordMore(buffer, ns, i);
      r := r + EncodeFixed32(ns[i]);
    }
    assert ns[..|ns|] == ns;
  }

  lemma CounterBound(l: Layout, interval: nat)
    requires LayoutOk(l) && Compressed(l, interval)
    ensures |l.kvs| - l.restarts[|l.restarts| - 1] <= interval
    ensures l.kvs == [] ==> |l.kvs| - l.restarts[|l.restarts| - 1] == 0
  {
  }

  lemma OffsetsFit(l: Layout)
    requires Fits(l)
    ensures |RestartOffsets(l)| == |l.restarts| <= MAX32
    ensures forall j :: 0 <= j < |l.restarts| ==> RestartOffsets(l)[j] <= MAX32
    ensures Contents(l) == Data(l) + Fixed32s(RestartOffsets(l)) + EncodeFixed32(|l.restarts|)
  {
    AllBelow(l);
  }

  lemma OneWordMore(data: Bytes, ns: seq<nat>, i: nat)
    requires i < |ns| && forall j :: 0 <= j < |ns| ==> ns[j] <= MAX32
    ensures data + Fixed32s(ns[..i]) + EncodeFixed32(ns[i]) == data + Fixed32s(ns[..i + 1])
  {
    assert ns[..i + 1][..i] == ns[..i];
  }

  lemma Regroup(a: Bytes, b: Bytes, c: Bytes, d: Bytes, e: Bytes, f: Bytes)
    ensures a + b + c + d + e + f == a + (b + c + d + e + f)
  {
  }

  lemma ExtendedLast(l: Layout, p: Pair, shared: nat, restart: bool)
    requires |l.restarts| > 0
    ensures var l' := Extended(l, p, shared, restart);
            && l'.kvs == l.kvs + [p] && l'.kvs[|l'.kvs| - 1] == p && |l'.restarts| > 0
            && l'.restarts[|l'.restarts| - 1] == if restart then |l.kvs| else l.restarts[|l.restarts| - 1]
  {
  }

  // ---------------------------------------------------------------- reading

  /** The three lengths of an entry and what follows them. */
  function Header(s: Bytes): (r: Option<(nat, nat, nat, Bytes)>)
    ensures r.Some? ==> |r.value.3| + 3 <= |s|
  {
    match DecodeVarint(s, 5)
    case None => None
    case Some((shared, s1)) =>
      match DecodeVarint(s1, 5)
      case None => None
      case Some((nonShared, s2)) =>
        match DecodeVarint(s2, 5)
        case None => None
        case Some((valueLength, rest)) =>
          if |rest| < (Word32(nonShared) + Word32(valueLength)) % 0x1_0000_0000 then None
          else Some((Word32(shared), Word32(nonShared), Word32(valueLength), rest))
  }

  function Word32(n: nat): nat {
    n % 0x1_0000_0000
  }

  lemma ShortHeader(s: Bytes)
    ensures |s| < 3 ==> Header(s).None?
    ensures |s| >= 3 && s[0] < 128 && s[1] < 128 && s[2] < 128 ==>
              Header(s) == if |s| - 3 < s[1] + s[2] then None else Some((s[0], s[1], s[2], s[3..]))
  {
    hide EncodeVarint;
    OneByte(s);
    if |s| >= 3 && s[0] < 128 && s[1] < 128 && s[2] < 128 {
      OneByte(s[1..]);
      OneByte(s[2..]);
      assert s[1..][1..] == s[2..] && s[2..][1..] == s[3..];
    }
  }

  lemma OneByte(s: Bytes)
    ensures s == [] ==> DecodeVarint(s, 5).None?
    ensures s != [] && s[0] < 128 ==> DecodeVarint(s, 5) == Some((s[0] as nat, s[1..])) && Word32(s[0]) == s[0]
  {
  }

  lemma HeaderIs(s: Bytes, a: Option<(nat, Bytes)>, b: Option<(nat, Bytes)>, c: Option<(nat, Bytes)>)
    requires a == DecodeVarint(s, 5) && b == (if a.Some? then DecodeVarint(a.value.1, 5) else None)
    requires c == if b.Some? then DecodeVarint(b.value.1, 5) else None
    ensures c.None? ==> Header(s).None?
    ensures c.Some? ==>
              Header(s) == if |c.value.1| < (Word32(b.value.0) + Word32(c.value.0)) % 0x1_0000_0000 then None
                           else Some((Word32(a.value.0), Word32(b.value.0), Word32(c.value.0), c.value.1))
  {
    hide DecodeVarint, Word32;
  }

  /** DecodeEntry: the path for three one-byte lengths gives what the long one does. */
  method DecodeEntry(s: Bytes) returns (r: Option<(nat, nat, nat, Bytes)>)
    ensures r == Header(s)
  {
    hide DecodeVarint, Header, Word32;
    ShortHeader(s);
    if |s| < 3 {
      return None;
    }
    if s[0] < 128 && s[1] < 128 && s[2] < 128 {
      if |s| - 3 < s[1] + s[2] {
        return None;
      }
      return Some((s[0], s[1], s[2], s[3..]));
    }
    ghost var x := DecodeVarint(s, 5);
    ghost var y := if x.Some? then DecodeVarint(x.value.1, 5) else None;
    ghost var z := if y.Some? then DecodeVarint(y.value.1, 5) else None;
    HeaderIs(s, x, y, z);
    var a := GetWord(s);
    if a.None? {
      return None;
    }
    var b := GetWord(a.value.1);
    if b.None? {
      return None;
    }
    var c := GetWord(b.value.1);
    if c.None? {
      return None;
    }
    if |c.value.1| < (b.value.0 + c.value.0) % 0x1_0000_0000 {
      return None;
    }
    r := Some((a.value.0, b.value.0, c.value.0, c.value.1));
  }

  /** GetVarint32Ptr. */
  method GetWord(s: Bytes) returns (r: Option<(nat, Bytes)>)
    ensures r == match DecodeVarint(s, 5) case None => None case Some((v, rest)) => Some((Word32(v), rest))
  {
    hide DecodeVarint;
    r := GetVarint32(s);
  }

  lemma LengthRoundTrip(n: nat, rest: Bytes)
    requires n <= MAX32
    ensures DecodeVarint(EncodeVarint(n) + rest, 5) == Some((n, rest)) && Word32(n) == n
  {
    Pow128Values();
    VarintRoundTrip(n, 5, rest);
  }

  lemma HeaderRoundTrip(shared: nat, p: Pair, later: Bytes)
    requires SizesOk(p, shared)
    ensures Header(EntryBytes(shared, p) + later) == Some((shared, |p.key| - shared, |p.value|, p.key[shared..] + p.value + later))
  {
    hide DecodeVarint, EncodeVarint, Word32;
    var a, b, c := EncodeVarint(shared), EncodeVarint(|p.key| - shared), EncodeVarint(|p.value|);
    var rest := p.key[shared..] + p.value + later;
    assert EntryBytes(shared, p) + later == a + (b + (c + rest)) by {
      Regroup([], a, b, c, p.key[shared..], p.value);
      assert a + b + c + p.key[shared..] + p.value + later == a + (b + (c + rest));
    }
    LengthRoundTrip(shared, b + (c + rest));
    LengthRoundTrip(|p.key| - shared, c + rest);
    LengthRoundTrip(|p.value|, rest);
  }

  /** Where the restarts begin and how many there are, if the size allows so many. */
  function Opened(contents: Bytes): Option<(nat, nat)> {
    if |contents| < 4 || 4 * DecodeFixed32(contents[|contents| - 4..]) + 4 > |contents| then None
    else Some((|contents| - 4 - 4 * DecodeFixed32(contents[|contents| - 4..]), DecodeFixed32(contents[|contents| - 4..])))
  }

  /** Block::Block, for any bytes. */
  method OpenBlock(contents: Bytes) returns (r: Option<(nat, nat)>)
    ensures r == Opened(contents)
  {
    hide DecodeFixed32;
    if |contents| < 4 {
      return None;
    }
    var numRestarts: nat := DecodeFixed32(contents[|contents| - 4..]);
    var maxRestartsAllowed := (|contents| - 4) / 4;
    if numRestarts > maxRestartsAllowed {
      return None;
    }
    r := Some((|contents| - (1 + numRestarts) * 4, numRestarts));
  }

  /** A block that was built opens with its restarts right after its data. */
  lemma ContentsOpened(l: Layout)
    requires Fits(l)
    ensures Opened(Contents(l)) == Some((|Data(l)|, |l.restarts|))
  {
    hide Contents, Data, DecodeFixed32, LayoutOk;
    TrailerAt(l);
  }

  lemma TrailerAt(l: Layout)
    requires Fits(l)
    ensures |Contents(l)| == |Data(l)| + 4 * |l.restarts| + 4
    ensures DecodeFixed32(Contents(l)[|Contents(l)| - 4..]) == |l.restarts|
    ensures forall j :: 0 <= j < |l.restarts| ==> DecodeFixed32(Contents(l)[|Data(l)| + 4 * j..]) == Off(l, l.restarts[j])
  {
    hide EncodeFixed32, DecodeFixed32, Fixed32s, Data;
    OffsetsFit(l);
    var offsets, last := RestartOffsets(l), EncodeFixed32(|l.restarts|);
    assert Contents(l) == Data(l) + (Fixed32s(offsets) + last);
    assert Contents(l)[|Contents(l)| - 4..] == last + [];
    Fixed32RoundTrip(|l.restarts|, []);
    forall j | 0 <= j < |l.restarts|
      ensures DecodeFixed32(Contents(l)[|Data(l)| + 4 * j..]) == Off(l, l.restarts[j])
    {
      Fixed32sAt(offsets, j, last);
      assert Contents(l)[|Data(l)| + 4 * j..] == (Fixed32s(offsets) + last)[4 * j..];
    }
  }

  /** What decoding entry `i` finds, and where its value is. */
  lemma EntryParts(l: Layout, i: nat)
    requires Fits(l) && i < |l.kvs|
    ensures Off(l, i) < |Data(l)| <= |Contents(l)| && EntryOk(l, i)
    ensures Header(Contents(l)[Off(l, i)..|Data(l)|]).Some?
    ensures var (shared, nonShared, valueLength, rest) := Header(Contents(l)[Off(l, i)..|Data(l)|]).value;
            && shared == l.shared[i] && nonShared + valueLength <= |rest| <= |Data(l)|
            && rest[..nonShared] == l.kvs[i].key[shared..]
            && |Data(l)| - |rest| + nonShared + valueLength == Off(l, i + 1)
            && Contents(l)[Off(l, i + 1) - valueLength..Off(l, i + 1)] == l.kvs[i].value
  {
    hide Fits, Contents, Data, Header, DataUpTo, EntryBytes, LayoutOk;
    FitsOk(l);
    EntriesAt(l, i);
    EntriesAt(l, i + 1);
    OffGrows(l, i, |l.kvs|);
    EntryIs(l, i);
    var p, later := l.kvs[i], DataFrom(l, i + 1);
    HeaderRoundTrip(l.shared[i], p, later);
    var rest := p.key[l.shared[i]..] + p.value + later;
    ValueIn(Contents(l), Off(l, i), |Data(l)|, EntryBytes(l.shared[i], p), p.value, later);
    OffNext(l, i);
  }

  lemma FitsOk(l: Layout)
    requires Fits(l)
    ensures LayoutOk(l) && |l.kvs| == |l.shared| && |l.restarts| > 0
    ensures forall i :: 0 <= i < |l.kvs| ==> EntryOk(l, i)
  {
  }

  lemma EntryIs(l: Layout, i: nat)
    requires LayoutOk(l) && i < |l.kvs| == |l.shared| && EntryOk(l, i)
    ensures EntryOf(l, i) == EntryBytes(l.shared[i], l.kvs[i])
    ensures DataFrom(l, i) == EntryOf(l, i) + DataFrom(l, i + 1)
    ensures exists front :: EntryBytes(l.shared[i], l.kvs[i]) == front + l.kvs[i].value
  {
    var p, shared := l.kvs[i], l.shared[i];
    var front := EncodeVarint(shared) + EncodeVarint(|p.key| - shared) + EncodeVarint(|p.value|) + p.key[shared..];
    assert EntryBytes(shared, p) == front + p.value;
  }

  lemma OffNext(l: Layout, i: nat)
    requires LayoutOk(l) && i < |l.kvs|
    ensures Off(l, i + 1) == Off(l, i) + |EntryOf(l, i)|
  {
  }

  lemma ValueIn(data: Bytes, at: nat, limit: nat, entry: Bytes, value: Bytes, later: Bytes)
    requires at <= limit <= |data| && data[at..limit] == entry + later
    requires exists front :: entry == front + value
    ensures |value| <= |entry| <= limit - at && data[at + |entry| - |value|..at + |entry|] == value
  {
    var s, n, e := data[at..limit], |value|, |entry|;
    assert s[..e] == entry;
    assert data[at..at + e] == s[..e];
    assert data[at + e - n..at + e] == data[at..at + e][e - n..];
  }
}
