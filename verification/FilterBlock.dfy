/** filter_block.cc over the filter policy of dbformat.cc: one filter for every 2 KB of data,
    made of the user keys of the blocks that begin there. */
module FilterBlock {
  import opened DbFormat
  import opened Coding
  import opened Block
  import opened Comparators
  import opened Bloom
  import opened Bits

  const kFilterBaseLg: nat := 11
  const kFilterBase: nat := 2048

  function UsersOf(keys: seq<Bytes>): (r: seq<Bytes>)
    ensures |r| == |keys| && forall i :: 0 <= i < |r| ==> r[i] == UserOf(keys[i])
  {
    seq(|keys|, i requires 0 <= i < |keys| => UserOf(keys[i]))
  }

  function Flat(parts: seq<Bytes>): Bytes {
    if parts == [] then [] else Flat(parts[..|parts| - 1]) + parts[|parts| - 1]
  }

  /** Where part `i` begins in the flattened bytes. */
  ghost function PartAt(parts: seq<Bytes>, i: nat): nat
    requires i <= |parts|
  {
    |Flat(parts[..i])|
  }

  lemma {:induction false} FlatSlice(parts: seq<Bytes>, i: nat)
    requires i < |parts|
    ensures PartAt(parts, i) + |parts[i]| == PartAt(parts, i + 1) <= |Flat(parts)|
    ensures Flat(parts)[PartAt(parts, i)..PartAt(parts, i + 1)] == parts[i]
    decreases |parts|
  {
    var n := |parts| - 1;
    assert parts[..i + 1][..i] == parts[..i];
    if i == n {
      assert parts[..i + 1] == parts;
    } else {
      var front := parts[..n];
      FlatSlice(front, i);
      assert front[..i] == parts[..i] && front[..i + 1] == parts[..i + 1];
      SliceOfPrefix(Flat(front), Flat(parts), PartAt(parts, i), PartAt(parts, i + 1));
    }
  }

  lemma FlatAppend(parts: seq<Bytes>, p: Bytes)
    ensures Flat(parts + [p]) == Flat(parts) + p
    ensures forall i: nat :: i <= |parts| ==> PartAt(parts + [p], i) == PartAt(parts, i)
  {
    assert (parts + [p])[..|parts|] == parts;
    forall i: nat | i <= |parts|
      ensures PartAt(parts + [p], i) == PartAt(parts, i)
    {
      assert (parts + [p])[..i] == parts[..i];
    }
  }

  // ---------------------------------------------------------------- what a filter block is

  /** The filters for the key lists `filters`: none for an empty list. */
  ghost predicate PartsOk(hash: Hash, bitsPerKey: nat, filters: seq<seq<Bytes>>, parts: seq<Bytes>) {
    |parts| == |filters| && forall i :: 0 <= i < |parts| ==> PartOk(hash, bitsPerKey, filters[i], parts[i])
  }

  ghost predicate PartOk(hash: Hash, bitsPerKey: nat, keys: seq<Bytes>, part: Bytes) {
    if keys == [] then part == [] else IsFilter(hash, bitsPerKey, UsersOf(keys), part)
  }

  /** Part `i` begins at `offsets[i]`. */
  ghost predicate OffsetsOk(parts: seq<Bytes>, offsets: seq<nat>) {
    |offsets| == |parts| && forall i :: 0 <= i < |offsets| ==> offsets[i] == PartAt(parts, i)
  }

  /** The stored block: the filters, where they begin, where those offsets begin, 11. */
  ghost predicate IsFilterBlock(hash: Hash, bitsPerKey: nat, filters: seq<seq<Bytes>>, contents: Bytes) {
    exists parts, offsets :: StoredAs(hash, bitsPerKey, filters, parts, offsets, contents)
  }

  ghost predicate StoredAs(hash: Hash, bitsPerKey: nat, filters: seq<seq<Bytes>>, parts: seq<Bytes>, offsets: seq<nat>, contents: Bytes) {
    && PartsOk(hash, bitsPerKey, filters, parts) && OffsetsOk(parts, offsets) && |Flat(parts)| <= MAX32
    && (forall i :: 0 <= i < |offsets| ==> offsets[i] <= MAX32)
    && contents == Flat(parts) + Fixed32s(offsets) + EncodeFixed32(|Flat(parts)|) + [kFilterBaseLg]
  }

  /** The key lists after some steps of building: nothing is taken out of its list, and the
      list being collected becomes the next one. */
  ghost predicate Grown(filters: seq<seq<Bytes>>, pending: seq<Bytes>, filters': seq<seq<Bytes>>, pending': seq<Bytes>) {
    || (filters' == filters && pending <= pending')
    || (|filters| < |filters'| && filters <= filters' && filters'[|filters|] == pending)
  }

  // ---------------------------------------------------------------- the builder

  /** The keys cut out of the flattened bytes; InternalFilterPolicy::CreateFilter then takes
      their user keys. */
  method MakeKeys(keys: Bytes, start: seq<nat>, ghost pending: seq<Bytes>) returns (tmpKeys: seq<Bytes>)
    requires keys == Flat(pending) && OffsetsOk(pending, start)
    ensures tmpKeys == UsersOf(pending)
  {
    var ends := start + [|keys|];
    tmpKeys := [];
    assert pending[..|pending|] == pending;
    for i := 0 to |start|
      invariant tmpKeys == UsersOf(pending[..i])
    {
      hide Flat;
      FlatSlice(pending, i);
      assert ends[i] == PartAt(pending, i) && ends[i + 1] == PartAt(pending, i + 1);
      tmpKeys := tmpKeys + [UserOf(keys[ends[i]..ends[i + 1]])];
      assert pending[..i + 1] == pending[..i] + [pending[i]];
    }
  }

  lemma NoKeys(hash: Hash, bitsPerKey: nat)
    ensures PartOk(hash, bitsPerKey, [], [])
  {
  }

  lemma NoParts()
    ensures Flat([]) == [] && OffsetsOk([], [])
  {
  }

  lemma PartSize(hash: Hash, bitsPerKey: nat, keys: seq<Bytes>, part: Bytes)
    requires keys != [] && IsFilter(hash, bitsPerKey, UsersOf(keys), part)
    ensures PartOk(hash, bitsPerKey, keys, part) && |part| == BytesFor(|keys|, bitsPerKey) + 1
  {
    hide HoldsKeys, BytesFor;
  }

  /** One filter more, at the end. */
  lemma OneFilterMore(hash: Hash, bitsPerKey: nat, filters: seq<seq<Bytes>>, parts: seq<Bytes>, offsets: seq<nat>,
      keys: seq<Bytes>, part: Bytes)
    requires PartsOk(hash, bitsPerKey, filters, parts) && OffsetsOk(parts, offsets) && PartOk(hash, bitsPerKey, keys, part)
    ensures PartsOk(hash, bitsPerKey, filters + [keys], parts + [part])
    ensures OffsetsOk(parts + [part], offsets + [|Flat(parts)|]) && Flat(parts + [part]) == Flat(parts) + part
  {
    hide PartOk;
    FlatAppend(parts, part);
    assert parts[..|parts|] == parts;
  }

  class FilterBlockBuilder {
    const hash: Hash
    const bitsPerKey: nat
    var keys: Bytes
    var start: seq<nat>
    var result: Bytes
    var filterOffsets: seq<nat>
    ghost var pending: seq<Bytes>
    ghost var filters: seq<seq<Bytes>>
    ghost var parts: seq<Bytes>

    ghost predicate Valid()
      reads this
    {
      && keys == Flat(pending) && OffsetsOk(pending, start)
      && PartsOk(hash, bitsPerKey, filters, parts) && OffsetsOk(parts, filterOffsets) && result == Flat(parts)
    }

    constructor (hash: Hash, bitsPerKey: nat)
      ensures Valid() && this.hash == hash && this.bitsPerKey == bitsPerKey && pending == [] && filters == []
    {
      this.hash, this.bitsPerKey := hash, bitsPerKey;
      keys, start, result, filterOffsets := [], [], [], [];
      pending, filters, parts := [], [], [];
    }

    /** Everything for blocks at or after `blockOffset` goes into filters that are yet to
        be generated; the next key goes into the filter of this block. */
    method StartBlock(blockOffset: nat)
      requires Valid() && blockOffset / kFilterBase >= |filters|
      modifies this
      ensures Valid() && |filters| == blockOffset / kFilterBase
      ensures Grown(old(filters), old(pending), filters, pending)
      ensures forall i :: |old(filters)| < i < |filters| ==> filters[i] == []
      ensures |filters| > |old(filters)| ==> pending == []
      ensures |filters| == |old(filters)| ==> filters == old(filters) && pending == old(pending)
      ensures FinalSize() == old(FinalSize())
    {
      hide PartsOk, OffsetsOk;
      var filterIndex := blockOffset / kFilterBase;
      CountOf();
      while filterIndex > |filterOffsets|
        invariant Valid() && |filterOffsets| == |filters| <= filterIndex
        invariant Grown(old(filters), old(pending), filters, pending)
        invariant |filters| == |old(filters)| ==> filters == old(filters) && pending == old(pending)
        invariant |filters| > |old(filters)| ==> pending == []
        invariant FinalSize() == old(FinalSize())
        invariant forall i :: |old(filters)| < i < |filters| ==> filters[i] == []
        decreases filterIndex - |filters|
      {
        GenerateFilter();
        CountOf();
      }
    }

    lemma CountOf()
      requires Valid()
      ensures |filterOffsets| == |filters| && |start| == |pending|
    {
    }

    method AddKey(key: Bytes)
      requires Valid()
      modifies this
      ensures Valid() && pending == old(pending) + [key] && filters == old(filters)
    {
      FlatAppend(pending, key);
      start := start + [|keys|];
      keys := keys + key;
      assert pending[..|pending|] == pending;
      pending := pending + [key];
    }

    method GenerateFilter()
      requires Valid()
      modifies this
      ensures Valid() && filters == old(filters) + [old(pending)] && pending == []
      ensures FinalSize() == old(FinalSize())
    {
      hide IsFilter, PartsOk, OffsetsOk, Flat, UsersOf, BytesFor;
      CountOf();
      ghost var before := result;
      var numKeys := |start|;
      if numKeys == 0 {
        // Fast path if there are no keys for this filter.
        NoKeys(hash, bitsPerKey);
        OneFilterMore(hash, bitsPerKey, filters, parts, filterOffsets, [], []);
        filterOffsets := filterOffsets + [|result|];
        filters, parts := filters + [[]], parts + [[]];
        return;
      }
      var tmpKeys := MakeKeys(keys, start, pending);
      filterOffsets := filterOffsets + [|result|];
      result := CreateFilter(hash, bitsPerKey, tmpKeys, result);
      ghost var part := result[|before|..];
      assert result == before + part;
      PartSize(hash, bitsPerKey, pending, part);
      OneFilterMore(hash, bitsPerKey, filters, parts, old(filterOffsets), pending, part);
      filters, parts := filters + [pending], parts + [part];
      keys, start, pending := [], [], [];
      NoParts();
    }

    /** The size of the filters when all are made, which has to fit into 32 bits. */
    ghost function FinalSize(): nat
      reads this
    {
      |result| + if pending == [] then 0 else BytesFor(|pending|, bitsPerKey) + 1
    }

    method Finish() returns (r: Bytes)
      requires Valid() && FinalSize() <= MAX32
      modifies this
      ensures IsFilterBlock(hash, bitsPerKey, filters, r)
      ensures filters == if old(pending) == [] then old(filters) else old(filters) + [old(pending)]
      ensures |r| <= MAX32 + 4 * |filters| + 5
    {
      hide IsFilter, PartsOk, OffsetsOk, EncodeFixed32;
      CountOf();
      if |start| != 0 {
        GenerateFilter();
        CountOf();
      }
      OffsetsBelow(parts, filterOffsets);
      var arrayOffset := |result|;
      result := AppendWords(result, filterOffsets);
      result := result + EncodeFixed32(arrayOffset);
      result := result + [kFilterBaseLg];
      r := result;
      assert StoredAs(hash, bitsPerKey, filters, parts, filterOffsets, r);
    }
  }

  lemma OffsetsBelow(parts: seq<Bytes>, offsets: seq<nat>)
    requires OffsetsOk(parts, offsets)
    ensures forall i :: 0 <= i < |offsets| ==> offsets[i] <= |Flat(parts)|
  {
    forall i | 0 <= i < |offsets|
      ensures offsets[i] <= |Flat(parts)|
    {
      FlatSlice(parts, i);
    }
  }

  // ---------------------------------------------------------------- the reader

  /** What KeyMayMatch answers about any bytes; anything malformed may match. */
  predicate Says(hash: Hash, contents: Bytes, blockOffset: nat, key: Bytes) {
    var n := |contents|;
    if n < 5 then true
    else
      var offset: nat := DecodeFixed32(contents[n - 5..]);
      var index := Shifted(blockOffset, contents[n - 1]);
      if offset > n - 5 || index >= (n - 5 - offset) / 4 then true
      else
        var start: nat, limit: nat := WordAt(contents, offset + 4 * index), WordAt(contents, offset + 4 * index + 4);
        if start <= limit <= offset then MayMatch(hash, UserOf(key), contents[start..limit]) else start != limit
  }

  /** n >> lg. */
  function Shifted(n: nat, lg: nat): nat
    decreases lg
  {
    if lg == 0 then n else Shifted(n / 2, lg - 1)
  }

  lemma ShiftedBase(off: nat)
    ensures Shifted(off, kFilterBaseLg) == off / kFilterBase
  {
    assert Shifted(off, 11) == Shifted(off / 8, 8);
    assert Shifted(off / 8, 8) == Shifted(off / 64, 5);
    assert Shifted(off / 64, 5) == Shifted(off / 512, 2);
  }

  function WordAt(s: Bytes, i: nat): nat
    requires i + 4 <= |s|
  {
    DecodeFixed32(s[i..])
  }

  /** The word of four bytes at `i`. */
  ghost predicate HoldsAt(s: Bytes, i: nat, w: nat) {
    i + 4 <= |s| && w < 0x1_0000_0000 && s[i..i + 4] == EncodeFixed32(w)
  }

  lemma WordThere(s: Bytes, i: nat)
    requires i + 4 <= |s|
    ensures HoldsAt(s, i, WordAt(s, i))
  {
    Fixed32Inverse(s[i..i + 4]);
    assert DecodeFixed32(s[i..]) == DecodeFixed32(s[i..i + 4]) by {
      hide EncodeFixed32;
      assert s[i..][0] == s[i] && s[i..][1] == s[i + 1] && s[i..][2] == s[i + 2] && s[i..][3] == s[i + 3];
    }
  }

  /** Whatever the bytes, only a filter denies a key: the one that the block says is there for
      the offset, between `start` and `limit`.  It is empty, or it lies before the offsets and
      does not match.  Anything else may match. */
  lemma OnlyFiltersDeny(hash: Hash, contents: Bytes, blockOffset: nat, key: Bytes)
    returns (offset: nat, i: nat, start: nat, limit: nat)
    requires !Says(hash, contents, blockOffset, key)
    ensures |contents| >= 5 && HoldsAt(contents, |contents| - 5, offset) && i == blockOffset / TwoTo(contents[|contents| - 1])
    ensures offset + 4 * i + 8 <= |contents| - 1
    ensures HoldsAt(contents, offset + 4 * i, start) && HoldsAt(contents, offset + 4 * i + 4, limit)
    ensures start == limit || (start <= limit <= offset && !MayMatch(hash, UserOf(key), contents[start..limit]))
  {
    hide MayMatch, DecodeFixed32, HoldsAt;
    var n := |contents|;
    i := Shifted(blockOffset, contents[n - 1]);
    offset := WordAt(contents, n - 5);
    ShiftedIs(blockOffset, contents[n - 1]);
    start, limit := WordAt(contents, offset + 4 * i), WordAt(contents, offset + 4 * i + 4);
    WordThere(contents, n - 5);
    WordThere(contents, offset + 4 * i);
    WordThere(contents, offset + 4 * i + 4);
  }

  lemma {:induction false} ShiftedIs(n: nat, lg: nat)
    ensures Shifted(n, lg) == n / TwoTo(lg)
    decreases lg
  {
    if lg > 0 {
      ShiftedIs(n / 2, lg - 1);
      HalfOf(n, TwoTo(lg - 1));
    }
  }

  lemma HalfOf(n: nat, m: nat)
    requires m > 0
    ensures n / 2 / m == n / (2 * m)
  {
    var q, r := n / 2 / m, n / 2 % m;
    assert n / 2 == q * m + r && n == 2 * (n / 2) + n % 2;
    assert n == q * (2 * m) + (2 * r + n % 2) && 2 * r + n % 2 < 2 * m;
    DivisionIsUnique(n, q, 2 * r + n % 2, 2 * m);
  }

  class FilterBlockReader {
    const hash: Hash
    const data: Bytes
    const offset: nat
    const num: nat
    const baseLg: nat

    ghost predicate Reads(contents: Bytes) {
      var n := |contents|;
      if n < 5 || DecodeFixed32(contents[n - 5..]) > n - 5 then num == 0
      else
        && data == contents && offset == DecodeFixed32(contents[n - 5..]) && baseLg == contents[n - 1]
        && num == (n - 5 - offset) / 4
    }

    constructor (hash: Hash, contents: Bytes)
      ensures this.hash == hash && Reads(contents)
    {
      hide DecodeFixed32;
      this.hash := hash;
      data, offset, num, baseLg := contents, 0, 0, 0;
      var n := |contents|;
      if n >= 5 {
        baseLg := contents[n - 1];
        var lastWord: nat := DecodeFixed32(contents[n - 5..]);
        if lastWord <= n - 5 {
          offset := lastWord;
          num := (n - 5 - lastWord) / 4;
        }
      }
    }

    method KeyMayMatch(blockOffset: nat, key: Bytes, ghost contents: Bytes) returns (r: bool)
      requires Reads(contents)
      ensures r == Says(hash, contents, blockOffset, key)
    {
      hide DecodeFixed32, MayMatch, Shifted;
      var index := Shifted(blockOffset, baseLg);
      if index < num {
        var start, limit := WordAt(data, offset + 4 * index), WordAt(data, offset + 4 * index + 4);
        if start <= limit && limit <= offset {
          r := Bloom.KeyMayMatch(hash, UserOf(key), data[start..limit]);
          return;
        } else if start == limit {
          return false;
        }
      }
      return true;
    }
  }

  /** The words after the filters: where each begins, and after them where they begin. */
  lemma StoredWords(hash: Hash, bitsPerKey: nat, filters: seq<seq<Bytes>>, parts: seq<Bytes>, offsets: seq<nat>, c: Bytes)
    requires StoredAs(hash, bitsPerKey, filters, parts, offsets, c)
    ensures |offsets| == |filters| == |parts| && |c| == |Flat(parts)| + 4 * |offsets| + 5
    ensures DecodeFixed32(c[|c| - 5..]) == |Flat(parts)| && c[|c| - 1] == kFilterBaseLg
    ensures forall i :: 0 <= i < |offsets| ==> WordAt(c, |Flat(parts)| + 4 * i) == offsets[i]
    ensures WordAt(c, |Flat(parts)| + 4 * |offsets|) == |Flat(parts)|
  {
    hide EncodeFixed32, DecodeFixed32, Fixed32s, PartsOk, Flat;
    assert |parts| == |filters| by {
      PartsCount(hash, bitsPerKey, filters, parts);
    }
    var flat, words, last := Flat(parts), Fixed32s(offsets), EncodeFixed32(|Flat(parts)|);
    assert c == flat + (words + (last + [kFilterBaseLg]));
    assert c[|c| - 5..] == last + [kFilterBaseLg];
    Fixed32RoundTrip(|Flat(parts)|, [kFilterBaseLg]);
    forall i | 0 <= i < |offsets|
      ensures WordAt(c, |Flat(parts)| + 4 * i) == offsets[i]
    {
      Fixed32sAt(offsets, i, last + [kFilterBaseLg]);
      assert c[|flat| + 4 * i..] == (words + (last + [kFilterBaseLg]))[4 * i..];
    }
  }

  lemma PartsCount(hash: Hash, bitsPerKey: nat, filters: seq<seq<Bytes>>, parts: seq<Bytes>)
    requires PartsOk(hash, bitsPerKey, filters, parts)
    ensures |parts| == |filters|
    ensures forall i :: 0 <= i < |parts| ==> PartOk(hash, bitsPerKey, filters[i], parts[i])
  {
  }

  /** A stored filter block answers for block offset `off` from the filter of its 2 KB, which
      knows every user key of its list; a list that is empty matches nothing, and offsets
      past the last filter match everything. */
  lemma FilterBlockReads(hash: Hash, bitsPerKey: nat, filters: seq<seq<Bytes>>, c: Bytes, off: nat, key: Bytes)
    requires IsFilterBlock(hash, bitsPerKey, filters, c)
    ensures off / kFilterBase >= |filters| ==> Says(hash, c, off, key)
    ensures off / kFilterBase < |filters| && UserOf(key) in UsersOf(filters[off / kFilterBase]) ==> Says(hash, c, off, key)
    ensures off / kFilterBase < |filters| && filters[off / kFilterBase] == [] ==> !Says(hash, c, off, key)
  {
    hide IsFilter, MayMatch, PartsOk, DecodeFixed32, WordAt, Fixed32s, EncodeFixed32, Shifted, UsersOf, Flat, PartOk;
    var parts, offsets :| StoredAs(hash, bitsPerKey, filters, parts, offsets, c);
    StoredWords(hash, bitsPerKey, filters, parts, offsets, c);
    var i := off / kFilterBase;
    ShiftedBase(off);
    if i < |filters| {
      FlatSlice(parts, i);
      PartsCount(hash, bitsPerKey, filters, parts);
      NextOffset(parts, offsets, i);
      assert c[..|Flat(parts)|] == Flat(parts);
      assert c[PartAt(parts, i)..PartAt(parts, i + 1)] == parts[i];
      PartAnswers(hash, bitsPerKey, filters[i], parts[i], key);
    }
  }

  lemma NextOffset(parts: seq<Bytes>, offsets: seq<nat>, i: nat)
    requires OffsetsOk(parts, offsets) && i < |parts|
    ensures PartAt(parts, i + 1) == if i + 1 < |offsets| then offsets[i + 1] else |Flat(parts)|
  {
    assert parts[..|parts|] == parts;
  }

  lemma PartAnswers(hash: Hash, bitsPerKey: nat, keys: seq<Bytes>, part: Bytes, key: Bytes)
    requires PartOk(hash, bitsPerKey, keys, part)
    ensures UserOf(key) in UsersOf(keys) ==> MayMatch(hash, UserOf(key), part)
    ensures keys == [] ==> !MayMatch(hash, UserOf(key), part)
  {
    hide IsFilter;
    if UserOf(key) in UsersOf(keys) {
      NoFalseNegatives(hash, bitsPerKey, UsersOf(keys), part, UserOf(key));
    }
  }
}
