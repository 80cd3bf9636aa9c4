/** What the log reader makes of a file whose bytes have changed: no changed fragment is
    taken for a good one, and the damage stays within its block. */
module LogDamage {
  import opened DbFormat
  import opened Coding
  import opened Log

  // ---------------------------------------------------------------- one fragment

  /** A whole fragment of which one byte other than its length has changed is a bad record:
      the rest of the block is dropped with it, and reading goes on in the next block. */
  lemma DamagedPhysical(step: CrcStep, file: Bytes, p: nat, t: Byte, payload: Bytes, j: nat, b: Byte)
    requires Injective(step)
    requires Leftover(p) >= kHeaderSize && |payload| <= Avail(p) && 1 <= t <= 4
    requires p + kHeaderSize + |payload| <= |file|
    requires file[p..p + kHeaderSize + |payload|] == Physical(step, t, payload)
    requires j < kHeaderSize + |payload| && j != 4 && j != 5 && b != file[p + j]
    ensures var r := ReadPhysical(step, true, file[p + j := b], p);
            && r.kind == kBadRecord && r.payload == [] && r.pos == Min(BlockEnd(p), |file|)
            && (payload != [] || j != 6 ==> r.drops == [r.pos - p])
  {
    hide Physical, Mask, Unmask, Extend, DecodeFixed32, Injective;
    var q, file' := p + kHeaderSize + |payload|, file[p + j := b];
    var r := Physical(step, t, payload);
    PhysicalLayout(step, t, payload);
    assert forall i :: 0 <= i < |r| ==> file[p..q][i] == r[i];
    assert file'[p + 4] == r[4] && file'[p + 5] == r[5];
    var data, data' := [t] + payload, file'[p + 6..q];
    UnmaskMask(CrcValue(step, data));
    if j < 4 {
      assert data' == r[6..] == data;
      WordChanged(file', p, r, j, b);
      UnmaskApart(DecodeFixed32(file'[p..]), DecodeFixed32(r));
    } else {
      assert data' == r[6..][j - 6 := b] == data[j - 6 := b];
      OneByteChanged(step, data, j - 6, b);
      SameWord(file'[p..], r);
    }
    assert CrcValue(step, data') != Unmask(DecodeFixed32(file'[p..]));
  }

  lemma WordChanged(file': Bytes, p: nat, r: Bytes, j: nat, b: Byte)
    requires p + 4 <= |file'| && |r| >= 4 && j < 4 && b != r[j]
    requires forall i :: 0 <= i < 4 ==> file'[p + i] == if i == j then b else r[i]
    ensures DecodeFixed32(file'[p..]) != DecodeFixed32(r)
  {
    var s := file'[p..];
    Fixed32Inverse(s[..4]);
    Fixed32Inverse(r[..4]);
    SameWord(s, s[..4]);
    SameWord(r, r[..4]);
    assert s[..4][j] != r[..4][j];
  }

  lemma UnmaskApart(a: Word, b: Word)
    requires a != b
    ensures Unmask(a) != Unmask(b)
  {
    MaskUnmask(a);
    MaskUnmask(b);
  }

  // ---------------------------------------------------------------- the rest of the file

  /** Reading looks at nothing before the position it begins at. */
  lemma {:induction false} PhysicalFromHere(step: CrcStep, checksum: bool, f: Bytes, g: Bytes, p: nat)
    requires p <= |f| == |g| && f[p..] == g[p..]
    ensures ReadPhysical(step, checksum, f, p) == ReadPhysical(step, checksum, g, p)
    decreases |f| - p
  {
    hide CrcValue, Unmask, DecodeFixed32, KindOf;
    var e := Min(BlockEnd(p), |f|);
    if e - p < kHeaderSize {
      if BlockEnd(p) <= |f| {
        SameLater(f, g, p, e);
        PhysicalFromHere(step, checksum, f, g, e);
      }
    } else {
      assert forall i :: p <= i < |f| ==> f[i] == f[p..][i - p] == g[p..][i - p] == g[i];
      var length := f[p + 4] as nat + f[p + 5] as nat * 0x100;
      if kHeaderSize + length <= e - p {
        assert f[p + 6..p + kHeaderSize + length] == g[p + 6..p + kHeaderSize + length];
        assert f[p + kHeaderSize..p + kHeaderSize + length] == g[p + kHeaderSize..p + kHeaderSize + length];
      }
    }
  }

  lemma SameLater(f: Bytes, g: Bytes, p: nat, q: nat)
    requires p <= q <= |f| == |g| && f[p..] == g[p..]
    ensures f[q..] == g[q..]
  {
    assert f[q..] == f[p..][q - p..] && g[q..] == g[p..][q - p..];
  }

  lemma {:induction false} RecordFromHere(step: CrcStep, checksum: bool, f: Bytes, g: Bytes, p: nat, inside: bool, scratch: Bytes)
    requires p <= |f| == |g| && f[p..] == g[p..]
    ensures ReadRecordAt(step, checksum, f, p, inside, scratch) == ReadRecordAt(step, checksum, g, p, inside, scratch)
    decreases |f| - p
  {
    hide ReadPhysical, Assemble;
    PhysicalFromHere(step, checksum, f, g, p);
    var ph := ReadPhysical(step, checksum, f, p);
    match Assemble(ph.kind, ph.payload, inside, scratch)
    case Done(_, _) =>
    case More(inside', scratch', _) =>
      MoreIsNotEof(ph.kind, ph.payload, inside, scratch);
      SameLater(f, g, p, ph.pos);
      RecordFromHere(step, checksum, f, g, ph.pos, inside', scratch');
  }

  lemma MoreIsNotEof(kind: nat, payload: Bytes, inside: bool, scratch: Bytes)
    requires Assemble(kind, payload, inside, scratch).More?
    ensures kind != kEof
  {
  }

  // ---------------------------------------------------------------- the next block

  /** Where the first fragment of a record that is added at `p` goes. */
  function FirstFragment(p: nat): nat {
    if Leftover(p) < kHeaderSize then p + Leftover(p) else p
  }

  /** The fragments of a record whose beginning is not known are passed over. */
  lemma {:induction false} PassedOver(step: CrcStep, checksum: bool, file: Bytes, p: nat, data: Bytes)
    requires Holds(file, p, Encoding(step, p, data, false)) && p + |Encoding(step, p, data, false)| <= |file|
    ensures var q := p + |Encoding(step, p, data, false)|;
            var r, later := ReadRecordAt(step, checksum, file, p, false, []), ReadRecordAt(step, checksum, file, q, false, []);
            r.record == later.record && r.pos == later.pos
    decreases |data|, if Leftover(p) <= kHeaderSize then 1 else 0
  {
    hide Encoding, Physical, Holds, ReadPhysical, ReadRecordAt, Leftover, TypeOf;
    var left, enc := Leftover(p), Encoding(step, p, data, false);
    if left < kHeaderSize {
      var more := Encoding(step, p + left, data, false);
      EncodingTrailer(step, p, data, false);
      HoldsParts(file, p, Zeros(left), more);
      TrailerRecord(step, checksum, file, p, false, []);
      PassedOver(step, checksum, file, p + left, data);
      assert p + |enc| == p + left + |more|;
    } else {
      var n := Min(|data|, Avail(p));
      var t, q := TypeOf(false, n == |data|), p + kHeaderSize + n;
      var more := if n == |data| then [] else Encoding(step, q, data[n..], false);
      EncodingFragment(step, p, data, false, n);
      HoldsParts(file, p, Physical(step, t, data[..n]), more);
      OneFragment(step, checksum, file, p, t, data[..n]);
      if n < |data| {
        LeftoverAfter(p);
        PassedOver(step, checksum, file, q, data[n..]);
      }
      assert p + |enc| == q + |more|;
    }
  }

  lemma OneFragment(step: CrcStep, checksum: bool, file: Bytes, p: nat, t: Byte, payload: Bytes)
    requires Leftover(p) >= kHeaderSize && |payload| <= Avail(p) && (t == TypeOf(false, false) || t == TypeOf(false, true))
    requires p + kHeaderSize + |payload| <= |file|
    requires file[p..p + kHeaderSize + |payload|] == Physical(step, t, payload)
    ensures var q := p + kHeaderSize + |payload|;
            var r, later := ReadRecordAt(step, checksum, file, p, false, []), ReadRecordAt(step, checksum, file, q, false, []);
            r.record == later.record && r.pos == later.pos
  {
    hide ReadPhysical, Physical, Leftover;
    WholePhysical(step, checksum, file, p, t, payload);
  }

  /** A record that a block boundary cuts goes on right at the boundary; only if nothing of
      it but the trailer stands before, it begins there. */
  lemma {:induction false} CutAtBoundary(step: CrcStep, p: nat, data: Bytes, begin: bool, e: nat)
    returns (front: Bytes, data': Bytes, begin': bool)
    requires e % kBlockSize == 0 && p < e < p + |Encoding(step, p, data, begin)|
    ensures |front| == e - p && Encoding(step, p, data, begin) == front + Encoding(step, e, data', begin')
    ensures begin' ==> begin && data' == data && e == FirstFragment(p)
    ensures begin && !begin' ==> FirstFragment(p) < e
    decreases |data|, if Leftover(p) <= kHeaderSize then 1 else 0
  {
    hide Encoding, Physical, Leftover, TypeOf;
    var left := Leftover(p);
    NextBoundary(p, e);
    if left < kHeaderSize {
      EncodingTrailer(step, p, data, begin);
      if e == p + left {
        front, data', begin' := Zeros(left), data, begin;
      } else {
        var more, d, b := CutAtBoundary(step, p + left, data, begin, e);
        LeftoverAfter(p);
        BoundaryLater(p + left, e);
        front, data', begin' := Zeros(left) + more, d, b;
        assert Zeros(left) + (more + Encoding(step, e, d, b)) == front + Encoding(step, e, d, b);
      }
    } else {
      var n := Min(|data|, Avail(p));
      var q := p + kHeaderSize + n;
      EncodingFragment(step, p, data, begin, n);
      var first := Physical(step, TypeOf(begin, n == |data|), data[..n]);
      assert n < |data| && q == p + left;
      if e == q {
        front, data', begin' := first, data[n..], false;
      } else {
        var more, d, b := CutAtBoundary(step, q, data[n..], false, e);
        front, data', begin' := first + more, d, b;
        assert first + (more + Encoding(step, e, d, b)) == front + Encoding(step, e, d, b);
      }
    }
  }

  lemma NextBoundary(p: nat, e: nat)
    requires e % kBlockSize == 0 && p < e
    ensures p + Leftover(p) <= e
  {
  }

  lemma BoundaryLater(p: nat, e: nat)
    requires p < e && Leftover(p) == kBlockSize
    ensures FirstFragment(p) == p < e
  {
  }

  /** Where reading begins again: record `m` is the first whose first fragment is at `e` or
      after it. */
  ghost predicate FirstFrom(step: CrcStep, records: seq<Bytes>, e: nat, m: nat) {
    && m <= |records|
    && (forall k: nat :: k < m ==> Begins(step, records, k) < e)
    && (m < |records| ==> e <= Begins(step, records, m))
  }

  ghost function Begins(step: CrcStep, records: seq<Bytes>, k: nat): nat
    requires k <= |records|
  {
    FirstFragment(|FileOf(step, records[..k])|)
  }

  lemma {:induction false} AllFromHere(step: CrcStep, checksum: bool, f: Bytes, g: Bytes, p: nat)
    requires p <= |f| == |g| && f[p..] == g[p..]
    ensures ReadAllFrom(step, checksum, f, p) == ReadAllFrom(step, checksum, g, p)
    decreases |f| - p
  {
    hide ReadRecordAt;
    RecordFromHere(step, checksum, f, g, p, false, []);
    var r := ReadRecordAt(step, checksum, f, p, false, []);
    if r.record.Some? {
      ReadRecordAdvances(step, checksum, f, p, false, []);
      SameLater(f, g, p, r.pos);
      AllFromHere(step, checksum, f, g, r.pos);
    }
  }

  /** Records begin one after another. */
  lemma BeginsBeforeNext(step: CrcStep, records: seq<Bytes>, k: nat)
    requires k < |records|
    ensures |FileOf(step, records[..k])| <= Begins(step, records, k) < |FileOf(step, records[..k + 1])|
  {
    hide Physical, Encoding, FileOf;
    NextRecord(step, records, k);
    EncodingLength(step, |FileOf(step, records[..k])|, records[k], true);
  }

  lemma EncodingLength(step: CrcStep, p: nat, data: Bytes, begin: bool)
    ensures p + |Encoding(step, p, data, begin)| >= FirstFragment(p) + kHeaderSize
  {
    hide Encoding, Leftover;
    var left := Leftover(p);
    if left < kHeaderSize {
      EncodingTrailer(step, p, data, begin);
      LeftoverAfter(p);
      EncodingFragment(step, p + left, data, begin, Min(|data|, Avail(p + left)));
    } else {
      EncodingFragment(step, p, data, begin, Min(|data|, Avail(p)));
    }
  }

  lemma {:induction false} BeginsBefore(step: CrcStep, records: seq<Bytes>, k: nat, e: nat)
    requires k <= |records| && |FileOf(step, records[..k])| <= e
    ensures forall j: nat :: j < k ==> Begins(step, records, j) < e
    decreases k
  {
    hide FileOf, Begins;
    if k > 0 {
      BeginsBeforeNext(step, records, k - 1);
      BeginsBefore(step, records, k - 1, e);
    }
  }

  /** The rest of the records, from where one begins. */
  lemma RecordsFrom(step: CrcStep, checksum: bool, records: seq<Bytes>, m: nat)
    requires m <= |records|
    ensures |FileOf(step, records[..m])| <= |FileOf(step, records)|
    ensures ReadAllFrom(step, checksum, FileOf(step, records), |FileOf(step, records[..m])|).records == records[m..]
  {
    hide FileOf, ReadAllFrom;
    var file := FileOf(step, records);
    assert records[..|records|] == records && file[..|file|] == file;
    TruncatedFrom(step, checksum, records, |file|, |records|, m);
    assert records[m..|records|] == records[m..];
  }

  /** Whatever happened to a log before a block boundary, reading from the boundary on gives
      exactly the records that begin there or later. */
  lemma ReadsOn(step: CrcStep, checksum: bool, records: seq<Bytes>, damaged: Bytes, e: nat) returns (m: nat)
    requires |damaged| == |FileOf(step, records)| && e <= |damaged| && e % kBlockSize == 0
    requires damaged[e..] == FileOf(step, records)[e..]
    ensures FirstFrom(step, records, e, m)
    ensures ReadAllFrom(step, checksum, damaged, e).records == records[m..]
  {
    hide FileOf, ReadAllFrom, Begins;
    var file := FileOf(step, records);
    AllFromHere(step, checksum, damaged, file, e);
    var k := WholeExists(step, records, e);
    var p := |FileOf(step, records[..k])|;
    BeginsBefore(step, records, k, e);
    RecordsFrom(step, checksum, records, k);
    if k == |records| {
      m := k;
      assert records[..k] == records;
    } else {
      BeginsBeforeNext(step, records, k);
      if p == e {
        m := k;
      } else {
        m := ReadsOnInside(step, checksum, records, e, k);
      }
    }
  }

  /** The case of a boundary inside record `k`. */
  lemma ReadsOnInside(step: CrcStep, checksum: bool, records: seq<Bytes>, e: nat, k: nat) returns (m: nat)
    requires k < |records| && e % kBlockSize == 0
    requires |FileOf(step, records[..k])| < e < |FileOf(step, records[..k + 1])|
    ensures e <= |FileOf(step, records)|
    ensures FirstFrom(step, records, e, m)
    ensures ReadAllFrom(step, checksum, FileOf(step, records), e).records == records[m..]
  {
    hide FileOf, Encoding, Leftover, ReadRecordAt, Holds;
    var file, p, next := FileOf(step, records), |FileOf(step, records[..k])|, FileOf(step, records[..k + 1]);
    NextRecord(step, records, k);
    FilePrefix(step, records, k + 1);
    BeginsBefore(step, records, k, e);
    RecordsFrom(step, checksum, records, k + 1);
    var front, data, begin := CutAtBoundary(step, p, records[k], true, e);
    var enc := Encoding(step, e, data, begin);
    assert next[e..] == enc by {
      assert next[p..] == front + enc;
      assert next[e..] == next[p..][e - p..];
    }
    SliceHolds(file, |file|, e, next, enc);
    assert file[..|file|] == file && |next| <= |file| && e + |enc| == |next|;
    if begin {
      m := k;
      EncodingReads(step, checksum, file, e, data, true, []);
      assert [] + data == data;
      assert records[k..] == [records[k]] + records[k + 1..];
    } else {
      m := k + 1;
      PassedOver(step, checksum, file, e, data);
      if m < |records| {
        BeginsBeforeNext(step, records, m);
      }
    }
  }

  // ---------------------------------------------------------------- nothing unaccounted for

  function Sum(ns: seq<nat>): nat {
    if ns == [] then 0 else ns[0] + Sum(ns[1..])
  }

  lemma {:induction false} SumOfBoth(a: seq<nat>, b: seq<nat>)
    ensures Sum(a + b) == Sum(a) + Sum(b)
    decreases |a|
  {
    if a == [] {
      assert a + b == b;
    } else {
      SumOfBoth(a[1..], b);
      assert (a + b)[1..] == a[1..] + b;
    }
  }

  /** The payload bytes and the dropped bytes of all physical reads from `p` on, but not the
      payload of a fragment whose stored type is one of the two kinds the reader keeps for
      itself. */
  function BytesFrom(step: CrcStep, checksum: bool, file: Bytes, p: nat): nat
    requires p <= |file|
    decreases |file| - p
  {
    var ph := ReadPhysical(step, checksum, file, p);
    if ph.kind == kEof then 0
    else (if ph.kind == kBadRecord then 0 else |ph.payload|) + Sum(ph.drops) + BytesFrom(step, checksum, file, ph.pos)
  }

  /** A logical read accounts for every one of these bytes: it is part of the record
      returned or reported as dropped.  Only an unfinished record at the end of the file
      goes unreported. */
  lemma {:induction false} RecordAccounts(step: CrcStep, checksum: bool, file: Bytes, p: nat, inside: bool, scratch: Bytes)
    requires p <= |file|
    ensures var r := ReadRecordAt(step, checksum, file, p, inside, scratch);
            var before := BytesFrom(step, checksum, file, p) + if inside then |scratch| else 0;
            match r.record
            case Some(data) => before == |data| + Sum(r.drops) + BytesFrom(step, checksum, file, r.pos)
            case None => before >= Sum(r.drops)
    decreases |file| - p
  {
    hide ReadPhysical, Assemble;
    var ph := ReadPhysical(step, checksum, file, p);
    EofDropsNothing(step, checksum, file, p);
    Assembled(ph.kind, ph.payload, inside, scratch);
    match Assemble(ph.kind, ph.payload, inside, scratch)
    case Done(_, drops) => SumOfBoth(ph.drops, drops);
    case More(inside', scratch', drops) =>
      MoreIsNotEof(ph.kind, ph.payload, inside, scratch);
      RecordAccounts(step, checksum, file, ph.pos, inside', scratch');
      SumOfBoth(ph.drops + drops, ReadRecordAt(step, checksum, file, ph.pos, inside', scratch').drops);
      SumOfBoth(ph.drops, drops);
  }

  lemma {:induction false} EofDropsNothing(step: CrcStep, checksum: bool, file: Bytes, p: nat)
    requires p <= |file|
    ensures var ph := ReadPhysical(step, checksum, file, p); ph.kind == kEof ==> ph.drops == []
    decreases |file| - p
  {
    hide CrcValue, Unmask, DecodeFixed32;
    var e := Min(BlockEnd(p), |file|);
    if e - p < kHeaderSize && BlockEnd(p) <= |file| {
      EofDropsNothing(step, checksum, file, e);
    }
  }

  /** One step of putting a record together loses nothing unreported, but for the payload of
      a fragment stored as a bad record. */
  lemma Assembled(kind: nat, payload: Bytes, inside: bool, scratch: Bytes)
    ensures var before := (if kind == kBadRecord then 0 else |payload|) + if inside then |scratch| else 0;
            match Assemble(kind, payload, inside, scratch)
            case Done(Some(data), drops) => kind != kEof && before == |data| + Sum(drops)
            case Done(None, drops) => kind == kEof && drops == []
            case More(inside', scratch', drops) => before == Sum(drops) + if inside' then |scratch'| else 0
  {
    if kind != kEof && inside {
      assert Sum([|scratch|]) == |scratch| + Sum([|scratch|][1..]);
    }
  }

  /** The bytes that a step has delivered, reported or kept for later. */
  ghost function Kept(a: Assembly): nat {
    match a
    case Done(record, drops) => (if record.Some? then |record.value| else 0) + Sum(drops)
    case More(inside, scratch, drops) => (if inside then |scratch| else 0) + Sum(drops)
  }

  /** All bytes are kept, except exactly in these cases: a stored type of 6 with a payload,
      and the end of the file, real or a stored type of 5, with anything read before it. */
  lemma AllKeptIff(kind: nat, payload: Bytes, inside: bool, scratch: Bytes)
    ensures var carried := if inside then |scratch| else 0;
            |payload| + carried == Kept(Assemble(kind, payload, inside, scratch)) <==>
            !(kind == kBadRecord && payload != []) && !(kind == kEof && |payload| + carried > 0)
  {
    Assembled(kind, payload, inside, scratch);
  }

  /** What the accounting leaves out is really lost without a word: a whole fragment, its
      checksum right, whose type is 5 or 6 reads as the end of the file or as a bad record,
      and no drop is reported. */
  lemma UnreportedFragment(step: CrcStep, checksum: bool, t: Byte, payload: Bytes)
    requires (t == 5 || t == 6) && |payload| <= Avail(0)
    ensures var file := Physical(step, t, payload);
            && ReadPhysical(step, checksum, file, 0) == PhysicalRead(t, payload, |file|, [])
            && ReadRecordAt(step, checksum, file, 0, false, []) == RecordRead(None, |file|, [])
  {
    hide ReadPhysical, Physical;
    var file := Physical(step, t, payload);
    assert file[0..|file|] == file;
    WholePhysical(step, checksum, file, 0, t, payload);
    NoMoreRecords(step, checksum, file);
  }
}
