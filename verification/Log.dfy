/** The log file: records cut into fragments that never cross a block boundary, each
    with a checksummed header, and the reader that puts them together again. */
module Log {
  import opened DbFormat
  import opened Coding

  const kBlockSize: nat := 32768
  const kHeaderSize: nat := 7

  const kZeroType: nat := 0
  const kFullType: nat := 1
  const kFirstType: nat := 2
  const kMiddleType: nat := 3
  const kLastType: nat := 4
  // Two more values that only the reader uses.
  const kEof: nat := 5
  const kBadRecord: nat := 6

  // ---------------------------------------------------------------- format

  function TypeOf(begin: bool, end: bool): (t: Byte)
    ensures 1 <= t <= 4
  {
    if begin && end then kFullType
    else if begin then kFirstType
    else if end then kLastType
    else kMiddleType
  }

  /** One physical record: checksum, length, type, payload. */
  function Physical(step: CrcStep, t: Byte, payload: Bytes): (r: Bytes)
    requires |payload| <= 0xffff
    ensures |r| == kHeaderSize + |payload|
  {
    var crc := Extend(step, Extend(step, 0, [t]), payload);
    EncodeFixed32(Mask(crc)) + [|payload| % 0x100, |payload| / 0x100, t] + payload
  }

  /** Room left in the block that position `p` falls in. */
  function Leftover(p: nat): (n: nat)
    ensures 1 <= n <= kBlockSize
    ensures (p + n) % kBlockSize == 0
  {
    kBlockSize - p % kBlockSize
  }

  function Avail(p: nat): nat
    requires Leftover(p) >= kHeaderSize
  {
    Leftover(p) - kHeaderSize
  }

  /** What adding a record at file position `p` appends. */
  function Encoding(step: CrcStep, p: nat, data: Bytes, begin: bool): Bytes
    decreases |data|, if Leftover(p) <= kHeaderSize then 1 else 0
  {
    var left := Leftover(p);
    if left < kHeaderSize then
      Zeros(left) + Encoding(step, p + left, data, begin)
    else
      var n := Min(|data|, Avail(p));
      Physical(step, TypeOf(begin, n == |data|), data[..n]) +
      if n == |data| then [] else Encoding(step, p + kHeaderSize + n, data[n..], false)
  }

  lemma AvailIs(p: nat, avail: int)
    requires Leftover(p) == avail + kHeaderSize && avail >= 0
    ensures Avail(p) == avail
  {
  }

  lemma EncodingFragment(step: CrcStep, p: nat, data: Bytes, begin: bool, n: nat)
    requires Leftover(p) >= kHeaderSize && n == Min(|data|, Avail(p))
    ensures Encoding(step, p, data, begin) ==
            Physical(step, TypeOf(begin, n == |data|), data[..n]) +
            if n == |data| then [] else Encoding(step, p + kHeaderSize + n, data[n..], false)
  {
    hide Physical, TypeOf, Leftover, Avail, Zeros;
  }

  lemma EncodingTrailer(step: CrcStep, p: nat, data: Bytes, begin: bool)
    requires Leftover(p) < kHeaderSize
    ensures Encoding(step, p, data, begin) == Zeros(Leftover(p)) + Encoding(step, p + Leftover(p), data, begin)
  {
    hide Physical, TypeOf, Leftover, Avail, Zeros;
  }

  lemma SameOffset(a: nat, b: nat, n: nat)
    requires a % kBlockSize == b % kBlockSize
    ensures (a + n) % kBlockSize == (b + n) % kBlockSize
  {
  }

  lemma LeftoverIs(p: nat, offset: nat)
    requires offset <= kBlockSize && offset % kBlockSize == p % kBlockSize
    ensures offset < kBlockSize ==> offset + Leftover(p) == kBlockSize
    ensures offset == kBlockSize ==> Leftover(p) == kBlockSize
  {
  }

  /** The whole file after adding `records` to an empty one. */
  function FileOf(step: CrcStep, records: seq<Bytes>): Bytes {
    if records == [] then []
    else
      var n := |records| - 1;
      var before := FileOf(step, records[..n]);
      before + Encoding(step, |before|, records[n], true)
  }

  // ---------------------------------------------------------------- reading

  /** End of the block that position `p` falls in. */
  function BlockEnd(p: nat): (e: nat)
    ensures p < e <= p + kBlockSize
  {
    p + Leftover(p)
  }

  lemma BlockEndMonotone(p: nat, q: nat)
    requires p <= q
    ensures BlockEnd(p) <= BlockEnd(q)
  {
  }

  lemma BlockEndIs(p: nat, e: nat)
    requires p < e <= p + kBlockSize && e % kBlockSize == 0
    ensures BlockEnd(p) == e
  {
  }

  datatype PhysicalRead = PhysicalRead(kind: nat, payload: Bytes, pos: nat, drops: seq<nat>)

  /** `header[6]` is a signed char: values from 128 on become huge. */
  function KindOf(t: Byte): nat {
    if t < 128 then t else t as int + 0xffff_ff00
  }

  /** What one physical read at position `p` gives. */
  function ReadPhysical(step: CrcStep, checksum: bool, file: Bytes, p: nat): (r: PhysicalRead)
    requires p <= |file|
    ensures r.pos <= |file|
    ensures r.kind != kEof ==> p < r.pos
    decreases |file| - p
  {
    var lastBlock := BlockEnd(p) > |file|;
    var e := Min(BlockEnd(p), |file|);
    var n := e - p;
    if n < kHeaderSize then
      if lastBlock then PhysicalRead(kEof, [], |file|, []) else ReadPhysical(step, checksum, file, e)
    else
      var length := file[p + 4] as nat + file[p + 5] as nat * 0x100;
      if kHeaderSize + length > n then
        if lastBlock then PhysicalRead(kEof, [], e, []) else PhysicalRead(kBadRecord, [], e, [n])
      else if file[p + 6] == kZeroType && length == 0 then
        PhysicalRead(kBadRecord, [], e, [])
      else if checksum && CrcValue(step, file[p + 6..p + kHeaderSize + length]) != Unmask(DecodeFixed32(file[p..])) then
        PhysicalRead(kBadRecord, [], e, [n])
      else
        PhysicalRead(KindOf(file[p + 6]), file[p + kHeaderSize..p + kHeaderSize + length], p + kHeaderSize + length, [])
  }

  datatype RecordRead = RecordRead(record: Option<Bytes>, pos: nat, drops: seq<nat>)

  /** What a physical record does to a logical one being put together. */
  datatype Assembly = Done(record: Option<Bytes>, drops: seq<nat>)
                    | More(inside: bool, scratch: Bytes, drops: seq<nat>)

  function Assemble(kind: nat, payload: Bytes, inside: bool, scratch: Bytes): Assembly {
    var unfinished := if inside && scratch != [] then [|scratch|] else [];
    if kind == kEof then Done(None, [])
    else if kind == kFullType then Done(Some(payload), unfinished)
    else if kind == kFirstType then More(true, payload, unfinished)
    else if kind == kMiddleType && inside then More(true, scratch + payload, [])
    else if kind == kLastType && inside then Done(Some(scratch + payload), [])
    else if kind == kMiddleType || kind == kLastType then More(false, scratch, [|payload|])
    else if kind == kBadRecord then
      if inside then More(false, [], [|scratch|]) else More(false, scratch, [])
    else More(false, [], [|payload| + if inside then |scratch| else 0])
  }

  /** What reading one record from position `p` gives, `inside` and `scratch` being
      the state of a record begun earlier. */
  function ReadRecordAt(step: CrcStep, checksum: bool, file: Bytes, p: nat, inside: bool, scratch: Bytes): (r: RecordRead)
    requires p <= |file|
    ensures r.pos <= |file|
    decreases |file| - p
  {
    var ph := ReadPhysical(step, checksum, file, p);
    match Assemble(ph.kind, ph.payload, inside, scratch)
    case Done(record, drops) => RecordRead(record, ph.pos, ph.drops + drops)
    case More(inside', scratch', drops) =>
      var rest := ReadRecordAt(step, checksum, file, ph.pos, inside', scratch');
      rest.(drops := ph.drops + drops + rest.drops)
  }

  /** With `drops` reported so far, `rest` is what is still missing of `goal`. */
  ghost predicate Remains(goal: RecordRead, before: seq<nat>, rest: RecordRead, drops: seq<nat>) {
    goal.record == rest.record && goal.pos == rest.pos && before + goal.drops == drops + rest.drops
  }

  lemma NothingRead(goal: RecordRead, drops: seq<nat>)
    ensures Remains(goal, drops, goal, drops)
  {
  }

  lemma RecordStep(step: CrcStep, checksum: bool, file: Bytes, p: nat, inside: bool, scratch: Bytes,
                   goal: RecordRead, before: seq<nat>, drops: seq<nat>)
    requires p <= |file| && Remains(goal, before, ReadRecordAt(step, checksum, file, p, inside, scratch), drops)
    ensures var ph := ReadPhysical(step, checksum, file, p);
            match Assemble(ph.kind, ph.payload, inside, scratch)
            case Done(record, more) =>
              goal.record == record && goal.pos == ph.pos && before + goal.drops == drops + ph.drops + more
            case More(inside', scratch', more) =>
              Remains(goal, before, ReadRecordAt(step, checksum, file, ph.pos, inside', scratch'), drops + ph.drops + more)
  {
    hide ReadPhysical, Assemble;
  }

  // ---------------------------------------------------------------- reading back

  lemma PhysicalLayout(step: CrcStep, t: Byte, payload: Bytes)
    requires |payload| <= 0xffff
    ensures var r := Physical(step, t, payload);
            && DecodeFixed32(r) == Mask(CrcValue(step, [t] + payload))
            && r[4] as nat + r[5] as nat * 0x100 == |payload|
            && r[6] == t
            && r[kHeaderSize..] == payload
            && r[6..] == [t] + payload
  {
    var crc := Extend(step, Extend(step, 0, [t]), payload);
    ExtendConcat(step, 0, [t], payload);
    var tail: Bytes := [|payload| % 0x100, |payload| / 0x100, t] + payload;
    Fixed32RoundTrip(Mask(crc), tail);
    assert Physical(step, t, payload) == EncodeFixed32(Mask(crc)) + tail;
  }

  /** A whole physical record is read back with no drop. */
  lemma WholePhysical(step: CrcStep, checksum: bool, file: Bytes, p: nat, t: Byte, payload: Bytes)
    requires Leftover(p) >= kHeaderSize && |payload| <= Avail(p) && 1 <= t < 128
    requires p + kHeaderSize + |payload| <= |file|
    requires file[p..p + kHeaderSize + |payload|] == Physical(step, t, payload)
    ensures ReadPhysical(step, checksum, file, p) == PhysicalRead(t, payload, p + kHeaderSize + |payload|, [])
  {
    hide Physical, Extend, Mask, Unmask, DecodeFixed32;
    var r := Physical(step, t, payload);
    PhysicalLayout(step, t, payload);
    UnmaskMask(CrcValue(step, [t] + payload));
    var q := p + kHeaderSize + |payload|;
    assert forall i :: 0 <= i < |r| ==> file[p..q][i] == r[i];
    assert file[p + 4] == r[4] && file[p + 5] == r[5] && file[p + 6] == r[6];
    assert file[p + 6..q] == r[6..];
    assert file[p + kHeaderSize..q] == r[kHeaderSize..];
    SameWord(file[p..], r);
  }

  lemma SameWord(a: Bytes, b: Bytes)
    requires |a| >= 4 && |b| >= 4 && a[0] == b[0] && a[1] == b[1] && a[2] == b[2] && a[3] == b[3]
    ensures DecodeFixed32(a) == DecodeFixed32(b)
  {
  }

  /** A physical record cut short by the end of the file reads as the end. */
  lemma TornPhysical(step: CrcStep, checksum: bool, file: Bytes, p: nat, t: Byte, payload: Bytes)
    requires Leftover(p) >= kHeaderSize && |payload| <= Avail(p)
    requires p <= |file| < p + kHeaderSize + |payload|
    requires file[p..] == Physical(step, t, payload)[..|file| - p]
    ensures var ph := ReadPhysical(step, checksum, file, p); ph.kind == kEof && ph.drops == []
  {
    hide Physical, Extend, Mask, Unmask, DecodeFixed32;
    var r := Physical(step, t, payload);
    PhysicalLayout(step, t, payload);
    if |file| - p >= kHeaderSize {
      assert file[p..][4] == r[4] && file[p..][5] == r[5];
    }
  }

  /** `file` agrees with `enc` from `p` on, as far as both go. */
  ghost predicate Holds(file: Bytes, p: nat, enc: Bytes) {
    && p <= |file|
    && file[p..Min(|file|, p + |enc|)] == enc[..Min(|file|, p + |enc|) - p]
  }

  lemma HoldsParts(file: Bytes, p: nat, a: Bytes, b: Bytes)
    requires Holds(file, p, a + b)
    ensures p + |a| <= |file| ==> file[p..p + |a|] == a && Holds(file, p + |a|, b)
    ensures |file| < p + |a| ==> file[p..] == a[..|file| - p]
  {
    var m := Min(|file|, p + |a + b|);
    assert file[p..m] == (a + b)[..m - p];
    if p + |a| <= |file| {
      assert forall i :: 0 <= i < |a| ==> file[p..m][i] == a[i];
      assert file[p + |a|..m] == file[p..m][|a|..];
      assert (a + b)[..m - p][|a|..] == b[..m - p - |a|];
    } else {
      assert (a + b)[..m - p] == a[..m - p];
    }
  }

  /** A trailer too short for a header is skipped, or is the end of the file. */
  lemma TrailerPhysical(step: CrcStep, checksum: bool, file: Bytes, p: nat)
    requires p <= |file| && Leftover(p) < kHeaderSize
    ensures p + Leftover(p) <= |file| ==>
              ReadPhysical(step, checksum, file, p) == ReadPhysical(step, checksum, file, p + Leftover(p))
    ensures |file| < p + Leftover(p) ==> ReadPhysical(step, checksum, file, p) == PhysicalRead(kEof, [], |file|, [])
  {
  }

  lemma TrailerRecord(step: CrcStep, checksum: bool, file: Bytes, p: nat, inside: bool, scratch: Bytes)
    requires p <= |file| && Leftover(p) < kHeaderSize
    ensures p + Leftover(p) <= |file| ==>
              ReadRecordAt(step, checksum, file, p, inside, scratch) ==
              ReadRecordAt(step, checksum, file, p + Leftover(p), inside, scratch)
    ensures |file| < p + Leftover(p) ==>
              ReadRecordAt(step, checksum, file, p, inside, scratch) == RecordRead(None, |file|, [])
  {
    hide ReadPhysical, Leftover;
    TrailerPhysical(step, checksum, file, p);
  }

  /** One step of the reader over one step of the writer. */
  lemma FragmentRecord(step: CrcStep, checksum: bool, file: Bytes, p: nat, t: Byte, payload: Bytes,
                       begin: bool, scratch: Bytes)
    requires Leftover(p) >= kHeaderSize && |payload| <= Avail(p)
    requires p + kHeaderSize + |payload| <= |file|
    requires begin ==> scratch == []
    requires t == TypeOf(begin, false) || t == TypeOf(begin, true)
    requires file[p..p + kHeaderSize + |payload|] == Physical(step, t, payload)
    ensures var q := p + kHeaderSize + |payload|;
            ReadRecordAt(step, checksum, file, p, !begin, scratch) ==
            if t == TypeOf(begin, true) then RecordRead(Some(scratch + payload), q, [])
            else ReadRecordAt(step, checksum, file, q, true, scratch + payload)
  {
    hide ReadPhysical, Physical, Leftover;
    WholePhysical(step, checksum, file, p, t, payload);
    assert scratch == [] ==> scratch + payload == payload;
  }

  /** The reader gives back a record whose last fragment is in the file, and nothing
      for one that is cut off; in neither case does it report a drop. */
  lemma {:induction false} EncodingReads(
      step: CrcStep, checksum: bool, file: Bytes, p: nat, data: Bytes, begin: bool, scratch: Bytes)
    requires p <= |file| && Holds(file, p, Encoding(step, p, data, begin))
    requires begin ==> scratch == []
    ensures var enc := Encoding(step, p, data, begin);
            var r := ReadRecordAt(step, checksum, file, p, !begin, scratch);
            && r.drops == []
            && r.record == (if p + |enc| <= |file| then Some(scratch + data) else None)
            && (p + |enc| <= |file| ==> r.pos == p + |enc|)
    decreases |data|, if Leftover(p) <= kHeaderSize then 1 else 0, 1
  {
    hide Physical, Holds, ReadPhysical, ReadRecordAt, Leftover, TypeOf;
    var left := Leftover(p);
    if left < kHeaderSize {
      HoldsParts(file, p, Zeros(left), Encoding(step, p + left, data, begin));
      TrailerRecord(step, checksum, file, p, !begin, scratch);
      if p + left <= |file| {
        EncodingReads(step, checksum, file, p + left, data, begin, scratch);
      }
    } else {
      var n := Min(|data|, Avail(p));
      FragmentReads(step, checksum, file, p, data, begin, scratch, n);
    }
  }

  lemma {:induction false} FragmentReads(
      step: CrcStep, checksum: bool, file: Bytes, p: nat, data: Bytes, begin: bool, scratch: Bytes, n: nat)
    requires p <= |file| && Holds(file, p, Encoding(step, p, data, begin))
    requires begin ==> scratch == []
    requires Leftover(p) >= kHeaderSize && n == Min(|data|, Avail(p))
    ensures var enc := Encoding(step, p, data, begin);
            var r := ReadRecordAt(step, checksum, file, p, !begin, scratch);
            && r.drops == []
            && r.record == (if p + |enc| <= |file| then Some(scratch + data) else None)
            && (p + |enc| <= |file| ==> r.pos == p + |enc|)
    decreases |data|, if Leftover(p) <= kHeaderSize then 1 else 0, 0
  {
    hide Encoding, Physical, Holds, ReadPhysical, ReadRecordAt, Leftover;
    EncodingFragment(step, p, data, begin, n);
    var t := TypeOf(begin, n == |data|);
    var q := p + kHeaderSize + n;
    if n == |data| {
      assert data[..n] == data;
      assert Encoding(step, p, data, begin) == Physical(step, t, data) + [];
      HoldsParts(file, p, Physical(step, t, data), []);
      if q <= |file| {
        FragmentRecord(step, checksum, file, p, t, data, begin, scratch);
      } else {
        TornRecord(step, checksum, file, p, t, data, !begin, scratch);
      }
    } else {
      HoldsParts(file, p, Physical(step, t, data[..n]), Encoding(step, q, data[n..], false));
      if q <= |file| {
        FragmentRecord(step, checksum, file, p, t, data[..n], begin, scratch);
        LeftoverAfter(p);
        EncodingReads(step, checksum, file, q, data[n..], false, scratch + data[..n]);
        assert scratch + data[..n] + data[n..] == scratch + data;
      } else {
        TornRecord(step, checksum, file, p, t, data[..n], !begin, scratch);
      }
    }
  }

  lemma TornRecord(step: CrcStep, checksum: bool, file: Bytes, p: nat, t: Byte, payload: Bytes, inside: bool, scratch: Bytes)
    requires Leftover(p) >= kHeaderSize && |payload| <= Avail(p)
    requires p <= |file| < p + kHeaderSize + |payload|
    requires file[p..] == Physical(step, t, payload)[..|file| - p]
    ensures var r := ReadRecordAt(step, checksum, file, p, inside, scratch); r.record == None && r.drops == []
  {
    hide ReadPhysical, Physical, Leftover;
    TornPhysical(step, checksum, file, p, t, payload);
  }

  /** A fragment that fills its block leaves the writer at the start of the next. */
  lemma LeftoverAfter(p: nat)
    ensures Leftover(p + Leftover(p)) == kBlockSize
  {
  }

  // ---------------------------------------------------------------- whole files

  /** How many records have their last fragment within the first `t` bytes. */
  ghost predicate Whole(step: CrcStep, records: seq<Bytes>, t: nat, m: nat) {
    && m <= |records|
    && |FileOf(step, records[..m])| <= t
    && (m < |records| ==> t < |FileOf(step, records[..m + 1])|)
  }

  /** The first `m` records take up a prefix of the file. */
  lemma {:induction false} FilePrefix(step: CrcStep, records: seq<Bytes>, m: nat)
    requires m <= |records|
    ensures FileOf(step, records[..m]) <= FileOf(step, records)
    decreases |records|
  {
    if m == |records| {
      assert records[..m] == records;
    } else {
      var n := |records| - 1;
      FilePrefix(step, records[..n], m);
      assert records[..n][..m] == records[..m];
    }
  }

  lemma NextRecord(step: CrcStep, records: seq<Bytes>, m: nat)
    requires m < |records|
    ensures FileOf(step, records[..m + 1]) ==
            FileOf(step, records[..m]) + Encoding(step, |FileOf(step, records[..m])|, records[m], true)
  {
    assert records[..m + 1][..m] == records[..m];
  }

  /** Reading record `m` of a file cut at any byte: it is there if and only if its last
      fragment is there whole, and nothing is ever reported as dropped. */
  lemma RecordReads(step: CrcStep, checksum: bool, records: seq<Bytes>, t: nat, m: nat)
    requires m < |records|
    requires |FileOf(step, records[..m])| <= t <= |FileOf(step, records)|
    ensures var file := FileOf(step, records)[..t];
            var next := |FileOf(step, records[..m + 1])|;
            var r := ReadRecordAt(step, checksum, file, |FileOf(step, records[..m])|, false, []);
            && r.drops == []
            && r.record == (if next <= t then Some(records[m]) else None)
            && (next <= t ==> r.pos == next)
  {
    hide ReadRecordAt, Encoding, Holds;
    var whole := FileOf(step, records);
    var p := |FileOf(step, records[..m])|;
    var enc := Encoding(step, p, records[m], true);
    NextRecord(step, records, m);
    FilePrefix(step, records, m + 1);
    var next := FileOf(step, records[..m + 1]);
    assert whole[..|next|] == next;
    assert next[p..] == enc;
    SliceHolds(whole, t, p, next, enc);
    EncodingReads(step, checksum, whole[..t], p, records[m], true, []);
    assert [] + records[m] == records[m];
  }

  lemma SliceHolds(whole: Bytes, t: nat, p: nat, next: Bytes, enc: Bytes)
    requires p <= t <= |whole| && next <= whole && p <= |next| && next[p..] == enc
    ensures Holds(whole[..t], p, enc)
  {
    var hi := Min(t, p + |enc|);
    assert whole[..|next|] == next;
    assert whole[..t][p..hi] == next[p..][..hi - p];
  }

  /** At the end of a whole number of records there is nothing more to read. */
  lemma NoMoreRecords(step: CrcStep, checksum: bool, file: Bytes)
    ensures ReadRecordAt(step, checksum, file, |file|, false, []) == RecordRead(None, |file|, [])
  {
    ReadPhysicalAtEnd(step, checksum, file);
  }

  lemma ReadPhysicalAtEnd(step: CrcStep, checksum: bool, file: Bytes)
    ensures ReadPhysical(step, checksum, file, |file|) == PhysicalRead(kEof, [], |file|, [])
  {
  }

  datatype LogRead = LogRead(records: seq<Bytes>, drops: seq<nat>)

  /** Reading until the reader says there is no more. */
  function ReadAllFrom(step: CrcStep, checksum: bool, file: Bytes, p: nat): LogRead
    requires p <= |file|
    decreases |file| - p
  {
    var r := ReadRecordAt(step, checksum, file, p, false, []);
    if r.record.None? then LogRead([], r.drops)
    else
      ReadRecordAdvances(step, checksum, file, p, false, []);
      var rest := ReadAllFrom(step, checksum, file, r.pos);
      LogRead([r.record.value] + rest.records, r.drops + rest.drops)
  }

  lemma ReadRecordAdvances(step: CrcStep, checksum: bool, file: Bytes, p: nat, inside: bool, scratch: Bytes)
    requires p <= |file|
    ensures var r := ReadRecordAt(step, checksum, file, p, inside, scratch); r.record.Some? ==> p < r.pos
    decreases |file| - p
  {
  }

  /** The log's round trip under any crash: of a file cut at byte `t`, exactly the
      records whose last fragment is whole are read, in order, with no drop. */
  lemma {:induction false} TruncatedLogReads(step: CrcStep, checksum: bool, records: seq<Bytes>, t: nat, n: nat)
    requires t <= |FileOf(step, records)| && Whole(step, records, t, n)
    ensures ReadAllFrom(step, checksum, FileOf(step, records)[..t], 0) == LogRead(records[..n], [])
  {
    TruncatedFrom(step, checksum, records, t, n, 0);
  }

  lemma {:induction false} TruncatedFrom(step: CrcStep, checksum: bool, records: seq<Bytes>, t: nat, n: nat, m: nat)
    requires t <= |FileOf(step, records)| && Whole(step, records, t, n) && m <= n
    ensures |FileOf(step, records[..m])| <= t
    ensures ReadAllFrom(step, checksum, FileOf(step, records)[..t], |FileOf(step, records[..m])|) == LogRead(records[m..n], [])
    decreases n - m
  {
    hide FileOf, ReadRecordAt;
    FilePrefix(step, records[..n], m);
    assert records[..n][..m] == records[..m];
    if m < n {
      TruncatedFrom(step, checksum, records, t, n, m + 1);
      RecordReads(step, checksum, records, t, m);
      assert records[m..n] == [records[m]] + records[m + 1..n];
    } else if m < |records| {
      RecordReads(step, checksum, records, t, m);
    } else {
      assert records[..m] == records;
      NoMoreRecords(step, checksum, FileOf(step, records)[..t]);
    }
  }

  /** Every cut leaves some whole number of records. */
  lemma {:induction false} WholeExists(step: CrcStep, records: seq<Bytes>, t: nat) returns (n: nat)
    requires t <= |FileOf(step, records)|
    ensures Whole(step, records, t, n)
    decreases |records|
  {
    assert records[..|records|] == records;
    if t == |FileOf(step, records)| {
      n := |records|;
    } else {
      var k := |records| - 1;
      if |FileOf(step, records[..k])| <= t {
        assert records[..k + 1] == records;
        n := k;
      } else {
        n := WholeExists(step, records[..k], t);
        assert records[..k][..n] == records[..n];
        assert n < k ==> records[..k][..n + 1] == records[..n + 1];
      }
    }
  }

  lemma SliceOf(file: Bytes, p: nat, buffer: Bytes, lo: nat, hi: nat)
    requires p + |buffer| <= |file| && buffer == file[p..p + |buffer|] && lo <= hi
    ensures forall i :: 0 <= i < |buffer| ==> buffer[i] == file[p + i] == file[p..][i]
    ensures hi <= |buffer| ==> buffer[lo..hi] == file[p + lo..p + hi]
  {
  }

  // ---------------------------------------------------------------- the writer

  /** Two positions are at the same place of their blocks. */
  ghost predicate SamePlace(a: nat, b: nat) {
    a % kBlockSize == b % kBlockSize
  }

  /** One fragment of a record, and what the rest of its encoding is then. */
  lemma FragmentWritten(dest: Bytes, goal: Bytes, fragment: Bytes, rest: Bytes)
    requires dest + (fragment + rest) == goal
    ensures dest + fragment + rest == goal
  {
  }

  class Writer {
    const step: CrcStep
    var dest: Bytes
    var blockOffset: nat

    ghost predicate Valid()
      reads this
    {
      blockOffset <= kBlockSize && SamePlace(blockOffset, |dest|)
    }

    constructor (step: CrcStep)
      ensures Valid() && dest == [] && this.step == step
    {
      this.step, dest, blockOffset := step, [], 0;
    }

    /** Continue a file that already has `contents`. */
    constructor Reopen(step: CrcStep, contents: Bytes)
      ensures Valid() && dest == contents && this.step == step
    {
      this.step, dest, blockOffset := step, contents, |contents| % kBlockSize;
    }

    /** Only the length of the file matters to what is appended, so a reopened log
        continues as if it had never been closed. */
    method AddRecord(data: Bytes)
      requires Valid()
      modifies this
      ensures Valid()
      ensures dest == old(dest) + Encoding(step, |old(dest)|, data, true)
    {
      hide Physical, Encoding, Leftover, TypeOf, SamePlace, Avail;
      var ptr: nat, left: nat, begin := 0, |data|, true;
      ghost var goal := dest + Encoding(step, |dest|, data, true);
      assert data[0..] == data;
      while true
        invariant Valid() && ptr + left == |data|
        invariant dest + Encoding(step, |dest|, data[ptr..], begin) == goal
        decreases left, if Leftover(|dest|) <= kHeaderSize then 1 else 0
      {
        SwitchBlock(data[ptr..], begin);
        var avail := kBlockSize - blockOffset - kHeaderSize;
        var length := if left < avail then left else avail;
        var end := left == length;
        ghost var start, before, rest := |dest|, dest, data[ptr..];
        AvailIs(start, avail);
        EncodingFragment(step, start, rest, begin, length);
        assert rest[..length] == data[ptr..ptr + length] && rest[length..] == data[ptr + length..];
        EmitPhysicalRecord(TypeOf(begin, end), data[ptr..ptr + length]);
        FragmentWritten(before, goal, Physical(step, TypeOf(begin, end), rest[..length]),
                        if end then [] else Encoding(step, start + kHeaderSize + length, rest[length..], false));
        ptr, left, begin := ptr + length, left - length, false;
        if left == 0 {
          assert dest + [] == dest;
          break;
        }
        LeftoverAfter(start);
      }
    }

    /** Move to a new block, zeroing the trailer, if no header fits in this one. */
    method SwitchBlock(ghost data: Bytes, ghost begin: bool)
      requires Valid()
      modifies this
      ensures Valid() && blockOffset + kHeaderSize <= kBlockSize && blockOffset + Leftover(|dest|) == kBlockSize
      ensures dest + Encoding(step, |dest|, data, begin) == old(dest + Encoding(step, |dest|, data, begin))
      ensures Leftover(|dest|) <= kHeaderSize ==> |dest| == |old(dest)|
    {
      hide Encoding, Leftover;
      var leftover := kBlockSize - blockOffset;
      LeftoverIs(|dest|, blockOffset);
      if leftover < kHeaderSize {
        if leftover > 0 {
          EncodingTrailer(step, |dest|, data, begin);
          LeftoverAfter(|dest|);
          dest := dest + Zeros(leftover);
        }
        blockOffset := 0;
      }
    }

    method EmitPhysicalRecord(t: Byte, payload: Bytes)
      requires SamePlace(blockOffset, |dest|)
      requires blockOffset + kHeaderSize + |payload| <= kBlockSize
      modifies this
      ensures Valid()
      ensures dest == old(dest) + Physical(step, t, payload)
    {
      hide Mask, Extend, EncodeFixed32;
      SameOffset(blockOffset, |dest|, kHeaderSize + |payload|);
      var crc := Mask(Extend(step, Extend(step, 0, [t]), payload));
      var header: Bytes := EncodeFixed32(crc) + [|payload| % 0x100, |payload| / 0x100, t];
      dest := dest + header;
      dest := dest + payload;
      blockOffset := blockOffset + kHeaderSize + |payload|;
    }
  }

  // ---------------------------------------------------------------- the reader

  class Reader {
    const step: CrcStep
    const checksum: bool
    const file: Bytes
    var filePos: nat
    var buffer: Bytes
    var eof: bool
    var drops: seq<nat>

    ghost predicate Valid()
      reads `filePos, `buffer, `eof
    {
      && |buffer| <= filePos <= |file|
      && |buffer| <= kBlockSize
      && buffer == file[filePos - |buffer|..filePos]
      && (!eof ==> filePos % kBlockSize == 0)
      && (eof ==> filePos == |file| < BlockEnd(filePos - |buffer|))
    }

    ghost function Pos(): (p: nat)
      requires Valid()
      reads `filePos, `buffer, `eof
      ensures p <= |file|
    {
      filePos - |buffer|
    }

    constructor (step: CrcStep, checksum: bool, file: Bytes)
      ensures Valid() && Pos() == 0 && drops == []
      ensures this.step == step && this.checksum == checksum && this.file == file
    {
      this.step, this.checksum, this.file := step, checksum, file;
      filePos, buffer, eof, drops := 0, [], false, [];
      new;
      hide BlockEnd;
    }

    method ReadPhysicalRecord() returns (kind: nat, fragment: Bytes)
      requires Valid()
      modifies this
      ensures Valid()
      ensures var r := ReadPhysical(step, checksum, file, old(Pos()));
              && kind == r.kind && fragment == r.payload && Pos() == r.pos
              && drops == old(drops) + r.drops
    {
      hide ReadPhysical, BlockEnd;
      ghost var start := Pos();
      while |buffer| < kHeaderSize
        invariant Valid() && drops == old(drops)
        invariant ReadPhysical(step, checksum, file, Pos()) == ReadPhysical(step, checksum, file, start)
        decreases !eof, |file| - filePos
      {
        Trailer();
        if !eof {
          ReadBlock();
        } else {
          buffer := [];
          return kEof, [];
        }
      }
      kind, fragment := ParseBuffer();
    }

    /** file_->Read: the next block, or what is left of the file. */
    method ReadBlock()
      requires Valid() && !eof
      modifies this`buffer, this`filePos, this`eof
      ensures Valid() && Pos() == old(filePos)
      ensures eof || |file| - filePos < |file| - old(filePos)
    {
      var n := Min(kBlockSize, |file| - filePos);
      buffer := file[filePos..filePos + n];
      filePos := filePos + n;
      if n < kBlockSize {
        eof := true;
      }
    }

    method ParseBuffer() returns (kind: nat, fragment: Bytes)
      requires Valid() && |buffer| >= kHeaderSize
      modifies this
      ensures Valid()
      ensures var r := ReadPhysical(step, checksum, file, old(Pos()));
              && kind == r.kind && fragment == r.payload && Pos() == r.pos
              && drops == old(drops) + r.drops
    {
      hide BlockEnd, ReadPhysical;
      Buffered();
      var length := buffer[4] as nat + buffer[5] as nat * 0x100;
      BlockEndMonotone(Pos(), Pos() + kHeaderSize + length);
      var kind8 := buffer[6];
      if kHeaderSize + length > |buffer| {
        var dropSize := |buffer|;
        buffer := [];
        if !eof {
          drops := drops + [dropSize];
          return kBadRecord, [];
        }
        return kEof, [];
      }
      if kind8 == kZeroType && length == 0 {
        buffer := [];
        return kBadRecord, [];
      }
      if checksum {
        var expected := Unmask(DecodeFixed32(buffer));
        var actual := CrcValue(step, buffer[6..kHeaderSize + length]);
        if actual != expected {
          var dropSize := |buffer|;
          buffer := [];
          drops := drops + [dropSize];
          return kBadRecord, [];
        }
      }
      fragment := buffer[kHeaderSize..kHeaderSize + length];
      buffer := buffer[kHeaderSize + length..];
      kind := KindOf(kind8);
    }

    /** A read at the reader's position, told from its buffer. */
    lemma Buffered()
      requires Valid() && |buffer| >= kHeaderSize
      ensures BlockEnd(Pos()) > |file| <==> eof
      ensures var length := buffer[4] as nat + buffer[5] as nat * 0x100;
              ReadPhysical(step, checksum, file, Pos()) ==
              if kHeaderSize + length > |buffer| then
                PhysicalRead(if eof then kEof else kBadRecord, [], filePos, if eof then [] else [|buffer|])
              else if buffer[6] == kZeroType && length == 0 then PhysicalRead(kBadRecord, [], filePos, [])
              else if checksum && CrcValue(step, buffer[6..kHeaderSize + length]) != Unmask(DecodeFixed32(buffer)) then
                PhysicalRead(kBadRecord, [], filePos, [|buffer|])
              else
                PhysicalRead(KindOf(buffer[6]), buffer[kHeaderSize..kHeaderSize + length], Pos() + kHeaderSize + length, [])
    {
      hide CrcValue, Unmask, DecodeFixed32, KindOf, BlockEnd;
      var p := Pos();
      EndOfBuffer();
      hide Valid;
      var length := buffer[4] as nat + buffer[5] as nat * 0x100;
      SliceOf(file, p, buffer, 6, kHeaderSize + length);
      SliceOf(file, p, buffer, kHeaderSize, kHeaderSize + length);
      SameWord(file[p..], buffer);
    }

    lemma EndOfBuffer()
      requires Valid() && |buffer| >= kHeaderSize
      ensures Pos() + |buffer| == filePos <= |file| && buffer == file[Pos()..Pos() + |buffer|]
      ensures BlockEnd(Pos()) > |file| <==> eof
      ensures Min(BlockEnd(Pos()), |file|) == filePos
    {
    }

    lemma Trailer()
      requires Valid() && |buffer| < kHeaderSize
      ensures !eof ==> ReadPhysical(step, checksum, file, Pos()) == ReadPhysical(step, checksum, file, filePos)
      ensures eof ==> ReadPhysical(step, checksum, file, Pos()) == PhysicalRead(kEof, [], |file|, [])
    {
      hide BlockEnd;
      if !eof && |buffer| > 0 {
        BlockEndIs(Pos(), filePos);
      }
    }

    method ReadRecord() returns (record: Option<Bytes>)
      requires Valid()
      modifies this
      ensures Valid()
      ensures var r := ReadRecordAt(step, checksum, file, old(Pos()), false, []);
              && record == r.record && Pos() == r.pos
              && drops == old(drops) + r.drops
    {
      hide ReadPhysical, ReadRecordAt, Valid, Pos, Remains;
      NothingRead(ReadRecordAt(step, checksum, file, Pos(), false, []), drops);
      var scratch, inside: bool := [], false;
      ghost var goal := ReadRecordAt(step, checksum, file, Pos(), false, []);
      while true
        invariant Valid()
        invariant Remains(goal, old(drops), ReadRecordAt(step, checksum, file, Pos(), inside, scratch), drops)
        decreases |file| - Pos()
      {
        ghost var p, was := Pos(), drops;
        var kind, fragment := ReadPhysicalRecord();
        RecordStep(step, checksum, file, p, inside, scratch, goal, old(drops), was);
        ghost var next := Assemble(kind, fragment, inside, scratch);
        if kind == kFullType {
          if inside && scratch != [] {
            drops := drops + [|scratch|];
          }
          return Some(fragment);
        } else if kind == kFirstType {
          if inside && scratch != [] {
            drops := drops + [|scratch|];
          }
          scratch, inside := fragment, true;
        } else if kind == kMiddleType {
          if !inside {
            drops := drops + [|fragment|];
          } else {
            scratch := scratch + fragment;
          }
        } else if kind == kLastType {
          if !inside {
            drops := drops + [|fragment|];
          } else {
            return Some(scratch + fragment);
          }
        } else if kind == kEof {
          return None;
        } else if kind == kBadRecord {
          if inside {
            drops := drops + [|scratch|];
            inside, scratch := false, [];
          }
        } else {
          drops := drops + [|fragment| + if inside then |scratch| else 0];
          inside, scratch := false, [];
        }
        assert drops == was + ReadPhysical(step, checksum, file, p).drops + next.drops;
      }
    }
  }
}
