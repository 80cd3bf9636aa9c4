/** memtable.cc: records encoded into one byte string each, and a lookup that decodes the
    first one at or after a lookup key. */
module MemTables {
  import opened DbFormat
  import opened Coding
  import opened Block
  import opened Comparators

  /** One write: a value, or None for a deletion. */
  datatype Record = Record(user: Bytes, sequence: nat, value: Option<Bytes>)

  ghost predicate RecordOk(r: Record) {
    && r.sequence <= kMaxSequenceNumber && |r.user| + 8 <= MAX32
    && (r.value.Some? ==> |r.value.value| <= MAX32)
  }

  function TypeOf(r: Record): (t: nat)
    ensures t <= kValueTypeForSeek
  {
    if r.value.Some? then kTypeValue else kTypeDeletion
  }

  ghost function KeyOf(r: Record): Bytes
    requires RecordOk(r)
  {
    InternalBytes(r.user, PackSequenceAndType(r.sequence, TypeOf(r)))
  }

  /** The bytes kept for a record: key size, key, tag, value size, value. */
  ghost function Encoded(r: Record): Bytes
    requires RecordOk(r)
  {
    LengthPrefixed(KeyOf(r)) + LengthPrefixed(if r.value.Some? then r.value.value else [])
  }

  /** GetLengthPrefixedSlice on bytes that are known to be well formed. */
  function Prefixed(s: Bytes): Bytes {
    match DecodeLengthPrefixed(s) case None => [] case Some((data, _)) => data
  }

  lemma EncodedReads(r: Record)
    requires RecordOk(r)
    ensures DecodeLengthPrefixed(Encoded(r)) == Some((KeyOf(r), LengthPrefixed(if r.value.Some? then r.value.value else [])))
    ensures Prefixed(Encoded(r)) == KeyOf(r)
    ensures r.value.Some? ==> Prefixed(LengthPrefixed(r.value.value)) == r.value.value
    ensures UserOf(KeyOf(r)) == r.user && TagOf(KeyOf(r)) == PackSequenceAndType(r.sequence, TypeOf(r)) && |KeyOf(r)| >= 8
  {
    hide LengthPrefixed, DecodeLengthPrefixed, EncodeFixed64, UserOf, TagOf;
    var v := if r.value.Some? then r.value.value else [];
    InternalParts(r.user, PackSequenceAndType(r.sequence, TypeOf(r)));
    LengthPrefixedRoundTrip(KeyOf(r), LengthPrefixed(v));
    LengthPrefixedRoundTrip(v, []);
    assert LengthPrefixed(v) + [] == LengthPrefixed(v);
  }

  /** MemTable::KeyComparator over the bytewise comparator. */
  predicate EntryLess(a: Bytes, b: Bytes) {
    InternalLess(Bytewise, Prefixed(a), Prefixed(b))
  }

  /** The order of records: user key up, sequence number down. */
  predicate RecordLess(a: Record, b: Record) {
    Lex(a.user, b.user) || (a.user == b.user && a.sequence > b.sequence)
  }

  ghost predicate SortedRecords(rs: seq<Record>) {
    forall i, j :: 0 <= i < j < |rs| ==> RecordLess(rs[i], rs[j])
  }

  /** Comparing encoded keys orders records by user key and sequence number. */
  lemma EntryOrder(r: Record, user: Bytes, sequence: nat, t: nat)
    requires RecordOk(r) && sequence <= kMaxSequenceNumber && t <= kValueTypeForSeek
    ensures InternalLess(Bytewise, KeyOf(r), InternalBytes(user, PackSequenceAndType(sequence, t))) <==>
            Lex(r.user, user) || (r.user == user && (r.sequence > sequence || (r.sequence == sequence && TypeOf(r) > t)))
    ensures InternalLess(Bytewise, InternalBytes(user, PackSequenceAndType(sequence, t)), KeyOf(r)) <==>
            Lex(user, r.user) || (r.user == user && (sequence > r.sequence || (r.sequence == sequence && t > TypeOf(r))))
  {
    hide Lex, UserOf, TagOf;
    InternalParts(r.user, PackSequenceAndType(r.sequence, TypeOf(r)));
    InternalParts(user, PackSequenceAndType(sequence, t));
    LexTransitive(r.user, user, r.user);
  }

  // ---------------------------------------------------------------- what a lookup means

  ghost predicate Visible(r: Record, user: Bytes, s: nat) {
    r.user == user && r.sequence <= s
  }

  /** Record `i` is the newest write to the key that a reader at `s` may see. */
  ghost predicate NewestAt(rs: seq<Record>, user: Bytes, s: nat, i: nat) {
    && i < |rs| && Visible(rs[i], user, s)
    && forall j :: 0 <= j < |rs| && Visible(rs[j], user, s) ==> rs[j].sequence <= rs[i].sequence
  }

  /** Put(value), Deleted, or nothing about the key. */
  datatype Answer = Found(value: Bytes) | Deleted | Absent

  ghost predicate Answers(rs: seq<Record>, user: Bytes, s: nat, a: Answer) {
    match a
    case Absent => forall j :: 0 <= j < |rs| ==> !Visible(rs[j], user, s)
    case Deleted => exists i :: 0 <= i < |rs| && NewestAt(rs, user, s, i) && rs[i].value == None
    case Found(v) => exists i :: 0 <= i < |rs| && NewestAt(rs, user, s, i) && rs[i].value == Some(v)
  }

  /** The first record at or after the lookup key decides. */
  lemma FirstDecides(rs: seq<Record>, user: Bytes, s: nat, p: nat)
    requires SortedRecords(rs) && p <= |rs|
    requires forall i :: 0 <= i < p ==> Lex(rs[i].user, user) || (rs[i].user == user && rs[i].sequence > s)
    requires p < |rs| ==> !(Lex(rs[p].user, user) || (rs[p].user == user && rs[p].sequence > s))
    ensures p < |rs| && rs[p].user == user ==> NewestAt(rs, user, s, p)
    ensures p == |rs| || rs[p].user != user ==> forall j :: 0 <= j < |rs| ==> !Visible(rs[j], user, s)
  {
    hide Lex;
    forall j | 0 <= j < |rs| && Visible(rs[j], user, s)
      ensures p <= j && rs[p].user == user && rs[j].sequence <= rs[p].sequence
    {
      LexTransitive(user, user, user);
      LexTransitive(user, rs[p].user, user);
    }
  }

  ghost predicate OneMore(rs: seq<Record>, r: Record, p: nat, rs': seq<Record>) {
    p <= |rs| && rs' == rs[..p] + [r] + rs[p..]
  }

  /** SkipList::Insert: the place of a new record. */
  method FindPlace(table: seq<Bytes>, buf: Bytes, ghost rs: seq<Record>, ghost r: Record) returns (p: nat)
    requires |table| == |rs| && RecordOk(r) && buf == Encoded(r)
    requires forall i :: 0 <= i < |rs| ==> RecordOk(rs[i]) && table[i] == Encoded(rs[i])
    requires forall i :: 0 <= i < |rs| ==> rs[i].user != r.user || rs[i].sequence != r.sequence
    ensures p <= |rs|
    ensures forall i :: 0 <= i < p ==> RecordLess(rs[i], r)
    ensures p < |rs| ==> RecordLess(r, rs[p])
  {
    hide Encoded, EntryLess, Lex;
    p := 0;
    while p < |table| && EntryLess(table[p], buf)
      invariant p <= |table|
      invariant forall i :: 0 <= i < p ==> RecordLess(rs[i], r)
    {
      EntriesCompare(rs[p], r);
      p := p + 1;
    }
    if p < |table| {
      EntriesCompare(rs[p], r);
    }
  }

  // ---------------------------------------------------------------- the class

  class MemTable {
    // The skip list: the encoded records in comparator order.
    var table: seq<Bytes>
    ghost var records: seq<Record>

    ghost predicate Valid()
      reads this
    {
      && |table| == |records| && SortedRecords(records)
      && forall i :: 0 <= i < |records| ==> RecordOk(records[i]) && table[i] == Encoded(records[i])
    }

    constructor ()
      ensures Valid() && records == []
    {
      table, records := [], [];
    }

    /** MemTable::Add: the record is encoded and goes to its place in the order. */
    method Add(s: nat, t: nat, key: Bytes, value: Bytes) returns (ghost place: nat)
      requires Valid() && s <= kMaxSequenceNumber && (t == kTypeValue || (t == kTypeDeletion && value == []))
      requires |key| + 8 <= MAX32 && |value| <= MAX32
      requires forall i :: 0 <= i < |records| ==> records[i].user != key || records[i].sequence != s
      modifies this
      ensures Valid()
      ensures OneMore(old(records), Record(key, s, if t == kTypeValue then Some(value) else None), place, records)
    {
      hide EncodeVarint, EncodeFixed64, Encoded, EntryLess, Lex;
      ghost var r := Record(key, s, if t == kTypeValue then Some(value) else None);
      var internalKeySize := |key| + 8;
      var a := PutVarint32(internalKeySize);
      var c := PutVarint32(|value|);
      var buf := a + key + EncodeFixed64(PackSequenceAndType(s, t)) + c + value;
      BufferIs(r, buf);
      var p := FindPlace(table, buf, records, r);
      InsertSorted(records, r, p);
      table := table[..p] + [buf] + table[p..];
      records := records[..p] + [r] + records[p..];
      place := p;
    }

    /** MemTable::Get for a lookup key at sequence number `s`. */
    method Get(user: Bytes, s: nat) returns (a: Answer)
      requires Valid() && s <= kMaxSequenceNumber && |user| + 8 <= MAX32
      ensures Answers(records, user, s, a)
    {
      hide EncodeVarint, EncodeFixed64, Encoded, EntryLess, Lex, UserOf, TagOf, DecodeLengthPrefixed, LengthPrefixed, DecodeFixed64;
      ghost var target := InternalBytes(user, PackSequenceAndType(s, kValueTypeForSeek));
      var memkey := LookupKey(user, s);
      var p: nat := 0;
      while p < |table| && EntryLess(table[p], memkey)
        invariant p <= |table|
        invariant forall i :: 0 <= i < p ==> Lex(records[i].user, user) || (records[i].user == user && records[i].sequence > s)
      {
        LookupCompare(records[p], user, s, memkey);
        p := p + 1;
      }
      if p < |table| {
        LookupCompare(records[p], user, s, memkey);
      }
      FirstDecides(records, user, s, p);
      if p < |table| {
        EncodedReads(records[p]);
        var entry := DecodeLengthPrefixed(table[p]);
        var (key, rest) := entry.value;
        if UserOf(key) == user {
          // The tag's low byte is the type.
          TagType(records[p]);
          if TagOf(key) % 256 == kTypeValue {
            return Found(Prefixed(rest));
          }
          return Deleted;
        }
      }
      return Absent;
    }
  }

  /** LookupKey: the key as the memtable keeps it, with the tag to seek with. */
  method LookupKey(user: Bytes, s: nat) returns (r: Bytes)
    requires s <= kMaxSequenceNumber && |user| + 8 <= MAX32
    ensures r == LengthPrefixed(InternalBytes(user, PackSequenceAndType(s, kValueTypeForSeek)))
  {
    hide EncodeVarint, EncodeFixed64;
    var size := PutVarint32(|user| + 8);
    r := size + user + EncodeFixed64(PackSequenceAndType(s, kValueTypeForSeek));
    assert r == size + (user + EncodeFixed64(PackSequenceAndType(s, kValueTypeForSeek)));
  }

  lemma BufferIs(r: Record, buf: Bytes)
    requires RecordOk(r)
    requires var v := if r.value.Some? then r.value.value else [];
             buf == EncodeVarint(|r.user| + 8) + r.user + EncodeFixed64(PackSequenceAndType(r.sequence, TypeOf(r))) + EncodeVarint(|v|) + v
    ensures buf == Encoded(r)
  {
    hide EncodeVarint, EncodeFixed64;
    var v := if r.value.Some? then r.value.value else [];
    var a, t, c := EncodeVarint(|r.user| + 8), EncodeFixed64(PackSequenceAndType(r.sequence, TypeOf(r))), EncodeVarint(|v|);
    assert a + r.user + t + c + v == a + (r.user + t) + (c + v);
  }

  lemma EntriesCompare(a: Record, b: Record)
    requires RecordOk(a) && RecordOk(b) && (a.user != b.user || a.sequence != b.sequence)
    ensures EntryLess(Encoded(a), Encoded(b)) <==> RecordLess(a, b)
    ensures EntryLess(Encoded(a), Encoded(b)) || RecordLess(b, a)
  {
    hide Encoded, InternalLess, Lex, InternalBytes;
    EncodedReads(a);
    EncodedReads(b);
    EntryOrder(a, b.user, b.sequence, TypeOf(b));
    LexTransitive(a.user, b.user, a.user);
  }

  lemma LookupCompare(r: Record, user: Bytes, s: nat, memkey: Bytes)
    requires RecordOk(r) && s <= kMaxSequenceNumber && |user| + 8 <= MAX32
    requires memkey == LengthPrefixed(InternalBytes(user, PackSequenceAndType(s, kValueTypeForSeek)))
    ensures EntryLess(Encoded(r), memkey) <==> Lex(r.user, user) || (r.user == user && r.sequence > s)
  {
    hide Encoded, InternalLess, Lex, LengthPrefixed, DecodeLengthPrefixed, EncodeFixed64;
    EncodedReads(r);
    var key := InternalBytes(user, PackSequenceAndType(s, kValueTypeForSeek));
    LengthPrefixedRoundTrip(key, []);
    assert memkey + [] == memkey;
    EntryOrder(r, user, s, kValueTypeForSeek);
  }

  lemma TagType(r: Record)
    ensures r.sequence <= kMaxSequenceNumber ==> PackSequenceAndType(r.sequence, TypeOf(r)) % 256 == TypeOf(r)
  {
  }

  lemma InsertSorted(rs: seq<Record>, r: Record, p: nat)
    requires SortedRecords(rs) && p <= |rs|
    requires forall i :: 0 <= i < p ==> RecordLess(rs[i], r)
    requires p < |rs| ==> RecordLess(r, rs[p])
    ensures SortedRecords(rs[..p] + [r] + rs[p..])
  {
    hide Lex;
    forall j | p <= j < |rs|
      ensures RecordLess(r, rs[j])
    {
      LexTransitive(r.user, rs[p].user, rs[j].user);
    }
  }
}
