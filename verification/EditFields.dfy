/** What the bytes of a version edit mean, told without the decoder: a sequence of fields,
    each with its tag before it. */
module EditFields {
  import opened DbFormat
  import opened Coding
  import opened Varints
  import opened EditCodec

  /** A varint of `max` bytes at most, for a number below `modulus`. */
  ghost predicate Num(s: Bytes, max: nat, modulus: nat, v: nat, rest: Bytes) {
    exists n: nat, w: nat :: n <= max && Says(s, n, w, rest) && modulus > 0 && v == w % modulus
  }

  ghost predicate IsWord32(s: Bytes, v: nat, rest: Bytes) {
    Num(s, 5, 0x1_0000_0000, v, rest)
  }

  ghost predicate IsWord64(s: Bytes, v: nat, rest: Bytes) {
    Num(s, 10, 0x1_0000_0000_0000_0000, v, rest)
  }

  ghost predicate Text(s: Bytes, data: Bytes, rest: Bytes) {
    exists n: nat, v: nat :: n <= 5 && Says(s, n, v, data + rest) && |data| == v % 0x1_0000_0000
  }

  ghost predicate LevelAnd(s: Bytes, level: nat, rest: Bytes) {
    level < 7 && IsWord32(s, level, rest)
  }

  ghost predicate IsBody(s: Bytes, it: Item, rest: Bytes) {
    match it
    case Comparator(name) => Text(s, name, rest)
    case LogNumber(n) => IsWord64(s, n, rest)
    case PrevLogNumber(n) => IsWord64(s, n, rest)
    case NextFileNumber(n) => IsWord64(s, n, rest)
    case LastSequence(n) => IsWord64(s, n, rest)
    case CompactPointer(level, key) => exists a :: LevelAnd(s, level, a) && Text(a, key, rest)
    case DeletedFile(level, number) => exists a :: LevelAnd(s, level, a) && IsWord64(a, number, rest)
    case AddedFile(level, f) => exists a :: LevelAnd(s, level, a) && IsFile(a, f, rest)
  }

  ghost predicate IsFile(s: Bytes, f: NewFile, rest: Bytes) {
    exists a, b, c :: IsWord64(s, f.number, a) && IsWord64(a, f.fileSize, b) && Text(b, f.smallest, c) && Text(c, f.largest, rest)
  }

  function TagNumber(it: Item): nat {
    match it
    case Comparator(_) => 1
    case LogNumber(_) => 2
    case NextFileNumber(_) => 3
    case LastSequence(_) => 4
    case CompactPointer(_, _) => 5
    case DeletedFile(_, _) => 6
    case AddedFile(_, _) => 7
    case PrevLogNumber(_) => 9
  }

  ghost predicate IsField(s: Bytes, it: Item, rest: Bytes) {
    exists a :: IsWord32(s, TagNumber(it), a) && IsBody(a, it, rest)
  }

  ghost predicate AreFields(s: Bytes, items: seq<Item>)
    decreases |items|
  {
    if items == [] then s == [] else exists rest :: IsField(s, items[0], rest) && AreFields(rest, items[1..])
  }

  lemma Word32Is(s: Bytes, v: nat, rest: Bytes)
    ensures Get32(s) == Some((v, rest)) <==> IsWord32(s, v, rest)
  {
    hide DecodeVarint, Says;
    if Get32(s) == Some((v, rest)) {
      DecodeVarintIs(s, 5, DecodeVarint(s, 5).value.0, rest);
    }
    if n: nat, w: nat :| n <= 5 && Says(s, n, w, rest) && v == w % 0x1_0000_0000 {
      DecodeVarintIs(s, 5, w, rest);
    }
  }

  lemma Word64Is(s: Bytes, v: nat, rest: Bytes)
    ensures Get64(s) == Some((v, rest)) <==> IsWord64(s, v, rest)
  {
    hide DecodeVarint, Says;
    if Get64(s) == Some((v, rest)) {
      DecodeVarintIs(s, 10, DecodeVarint(s, 10).value.0, rest);
    }
    if n: nat, w: nat :| n <= 10 && Says(s, n, w, rest) && v == w % 0x1_0000_0000_0000_0000 {
      DecodeVarintIs(s, 10, w, rest);
    }
  }

  lemma TextIs(s: Bytes, data: Bytes, rest: Bytes)
    ensures DecodeLengthPrefixed(s) == Some((data, rest)) <==> Text(s, data, rest)
  {
    LengthPrefixedIs(s, data, rest);
  }

  lemma LevelIs(s: Bytes, level: nat, rest: Bytes)
    ensures GetLevel(s) == Some((level, rest)) <==> LevelAnd(s, level, rest)
  {
    Word32Is(s, level, rest);
  }

  lemma FileIs(s: Bytes, f: NewFile, rest: Bytes)
    ensures DecodeFile(s) == Some((f, rest)) <==> IsFile(s, f, rest)
  {
    hide Get64, DecodeLengthPrefixed, IsWord64, Text;
    forall t: Bytes, v: nat, r: Bytes
      ensures Get64(t) == Some((v, r)) <==> IsWord64(t, v, r)
    {
      Word64Is(t, v, r);
    }
    forall t: Bytes, data: Bytes, r: Bytes
      ensures DecodeLengthPrefixed(t) == Some((data, r)) <==> Text(t, data, r)
    {
      TextIs(t, data, r);
    }
  }

  lemma BodyIs(tag: nat, s: Bytes, it: Item, rest: Bytes)
    ensures DecodeItem(tag, s) == Some((it, rest)) <==> tag == TagNumber(it) && IsBody(s, it, rest)
  {
    hide Get64, GetLevel, DecodeLengthPrefixed, DecodeFile, IsWord64, LevelAnd, Text, IsFile;
    forall t: Bytes, v: nat, r: Bytes
      ensures Get64(t) == Some((v, r)) <==> IsWord64(t, v, r)
      ensures GetLevel(t) == Some((v, r)) <==> LevelAnd(t, v, r)
    {
      Word64Is(t, v, r);
      LevelIs(t, v, r);
    }
    forall t: Bytes, data: Bytes, r: Bytes
      ensures DecodeLengthPrefixed(t) == Some((data, r)) <==> Text(t, data, r)
    {
      TextIs(t, data, r);
    }
    forall t: Bytes, f: NewFile, r: Bytes
      ensures DecodeFile(t) == Some((f, r)) <==> IsFile(t, f, r)
    {
      FileIs(t, f, r);
    }
  }

  lemma FieldRead(s: Bytes, e: Edit, it: Item, rest: Bytes)
    requires IsField(s, it, rest)
    ensures DecodeAll(s, e) == DecodeAll(rest, Applied(e, it)) && |rest| < |s|
  {
    hide Get32, DecodeItem, IsBody, IsWord32, Applied;
    var a :| IsWord32(s, TagNumber(it), a) && IsBody(a, it, rest);
    Word32Is(s, TagNumber(it), a);
    BodyIs(TagNumber(it), a, it, rest);
  }

  /** The bytes are these fields, and `e'` is the edit `e` with what they say. */
  ghost predicate Say(s: Bytes, items: seq<Item>, e: Edit, e': Edit) {
    AreFields(s, items) && AllApplied(e, items) == e'
  }

  lemma FieldMore(s: Bytes, it: Item, rest: Bytes, more: seq<Item>, e: Edit, e': Edit)
    requires IsField(s, it, rest) && Say(rest, more, Applied(e, it), e')
    ensures Say(s, [it] + more, e, e')
  {
    hide IsField, Applied;
    assert ([it] + more)[1..] == more;
  }

  lemma FieldLess(s: Bytes, items: seq<Item>, e: Edit, e': Edit) returns (rest: Bytes)
    requires Say(s, items, e, e') && items != []
    ensures IsField(s, items[0], rest) && Say(rest, items[1..], Applied(e, items[0]), e')
  {
    hide IsField, Applied;
    rest :| IsField(s, items[0], rest) && AreFields(rest, items[1..]);
  }

  /** Any bytes are an edit exactly if they are fields: every tag one of the eight, every
      level below 7, every number and key whole, and nothing left over.  The edit is then
      what the fields say one after another. */
  lemma {:induction false} EditIs(s: Bytes, e: Edit, e': Edit)
    ensures DecodeAll(s, e) == Some(e') <==> exists items :: Say(s, items, e, e')
    decreases |s|
  {
    hide Get32, DecodeItem, IsField, Applied, Say;
    if DecodeAll(s, e) == Some(e') {
      if Get32(s).None? {
        NoFields(e);
        assert Say(s, [], e, e');
      } else {
        var (tag, a) := Get32(s).value;
        var (it, rest) := DecodeItem(tag, a).value;
        Word32Is(s, tag, a);
        BodyIs(tag, a, it, rest);
        FieldThere(s, a, it, rest);
        EditIs(rest, Applied(e, it), e');
        var more :| Say(rest, more, Applied(e, it), e');
        FieldMore(s, it, rest, more, e, e');
      }
    }
    if items :| Say(s, items, e, e') {
      if items == [] {
        NoneLeft(s, e, e');
      } else {
        var rest := FieldLess(s, items, e, e');
        FieldRead(s, e, items[0], rest);
        EditIs(rest, Applied(e, items[0]), e');
      }
    }
  }

  lemma FieldThere(s: Bytes, a: Bytes, it: Item, rest: Bytes)
    requires IsWord32(s, TagNumber(it), a) && IsBody(a, it, rest)
    ensures IsField(s, it, rest)
  {
  }

  lemma NoFields(e: Edit)
    ensures Say([], [], e, e)
  {
  }

  lemma NoneLeft(s: Bytes, e: Edit, e': Edit)
    requires Say(s, [], e, e')
    ensures DecodeAll(s, e) == Some(e')
  {
  }
}
