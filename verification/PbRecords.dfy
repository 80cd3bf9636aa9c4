/** Records one after another: reading one looks no further than its own bytes, records of
    unknown fields are passed over, and two messages in a row are one merged message. */
module PbRecords {
  import opened DbFormat
  import opened Coding
  import opened PbMessage
  import opened PbWire

  // ---------------------------------------------------------------- reading is local

  lemma {:induction false} MoreVarint32Local(s: Bytes, result: nat, bitpos: nat, b: Bytes)
    requires result < Modulus(4) && MoreVarint32(s, result, bitpos).Some?
    ensures var (n, rest) := MoreVarint32(s, result, bitpos).value; MoreVarint32(s + b, result, bitpos) == Some((n, rest + b))
    decreases |s|
  {
    hide Placed;
    assert (s + b)[1..] == s[1..] + b;
    if s[0] >= 128 {
      MoreVarint32Local(s[1..], if bitpos >= 32 then result else Placed(result, s[0], bitpos), bitpos + 7, b);
    }
  }

  lemma Varint32Local(s: Bytes, b: Bytes)
    requires Varint32(s).Some?
    ensures var (n, rest) := Varint32(s).value; Varint32(s + b) == Some((n, rest + b))
  {
    hide MoreVarint32;
    assert (s + b)[1..] == s[1..] + b;
    if s[0] >= 128 {
      MoreVarint32Local(s[1..], s[0] - 128, 7, b);
    }
  }

  lemma Varint64Local(s: Bytes, b: Bytes)
    requires Varint64(s).Some?
    ensures var (n, rest) := Varint64(s).value; Varint64(s + b) == Some((n, rest + b))
  {
    hide DecodeVarint;
    DecodeVarintLocal(s, 10, b);
  }

  lemma SubstreamLocal(s: Bytes, b: Bytes)
    requires Substream(s).Some?
    ensures var (data, rest) := Substream(s).value; Substream(s + b) == Some((data, rest + b))
  {
    hide Varint32;
    Varint32Local(s, b);
    var (size, rest) := Varint32(s).value;
    assert (rest + b)[..size] == rest[..size] && (rest + b)[size..] == rest[size..] + b;
  }

  lemma FixedLocal(s: Bytes, b: Bytes, n: nat)
    requires (n == 4 || n == 8) && |s| >= n
    ensures (s + b)[n..] == s[n..] + b
    ensures DecodeFixed32(s + b) == DecodeFixed32(s) && (n == 8 ==> DecodeFixed64(s + b) == DecodeFixed64(s))
  {
    if n == 8 {
      assert (s + b)[4..] == s[4..] + b;
    }
  }

  lemma ScalarLocal(t: LType, s: Bytes, b: Bytes)
    requires !t.Submessage? && DecodeScalar(t, s).Some?
    ensures var (v, rest) := DecodeScalar(t, s).value; DecodeScalar(t, s + b) == Some((v, rest + b))
  {
    hide Varint32, Varint64, Substream, DecodeFixed32, DecodeFixed64, CastSigned, UnZigZag, UpToNul;
    match t
    case Bool => Varint32Local(s, b);
    case Varint(_) => Varint64Local(s, b);
    case Uvarint(_) => Varint64Local(s, b);
    case Svarint(_) => Varint64Local(s, b);
    case Fixed32 => FixedLocal(s, b, 4);
    case Fixed64 => FixedLocal(s, b, 8);
    case BytesArray(_) => SubstreamLocal(s, b);
    case Str(_) => SubstreamLocal(s, b);
    case FixedBytes(_) => SubstreamLocal(s, b);
  }

  lemma {:induction false} SkipVarintLocal(s: Bytes, b: Bytes)
    requires SkipVarint(s).Some?
    ensures SkipVarint(s + b) == Some(SkipVarint(s).value + b)
    decreases |s|
  {
    assert (s + b)[1..] == s[1..] + b;
    if s[0] >= 128 {
      SkipVarintLocal(s[1..], b);
    }
  }

  lemma SkipLocal(wire: nat, s: Bytes, b: Bytes)
    requires Skip(wire, s).Some?
    ensures Skip(wire, s + b) == Some(Skip(wire, s).value + b)
  {
    hide SkipVarint, Substream;
    if wire == PB_WT_VARINT {
      SkipVarintLocal(s, b);
    } else if wire == PB_WT_64BIT {
      assert (s + b)[8..] == s[8..] + b;
    } else if wire == PB_WT_STRING {
      SubstreamLocal(s, b);
    } else {
      assert (s + b)[4..] == s[4..] + b;
    }
  }

  lemma ValueLocal(t: LType, prev: Datum, s: Bytes, b: Bytes)
    requires DecodeValue(t, prev, s).Some?
    ensures var (v, rest) := DecodeValue(t, prev, s).value; DecodeValue(t, prev, s + b) == Some((v, rest + b))
  {
    hide Substream, DecodeScalar, DecodeMessage;
    if t.Submessage? {
      SubstreamLocal(s, b);
    } else {
      ScalarLocal(t, s, b);
    }
  }

  lemma ArrayLocal(f: Field, wire: nat, s: Bytes, vs: seq<Datum>, max: nat, b: Bytes)
    requires DecodeArray(f, wire, s, vs, max).Some?
    ensures var (r, rest) := DecodeArray(f, wire, s, vs, max).value; DecodeArray(f, wire, s + b, vs, max) == Some((r, rest + b))
  {
    hide Substream, DecodePacked, DecodeValue;
    if wire == PB_WT_STRING && Packable(f.ltype) {
      SubstreamLocal(s, b);
    } else {
      ValueLocal(f.ltype, DefaultValue(f.ltype), s, b);
    }
  }

  lemma FieldLocal(d: Desc, i: nat, wire: nat, s: Bytes, st: Loop, b: Bytes)
    requires i < |d.fields| == |st.slots| && DecodeField(d, i, wire, s, st).Some?
    ensures var (st', rest) := DecodeField(d, i, wire, s, st).value; DecodeField(d, i, wire, s + b, st) == Some((st', rest + b))
  {
    hide DecodeArray, DecodeValue, Prepare, ClearUnion;
    var f, slots := d.fields[i], Prepare(d, i, st).value.slots;
    match f.presence
    case Repeated(max) => ArrayLocal(f, wire, s, ItemsOf(slots[i]), max, b);
    case FixedCount(count) => ArrayLocal(f, wire, s, ItemsOf(slots[i]), count, b);
    case _ => ValueLocal(f.ltype, PrevOf(f, slots[i]), s, b);
  }

  // ---------------------------------------------------------------- whole records

  /** The loop reads `s` to its end, record by record, without a zero key. */
  ghost predicate Whole(d: Desc, s: Bytes, st: Loop)
    requires |st.slots| == |d.fields|
    decreases |s|
  {
    s == [] || (Varint32(s).Some? && Varint32(s).value.0 != 0 && WholeRecord(d, s, st))
  }

  ghost predicate WholeRecord(d: Desc, s: Bytes, st: Loop)
    requires |st.slots| == |d.fields| && Varint32(s).Some?
    decreases |s|, 0
  {
    var (key, rest) := Varint32(s).value;
    match FindField(d, key / 8, 0)
    case None =>
      if d.fields == [] && key / 8 == 0 then Varint32(rest).Some? && Whole(d, Varint32(rest).value.1, st.(seen := st.seen + {0}))
      else Skip(key % 8, rest).Some? && Whole(d, Skip(key % 8, rest).value, st)
    case Some(i) =>
      && DecodeField(d, i, key % 8, rest, st).Some?
      && Whole(d, DecodeField(d, i, key % 8, rest, st).value.1, DecodeField(d, i, key % 8, rest, st).value.0)
  }

  /** Whatever follows whole records is read in the state that they lead to. */
  lemma {:induction false} WholeThen(d: Desc, a: Bytes, b: Bytes, st: Loop)
    requires |st.slots| == |d.fields| && Whole(d, a, st)
    ensures DecodeLoop(d, a, st).Some? && DecodeLoop(d, a + b, st) == DecodeLoop(d, b, DecodeLoop(d, a, st).value)
    decreases |a|
  {
    hide Varint32, Skip, DecodeField, FindField;
    if a == [] {
      assert a + b == b;
    } else {
      Varint32Local(a, b);
      var (key, rest) := Varint32(a).value;
      assert a + b != [] && WholeRecord(d, a, st);
      match FindField(d, key / 8, 0)
      case None =>
        if d.fields == [] && key / 8 == 0 {
          Varint32Local(rest, b);
          WholeThen(d, Varint32(rest).value.1, b, st.(seen := st.seen + {0}));
        } else {
          SkipLocal(key % 8, rest, b);
          WholeThen(d, Skip(key % 8, rest).value, b, st);
        }
      case Some(i) =>
        FieldLocal(d, i, key % 8, rest, st, b);
        var (st', rest') := DecodeField(d, i, key % 8, rest, st).value;
        WholeThen(d, rest', b, st');
    }
  }

  // ---------------------------------------------------------------- unknown fields

  lemma {:induction false} SkipsVarint(n: nat, rest: Bytes)
    ensures SkipVarint(EncodeVarint(n) + rest) == Some(rest)
    decreases n
  {
    var s := EncodeVarint(n) + rest;
    if n < 128 {
      assert s[1..] == rest;
    } else {
      assert s[1..] == EncodeVarint(n / 128) + rest;
      SkipsVarint(n / 128, rest);
    }
  }

  /** A value is skipped exactly, by the wire type that its record announces. */
  lemma SkipsValue(t: LType, v: Datum, rest: Bytes)
    requires LTypeOk(t) && ValueOk(t, v) && |EncodeValue(t, v)| < Modulus(4)
    ensures Skip(WireType(t), EncodeValue(t, v) + rest) == Some(rest)
  {
    hide EncodeVarint, LengthPrefixed, SkipVarint, Substream, EncodeFixed32, EncodeFixed64, EncodeFields;
    match t
    case Bool => SkipsVarint(v.n, rest);
    case Varint(_) => SkipsVarint(AsUnsigned(v.n), rest);
    case Uvarint(_) => SkipsVarint(v.n, rest);
    case Svarint(_) => SkipsVarint(ZigZag(v.n), rest);
    case Fixed32 => assert (EncodeFixed32(v.n) + rest)[4..] == rest;
    case Fixed64 => assert (EncodeFixed64(v.n) + rest)[8..] == rest;
    case Submessage(sub) =>
      PrefixedLonger(EncodeFields(sub, v.slots, 0));
      SubstreamRoundTrip(EncodeFields(sub, v.slots, 0), rest);
    case _ => SubstreamRoundTrip(v.data, rest);
  }

  ghost predicate Unknown(d: Desc, tag: nat) {
    forall i :: 0 <= i < |d.fields| ==> d.fields[i].tag != tag
  }

  /** A record of a tag that is not in the table is passed over. */
  lemma UnknownRecord(d: Desc, tag: nat, wire: nat, body: Bytes, rest: Bytes, st: Loop)
    requires |st.slots| == |d.fields| && Unknown(d, tag) && 1 <= tag < 0x2000_0000 && wire < 8
    requires Skip(wire, body + rest) == Some(rest)
    ensures DecodeLoop(d, TagBytes(tag, wire) + body + rest, st) == DecodeLoop(d, rest, st)
  {
    hide Varint32, TagBytes, Skip, DecodeField, FindField, DecodeLoop;
    var key, s := tag * 8 + wire, TagBytes(tag, wire) + (body + rest);
    KeyThere(tag, wire, body + rest);
    NotFound(d, tag);
    hide Unknown;
    PassOver(d, s, key, body + rest, rest, st);
    assert TagBytes(tag, wire) + body + rest == s;
  }

  lemma KeyThere(tag: nat, wire: nat, rest: Bytes)
    requires 1 <= tag < 0x2000_0000 && wire < 8
    ensures Varint32(TagBytes(tag, wire) + rest) == Some((tag * 8 + wire, rest)) && TagBytes(tag, wire) + rest != []
    ensures (tag * 8 + wire) / 8 == tag && (tag * 8 + wire) % 8 == wire
  {
    hide Varint32, TagBytes;
    TagRoundTrip(tag, wire, rest);
    TagNotEmpty(tag, wire);
  }

  lemma NotFound(d: Desc, tag: nat)
    requires Unknown(d, tag)
    ensures FindField(d, tag, 0) == None
  {
  }

  lemma PassOver(d: Desc, s: Bytes, key: nat, after: Bytes, rest: Bytes, st: Loop)
    requires |st.slots| == |d.fields| && s != [] && Varint32(s) == Some((key, after)) && key != 0
    requires FindField(d, key / 8, 0) == None && key / 8 != 0 && Skip(key % 8, after) == Some(rest)
    ensures DecodeLoop(d, s, st) == DecodeLoop(d, rest, st)
  {
    hide Varint32, Skip, DecodeField, FindField;
  }

  lemma {:induction false} UnknownItems(d: Desc, f: Field, vs: seq<Datum>, rest: Bytes, st: Loop)
    requires |st.slots| == |d.fields| && Unknown(d, f.tag)
    requires FieldOk(f) && AllOk(f.ltype, vs) && |EncodeUnpacked(f, vs)| < Modulus(4)
    ensures DecodeLoop(d, EncodeUnpacked(f, vs) + rest, st) == DecodeLoop(d, rest, st)
    decreases |vs|
  {
    hide DecodeLoop, TagBytes, EncodeValue, WireType;
    if vs == [] {
      assert [] + rest == rest;
    } else {
      var later := EncodeUnpacked(f, vs[1..]);
      var tag, body := TagBytes(f.tag, WireType(f.ltype)), EncodeValue(f.ltype, vs[0]);
      SkipsValue(f.ltype, vs[0], later + rest);
      UnknownRecord(d, f.tag, WireType(f.ltype), body, later + rest, st);
      assert EncodeUnpacked(f, vs) + rest == tag + body + (later + rest);
      UnknownItems(d, f, vs[1..], rest, st);
    }
  }

  /** Whatever a field that is not in the table holds, its records change nothing, wherever
      they stand. */
  lemma UnknownField(d: Desc, f: Field, s: Slot, rest: Bytes, st: Loop)
    requires |st.slots| == |d.fields| && Unknown(d, f.tag)
    requires FieldOk(f) && SlotOk(f, s) && |EncodeSlot(f, s)| < Modulus(4)
    ensures DecodeLoop(d, EncodeSlot(f, s) + rest, st) == DecodeLoop(d, rest, st)
  {
    hide DecodeLoop, TagBytes, EncodeValue, EncodeItems, EncodeUnpacked, LengthPrefixed, IsDefaultValue;
    assert [] + rest == rest;
    if s.Many? {
      if s.vs != [] && Packable(f.ltype) {
        var items := EncodeItems(f.ltype, s.vs);
        PrefixedLonger(items);
        SubstreamRoundTrip(items, rest);
        UnknownRecord(d, f.tag, PB_WT_STRING, LengthPrefixed(items), rest, st);
      } else if s.vs != [] {
        UnknownItems(d, f, s.vs, rest, st);
      }
    } else {
      var v := if s.Single? then Some(s.v) else s.o;
      if v.Some? && EncodeSlot(f, s) != [] {
        SkipsValue(f.ltype, v.value, rest);
        UnknownRecord(d, f.tag, WireType(f.ltype), EncodeValue(f.ltype, v.value), rest, st);
      }
    }
  }

  /** So records of unknown fields may be put between any records of a message. */
  lemma UnknownAnywhere(d: Desc, a: Bytes, f: Field, s: Slot, b: Bytes, slots: seq<Slot>)
    requires |slots| == |d.fields| && Whole(d, a, Loop(slots, {}, None, 0)) && Unknown(d, f.tag)
    requires FieldOk(f) && SlotOk(f, s) && |EncodeSlot(f, s)| < Modulus(4)
    ensures DecodeMessage(d, a + EncodeSlot(f, s) + b, slots) == DecodeMessage(d, a + b, slots)
  {
    hide DecodeLoop, EncodeSlot, Whole;
    var start := Loop(slots, {}, None, 0);
    WholeThen(d, a, EncodeSlot(f, s) + b, start);
    WholeThen(d, a, b, start);
    UnknownField(d, f, s, b, DecodeLoop(d, a, start).value);
    assert a + EncodeSlot(f, s) + b == a + (EncodeSlot(f, s) + b);
  }

  // ---------------------------------------------------------------- readers with fewer fields

  /** The fields with these tags. */
  ghost function KnownFields(fields: seq<Field>, tags: set<nat>): seq<Field> {
    if fields == [] then []
    else
      var n := |fields| - 1;
      KnownFields(fields[..n], tags) + if fields[n].tag in tags then [fields[n]] else []
  }

  ghost function KnownSlots(fields: seq<Field>, slots: seq<Slot>, tags: set<nat>): (r: seq<Slot>)
    requires |slots| == |fields|
    ensures |r| == |KnownFields(fields, tags)|
  {
    if fields == [] then []
    else
      var n := |fields| - 1;
      KnownSlots(fields[..n], slots[..n], tags) + if fields[n].tag in tags then [slots[n]] else []
  }

  /** Where known field `k` stands among all. */
  ghost function Origin(fields: seq<Field>, tags: set<nat>, k: nat): (i: nat)
    requires k < |KnownFields(fields, tags)|
    ensures i < |fields| && fields[i] == KnownFields(fields, tags)[k] && fields[i].tag in tags
  {
    var n := |fields| - 1;
    if k < |KnownFields(fields[..n], tags)| then Origin(fields[..n], tags, k) else n
  }

  lemma {:induction false} OriginSlot(fields: seq<Field>, slots: seq<Slot>, tags: set<nat>, k: nat)
    requires |slots| == |fields| && k < |KnownFields(fields, tags)|
    ensures KnownSlots(fields, slots, tags)[k] == slots[Origin(fields, tags, k)]
    decreases |fields|
  {
    var n := |fields| - 1;
    if k < |KnownFields(fields[..n], tags)| {
      OriginSlot(fields[..n], slots[..n], tags, k);
    }
  }

  lemma {:induction false} OriginOrder(fields: seq<Field>, tags: set<nat>, j: nat, k: nat)
    requires j < k < |KnownFields(fields, tags)|
    ensures Origin(fields, tags, j) < Origin(fields, tags, k)
    decreases |fields|
  {
    var n := |fields| - 1;
    if k < |KnownFields(fields[..n], tags)| {
      OriginOrder(fields[..n], tags, j, k);
    }
  }

  /** Field `i` is known field `k`, the number of known fields before it, or it is not known. */
  lemma {:induction false} KnownAt(fields: seq<Field>, slots: seq<Slot>, tags: set<nat>, i: nat)
    requires i < |fields| == |slots|
    ensures var k := |KnownFields(fields[..i], tags)|;
            if fields[i].tag in tags then
              && k < |KnownFields(fields, tags)| && KnownFields(fields, tags)[k] == fields[i]
              && KnownSlots(fields, slots, tags)[k] == slots[i] && |KnownFields(fields[..i + 1], tags)| == k + 1
            else |KnownFields(fields[..i + 1], tags)| == k
    decreases |fields|
  {
    var n := |fields| - 1;
    assert fields[..i + 1][..i] == fields[..i];
    if i < n {
      KnownAt(fields[..n], slots[..n], tags, i);
      assert fields[..n][..i] == fields[..i] && fields[..n][..i + 1] == fields[..i + 1];
    } else {
      assert fields[..i + 1] == fields;
    }
  }

  lemma KnownOk(d: Desc, slots: seq<Slot>, tags: set<nat>)
    requires DescOk(d) && SlotsOk(d, slots)
    ensures DescOk(Desc(KnownFields(d.fields, tags)))
    ensures SlotsOk(Desc(KnownFields(d.fields, tags)), KnownSlots(d.fields, slots, tags))
  {
    hide SlotOk, LTypeOk;
    var fields, known := d.fields, KnownSlots(d.fields, slots, tags);
    var fewer := Desc(KnownFields(fields, tags));
    forall k | 0 <= k < |known|
      ensures known[k] == slots[Origin(fields, tags, k)] && fewer.fields[k] == fields[Origin(fields, tags, k)]
    {
      OriginSlot(fields, slots, tags, k);
    }
    forall j, k | 0 <= j < k < |known|
      ensures Origin(fields, tags, j) < Origin(fields, tags, k)
    {
      OriginOrder(fields, tags, j, k);
    }
    forall j, k | 0 <= j < k < |known|
      ensures fewer.fields[j].tag != fewer.fields[k].tag
    {
      assert fields[Origin(fields, tags, j)].tag != fields[Origin(fields, tags, k)].tag;
    }
    forall j, k | 0 <= j < k < |known| && SameUnion(fewer.fields[j], fewer.fields[k])
      ensures known[j] == Maybe(None) || known[k] == Maybe(None)
    {
      assert SameUnion(fields[Origin(fields, tags, j)], fields[Origin(fields, tags, k)]);
    }
  }

  /** A reader that knows only some of the fields reads exactly those of any message. */
  lemma FewerFields(d: Desc, slots: seq<Slot>, tags: set<nat>)
    requires DescOk(d) && SlotsOk(d, slots) && |EncodeFields(d, slots, 0)| < Modulus(4)
    ensures var fewer := Desc(KnownFields(d.fields, tags));
            DecodeMessage(fewer, EncodeFields(d, slots, 0), Defaults(fewer)) == Some(KnownSlots(d.fields, slots, tags))
  {
    hide DecodeLoop, EncodeFields, DescOk, SlotsOk, StateAt, FixedDone, RequiredSeen;
    SameLength(d, slots);
    var fewer, known := Desc(KnownFields(d.fields, tags)), KnownSlots(d.fields, slots, tags);
    KnownOk(d, slots, tags);
    assert d.fields[..0] == [];
    FewerFrom(d, slots, tags, fewer, known, 0);
    StateAtStart(fewer, known);
    StateAtEnd(fewer, known);
  }

  lemma SameLength(d: Desc, slots: seq<Slot>)
    requires SlotsOk(d, slots)
    ensures |slots| == |d.fields|
  {
  }

  lemma {:induction false} FewerFrom(d: Desc, slots: seq<Slot>, tags: set<nat>, fewer: Desc, known: seq<Slot>, i: nat)
    requires DescOk(d) && SlotsOk(d, slots) && i <= |slots| && |EncodeFields(d, slots, i)| < Modulus(4)
    requires fewer == Desc(KnownFields(d.fields, tags)) && known == KnownSlots(d.fields, slots, tags)
    requires DescOk(fewer) && SlotsOk(fewer, known) && |KnownFields(d.fields[..i], tags)| <= |known|
    ensures DecodeLoop(fewer, EncodeFields(d, slots, i), StateAt(fewer, known, |KnownFields(d.fields[..i], tags)|)) ==
            Some(StateAt(fewer, known, |known|))
    decreases |slots| - i
  {
    hide StateAt, EncodeSlot, KnownFields, KnownSlots;
    var k := |KnownFields(d.fields[..i], tags)|;
    if i == |slots| {
      assert d.fields[..i] == d.fields;
    } else {
      var f, s, rest := d.fields[i], slots[i], EncodeFields(d, slots, i + 1);
      assert SlotOk(f, s) && FieldOk(f);
      KnownAt(d.fields, slots, tags, i);
      if f.tag in tags {
        FieldRoundTrip(fewer, known, k, rest);
      } else {
        forall j | 0 <= j < |fewer.fields|
          ensures fewer.fields[j].tag != f.tag
        {
          assert fewer.fields[j].tag in tags by { var o := Origin(d.fields, tags, j); }
        }
        StateLength(fewer, known, k);
        UnknownField(fewer, f, s, rest, StateAt(fewer, known, k));
      }
      FewerFrom(d, slots, tags, fewer, known, i + 1);
    }
  }

  // ---------------------------------------------------------------- merging

  /** A required field seen before does not matter to what is read. */
  lemma FieldSeenBefore(d: Desc, i: nat, wire: nat, s: Bytes, st: Loop, more: set<int>)
    requires i < |d.fields| == |st.slots|
    ensures DecodeField(d, i, wire, s, st.(seen := st.seen + more)) ==
            match DecodeField(d, i, wire, s, st)
            case None => None
            case Some((r, rest)) => Some((r.(seen := r.seen + more), rest))
  {
    hide StaticField;
    if d.fields[i].presence.Required? {
      var index: int := RequiredBefore(d, i);
      assert st.seen + more + {index} == st.seen + {index} + more;
    }
  }

  lemma {:induction false} SeenBefore(d: Desc, s: Bytes, st: Loop, more: set<int>)
    requires |st.slots| == |d.fields|
    ensures DecodeLoop(d, s, st.(seen := st.seen + more)) ==
            match DecodeLoop(d, s, st) case None => None case Some(r) => Some(r.(seen := r.seen + more))
    decreases |s|
  {
    hide Varint32, Skip, DecodeField, FindField;
    var st1 := st.(seen := st.seen + more);
    if s != [] && Varint32(s).Some? && Varint32(s).value.0 != 0 {
      var (key, rest) := Varint32(s).value;
      match FindField(d, key / 8, 0)
      case None =>
        if d.fields == [] && key / 8 == 0 {
          if Varint32(rest).Some? {
            SeenBefore(d, Varint32(rest).value.1, st.(seen := st.seen + {0}), more);
            assert st.seen + {0} + more == st1.seen + {0};
          }
        } else if Skip(key % 8, rest).Some? {
          SeenBefore(d, Skip(key % 8, rest).value, st, more);
        }
      case Some(i) =>
        FieldSeenBefore(d, i, key % 8, rest, st, more);
        if DecodeField(d, i, key % 8, rest, st).Some? {
          var (st', rest') := DecodeField(d, i, key % 8, rest, st).value;
          SeenBefore(d, rest', st', more);
        }
    }
  }

  ghost predicate NoFixedCount(d: Desc) {
    forall i :: 0 <= i < |d.fields| ==> !d.fields[i].presence.FixedCount?
  }

  lemma {:induction false} NothingFixed(d: Desc, s: Bytes, st: Loop)
    requires |st.slots| == |d.fields| && NoFixedCount(d) && st.fixedField == None && st.fixedSize == 0
    requires DecodeLoop(d, s, st).Some?
    ensures DecodeLoop(d, s, st).value.fixedField == None && DecodeLoop(d, s, st).value.fixedSize == 0
    decreases |s|
  {
    hide Varint32, Skip, FindField, StaticField;
    if s != [] && Varint32(s).value.0 != 0 {
      var (key, rest) := Varint32(s).value;
      match FindField(d, key / 8, 0)
      case None =>
        if d.fields == [] && key / 8 == 0 {
          NothingFixed(d, Varint32(rest).value.1, st.(seen := st.seen + {0}));
        } else {
          NothingFixed(d, Skip(key % 8, rest).value, st);
        }
      case Some(i) =>
        var (st', rest') := DecodeField(d, i, key % 8, rest, st).value;
        NothingFixed(d, rest', st');
    }
  }

  /** Reading one message and then another into the same slots is reading the two in a row,
      for descriptors without fixed-count arrays: values are replaced, array items appended,
      submessages merged. */
  lemma Merged(d: Desc, a: Bytes, b: Bytes, slots: seq<Slot>, m: seq<Slot>, r: seq<Slot>)
    requires |slots| == |d.fields| == |m| && NoFixedCount(d) && Whole(d, a, Loop(slots, {}, None, 0))
    requires DecodeMessage(d, a, slots) == Some(m) && DecodeMessage(d, b, m) == Some(r)
    ensures DecodeMessage(d, a + b, slots) == Some(r)
  {
    hide DecodeLoop, Whole;
    var start := Loop(slots, {}, None, 0);
    var st := DecodeLoop(d, a, start).value;
    WholeThen(d, a, b, start);
    NothingFixed(d, a, start);
    var end := DecodeLoop(d, b, Loop(m, {}, None, 0)).value;
    SeenBefore(d, b, Loop(m, {}, None, 0), st.seen);
    assert {} + st.seen == st.seen && Loop(m, st.seen, None, 0) == st;
    assert DecodeLoop(d, a + b, start) == Some(end.(seen := end.seen + st.seen));
  }

  /** So a submessage that occurs twice reads as one with the contents of both. */
  lemma SubmessageMerged(sub: Desc, prev: seq<Slot>, a: Bytes, b: Bytes, rest: Bytes, m: seq<Slot>, r: seq<Slot>)
    requires |prev| == |sub.fields| == |m| && NoFixedCount(sub) && Whole(sub, a, Loop(prev, {}, None, 0))
    requires |a + b| < Modulus(4)
    requires DecodeValue(Submessage(sub), Msg(prev), LengthPrefixed(a) + rest) == Some((Msg(m), rest))
    requires DecodeValue(Submessage(sub), Msg(m), LengthPrefixed(b) + rest) == Some((Msg(r), rest))
    ensures DecodeValue(Submessage(sub), Msg(prev), LengthPrefixed(a + b) + rest) == Some((Msg(r), rest))
  {
    hide DecodeMessage, LengthPrefixed, Substream, Whole;
    SubstreamRoundTrip(a, rest);
    SubstreamRoundTrip(b, rest);
    SubstreamRoundTrip(a + b, rest);
    Merged(sub, a, b, prev, m, r);
  }
}
