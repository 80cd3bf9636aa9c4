/** nanopb messages as values: descriptor tables, well-typed contents, and the wire
    format of Protocol Buffers (guide sections "Base 128 Varints", "Signed Integers"
    and "Length-Delimited Records"). */
module PbMessage {
  import opened DbFormat
  import opened Coding
  import Common = PbCommon

  const PB_SIZE_MAX: nat := 0xffff
  const PB_MAX_REQUIRED_FIELDS: nat := 64

  datatype LType = Bool | Varint(size: nat) | Uvarint(size: nat) | Svarint(size: nat) | Fixed32 | Fixed64
                 | BytesArray(capacity: nat) | Str(capacity: nat) | FixedBytes(length: nat) | Submessage(sub: Desc)

  /** `Optional` has a has_ field, `Implicit` has none, `FixedCount` is an array without
      a count, `OneOf` shares a which_ field with the others of its union. */
  datatype Presence = Required | Optional | Implicit | Repeated(max: nat) | FixedCount(count: nat) | OneOf(union: nat)

  datatype Field = Field(tag: nat, presence: Presence, ltype: LType)

  datatype Desc = Desc(fields: seq<Field>)

  datatype Datum = Int(n: int) | Raw(data: Bytes) | Msg(slots: seq<Slot>)

  /** The contents of one field: always there, perhaps there, or an array. */
  datatype Slot = Single(v: Datum) | Maybe(o: Option<Datum>) | Many(vs: seq<Datum>)

  // ---------------------------------------------------------------- well-typed messages

  function Modulus(size: nat): (m: nat)
    ensures m > 0
  {
    if size == 1 then 0x100 else if size == 2 then 0x1_0000 else if size == 4 then 0x1_0000_0000
    else 0x1_0000_0000_0000_0000
  }

  predicate SizeOk(size: nat) {
    size == 1 || size == 2 || size == 4 || size == 8
  }

  predicate Signed(n: int, size: nat) {
    -(Modulus(size) / 2) <= n < Modulus(size) / 2
  }

  ghost predicate ValueOk(t: LType, v: Datum)
    decreases t
  {
    match t
    case Bool => v.Int? && (v.n == 0 || v.n == 1)
    case Varint(size) => v.Int? && Signed(v.n, size)
    case Uvarint(size) => v.Int? && 0 <= v.n < Modulus(size)
    case Svarint(size) => v.Int? && Signed(v.n, size)
    case Fixed32 => v.Int? && 0 <= v.n < Modulus(4)
    case Fixed64 => v.Int? && 0 <= v.n < Modulus(8)
    case BytesArray(capacity) => v.Raw? && |v.data| <= capacity
    case Str(capacity) => v.Raw? && |v.data| + 1 <= capacity && 0 !in v.data
    case FixedBytes(length) => v.Raw? && |v.data| == length
    case Submessage(sub) => v.Msg? && SlotsOk(sub, v.slots)
  }

  ghost predicate SlotOk(f: Field, s: Slot)
    decreases f
  {
    match f.presence
    case Required => s.Single? && ValueOk(f.ltype, s.v)
    case Implicit => s.Single? && ValueOk(f.ltype, s.v)
    case Optional => s.Maybe? && (s.o.Some? ==> ValueOk(f.ltype, s.o.value))
    case OneOf(_) => s.Maybe? && (s.o.Some? ==> ValueOk(f.ltype, s.o.value))
    case Repeated(max) => s.Many? && |s.vs| <= max && forall i :: 0 <= i < |s.vs| ==> ValueOk(f.ltype, s.vs[i])
    case FixedCount(count) => s.Many? && |s.vs| == count && forall i :: 0 <= i < |s.vs| ==> ValueOk(f.ltype, s.vs[i])
  }

  /** A well-typed message: each slot fits its field, and of the fields of one union at
      most one is present. */
  ghost predicate SlotsOk(d: Desc, slots: seq<Slot>)
    decreases d
  {
    && |slots| == |d.fields|
    && (forall i :: 0 <= i < |slots| ==> SlotOk(d.fields[i], slots[i]))
    && forall i, j :: 0 <= i < j < |slots| && SameUnion(d.fields[i], d.fields[j]) ==> slots[i] == Maybe(None) || slots[j] == Maybe(None)
  }

  predicate SameUnion(f: Field, g: Field) {
    f.presence.OneOf? && g.presence == f.presence
  }

  /** A well-formed descriptor: tags are nonzero, unique and fit 29 bits. */
  ghost predicate DescOk(d: Desc)
    decreases d
  {
    && (forall i :: 0 <= i < |d.fields| ==> 1 <= d.fields[i].tag < 0x2000_0000 && LTypeOk(d.fields[i].ltype))
    && (forall i, j :: 0 <= i < j < |d.fields| ==> d.fields[i].tag != d.fields[j].tag)
    && forall i :: 0 <= i < |d.fields| && d.fields[i].presence.FixedCount? ==> d.fields[i].presence.count > 0
  }

  ghost predicate LTypeOk(t: LType)
    decreases t
  {
    match t
    case Varint(size) => SizeOk(size)
    case Uvarint(size) => SizeOk(size)
    case Svarint(size) => SizeOk(size)
    case BytesArray(capacity) => capacity <= PB_SIZE_MAX
    case Str(capacity) => capacity <= PB_SIZE_MAX
    case FixedBytes(length) => 0 < length <= PB_SIZE_MAX
    case Submessage(sub) => DescOk(sub)
    case _ => true
  }

  // ---------------------------------------------------------------- defaults

  function DefaultValue(t: LType): Datum
    decreases t
  {
    match t
    case BytesArray(_) => Raw([])
    case Str(_) => Raw([])
    case FixedBytes(length) => Raw(seq(length, _ => 0))
    case Submessage(sub) => Msg(Defaults(sub))
    case _ => Int(0)
  }

  function DefaultSlot(f: Field): Slot
    decreases f
  {
    match f.presence
    case Required => Single(DefaultValue(f.ltype))
    case Implicit => Single(DefaultValue(f.ltype))
    case Optional => Maybe(None)
    case OneOf(_) => Maybe(None)
    case Repeated(_) => Many([])
    case FixedCount(_) => Many([])
  }

  /** pb_message_set_to_defaults. */
  function Defaults(d: Desc): (r: seq<Slot>)
    ensures |r| == |d.fields| && forall i :: 0 <= i < |r| ==> r[i] == DefaultSlot(d.fields[i])
    decreases d
  {
    seq(|d.fields|, i requires 0 <= i < |d.fields| => DefaultSlot(d.fields[i]))
  }

  /** pb_check_proto3_default_value: whether an implicit field is left out. */
  predicate IsDefaultValue(t: LType, v: Datum)
    decreases t
  {
    match t
    case BytesArray(_) => v == Raw([])
    case Str(_) => v == Raw([])
    case FixedBytes(length) => length == 0
    case Submessage(sub) =>
      v.Msg? && |v.slots| == |sub.fields| && forall i :: 0 <= i < |v.slots| ==> IsDefaultSlot(sub.fields[i], v.slots[i])
    case _ => v == Int(0)
  }

  predicate IsDefaultSlot(f: Field, s: Slot)
    decreases f
  {
    match f.presence
    case Required => false
    case Implicit => s.Single? && IsDefaultValue(f.ltype, s.v)
    case Optional => s == Maybe(None)
    case OneOf(_) => s == Maybe(None)
    case Repeated(_) => s == Many([])
    case FixedCount(_) => false
  }

  /** What is left out is what the decoder will put there again. */
  lemma {:induction false} DefaultIsDefault(t: LType, v: Datum)
    requires ValueOk(t, v) && LTypeOk(t) && IsDefaultValue(t, v)
    ensures v == DefaultValue(t)
    decreases t
  {
    if t.Submessage? {
      var sub := t.sub;
      forall i | 0 <= i < |sub.fields|
        ensures v.slots[i] == DefaultSlot(sub.fields[i])
      {
        var f, s := sub.fields[i], v.slots[i];
        assert IsDefaultSlot(f, s) && SlotOk(f, s);
        if f.presence.Implicit? {
          DefaultIsDefault(f.ltype, s.v);
        }
      }
      assert v.slots == Defaults(sub);
    }
  }

  // ---------------------------------------------------------------- wire format

  const PB_WT_VARINT: nat := 0
  const PB_WT_64BIT: nat := 1
  const PB_WT_STRING: nat := 2
  const PB_WT_32BIT: nat := 5

  function WireType(t: LType): (w: nat)
    ensures w < 8
  {
    if t.Bool? || t.Varint? || t.Uvarint? || t.Svarint? then PB_WT_VARINT
    else if t.Fixed32? then PB_WT_32BIT
    else if t.Fixed64? then PB_WT_64BIT
    else PB_WT_STRING
  }

  predicate Packable(t: LType) {
    t.Bool? || t.Varint? || t.Uvarint? || t.Svarint? || t.Fixed32? || t.Fixed64?
  }

  function TagBytes(tag: nat, wire: nat): Bytes {
    EncodeVarint(tag * 8 + wire)
  }

  /** A signed value as the unsigned 64-bit word it is cast to. */
  function AsUnsigned(n: int): nat
    requires Signed(n, 8)
  {
    if n < 0 then n + Modulus(8) else n
  }

  /** The word of a zigzag-encoded signed value. */
  function ZigZag(n: int): nat
    requires Signed(n, 8)
  {
    if n < 0 then -2 * n - 1 else 2 * n
  }

  ghost function EncodeValue(t: LType, v: Datum): Bytes
    requires LTypeOk(t) && ValueOk(t, v)
    decreases t, 0
  {
    match t
    case Bool => EncodeVarint(v.n)
    case Varint(size) => EncodeVarint(AsUnsigned(v.n))
    case Uvarint(size) => EncodeVarint(v.n)
    case Svarint(size) => EncodeVarint(ZigZag(v.n))
    case Fixed32 => EncodeFixed32(v.n)
    case Fixed64 => EncodeFixed64(v.n)
    case Submessage(sub) => LengthPrefixed(EncodeFields(sub, v.slots, 0))
    case _ => LengthPrefixed(v.data)
  }

  /** Fields `i` and up, in the order of the table. */
  ghost function EncodeFields(d: Desc, slots: seq<Slot>, i: nat): Bytes
    requires DescOk(d) && SlotsOk(d, slots) && i <= |slots|
    decreases d, 1, |slots| - i
  {
    if i == |slots| then [] else EncodeSlot(d.fields[i], slots[i]) + EncodeFields(d, slots, i + 1)
  }

  ghost predicate FieldOk(f: Field) {
    1 <= f.tag < 0x2000_0000 && LTypeOk(f.ltype)
  }

  ghost function EncodeSlot(f: Field, s: Slot): Bytes
    requires FieldOk(f) && SlotOk(f, s)
    decreases f
  {
    match f.presence
    case Required => EncodeTagged(f, s.v)
    case Implicit => if IsDefaultValue(f.ltype, s.v) then [] else EncodeTagged(f, s.v)
    case Optional => if s.o.Some? then EncodeTagged(f, s.o.value) else []
    case OneOf(_) => if s.o.Some? then EncodeTagged(f, s.o.value) else []
    case Repeated(_) => EncodeArray(f, s.vs)
    case FixedCount(_) => EncodeArray(f, s.vs)
  }

  ghost function EncodeTagged(f: Field, v: Datum): Bytes
    requires FieldOk(f) && ValueOk(f.ltype, v)
    decreases f, 0
  {
    TagBytes(f.tag, WireType(f.ltype)) + EncodeValue(f.ltype, v)
  }

  ghost predicate AllOk(t: LType, vs: seq<Datum>) {
    forall i :: 0 <= i < |vs| ==> ValueOk(t, vs[i])
  }

  /** encode_array: packed if the type allows it, otherwise one tagged record each. */
  ghost function EncodeArray(f: Field, vs: seq<Datum>): Bytes
    requires FieldOk(f) && AllOk(f.ltype, vs)
    decreases f, 2
  {
    if vs == [] then []
    else if Packable(f.ltype) then TagBytes(f.tag, PB_WT_STRING) + LengthPrefixed(EncodeItems(f.ltype, vs))
    else EncodeUnpacked(f, vs)
  }

  ghost function EncodeItems(t: LType, vs: seq<Datum>): Bytes
    requires LTypeOk(t) && AllOk(t, vs)
    decreases t, 1, |vs|
  {
    if vs == [] then [] else EncodeValue(t, vs[0]) + EncodeItems(t, vs[1..])
  }

  ghost function EncodeUnpacked(f: Field, vs: seq<Datum>): Bytes
    requires FieldOk(f) && AllOk(f.ltype, vs)
    decreases f, 1, |vs|
  {
    if vs == [] then [] else EncodeTagged(f, vs[0]) + EncodeUnpacked(f, vs[1..])
  }

  // ---------------------------------------------------------------- what is left out

  /** What an implicit field leaves out: zeros, empty byte arrays and strings, and
      submessages of which nothing would be written. */
  ghost predicate NothingToSay(t: LType, v: Datum)
    requires LTypeOk(t) && ValueOk(t, v)
  {
    match t
    case BytesArray(_) => |v.data| == 0
    case Str(_) => |v.data| == 0
    case FixedBytes(_) => false
    case Submessage(sub) => EncodeFields(sub, v.slots, 0) == []
    case _ => v.n == 0
  }

  /** A field writes nothing exactly if it has a way not to be there and is not. */
  lemma {:induction false} LeftOutIff(f: Field, s: Slot)
    requires FieldOk(f) && SlotOk(f, s) && (f.presence.FixedCount? ==> f.presence.count > 0)
    ensures EncodeSlot(f, s) == [] <==>
            match f.presence
            case Required => false
            case Implicit => NothingToSay(f.ltype, s.v)
            case Optional => s.o == None
            case OneOf(_) => s.o == None
            case Repeated(_) => |s.vs| == 0
            case FixedCount(_) => false
    decreases f, 4
  {
    hide EncodeValue, IsDefaultValue, NothingToSay;
    if f.presence.Implicit? {
      ImplicitLeftOut(f.ltype, s.v);
    } else if f.presence.Repeated? || f.presence.FixedCount? {
      assert s.vs != [] ==> EncodeUnpacked(f, s.vs) != [];
    }
  }

  lemma {:induction false} ImplicitLeftOut(t: LType, v: Datum)
    requires LTypeOk(t) && ValueOk(t, v)
    ensures IsDefaultValue(t, v) <==> NothingToSay(t, v)
    decreases t, 5
  {
    if t.Submessage? {
      var sub, slots := t.sub, v.slots;
      forall i | 0 <= i < |slots|
        ensures IsDefaultSlot(sub.fields[i], slots[i]) <==> EncodeSlot(sub.fields[i], slots[i]) == []
      {
        var f, s := sub.fields[i], slots[i];
        assert SlotOk(f, s) && FieldOk(f);
        LeftOutIff(f, s);
        if f.presence.Implicit? {
          ImplicitLeftOut(f.ltype, s.v);
        }
      }
      NothingWritten(sub, slots, 0);
    }
  }

  lemma {:induction false} NothingWritten(d: Desc, slots: seq<Slot>, i: nat)
    requires DescOk(d) && SlotsOk(d, slots) && i <= |slots|
    ensures EncodeFields(d, slots, i) == [] <==> forall j :: i <= j < |slots| ==> EncodeSlot(d.fields[j], slots[j]) == []
    decreases |slots| - i
  {
    hide EncodeSlot;
    if i < |slots| {
      NothingWritten(d, slots, i + 1);
    }
  }

  // ---------------------------------------------------------------- the descriptor table

  function RowOf(f: Field): Common.Row {
    var htype := match f.presence
                 case Required => Common.Required
                 case Optional => Common.Optional
                 case Implicit => Common.Optional
                 case Repeated(_) => Common.Repeated
                 case FixedCount(_) => Common.Repeated
                 case OneOf(_) => Common.OneOf;
    Common.Row(f.tag, Common.Static, htype, false, 0, 0, 0, 0)
  }

  /** The table the field iterator walks over.  Messages are values here, so the offsets
      into the C structure are of no interest. */
  function RowsOf(d: Desc): (r: seq<Common.Row>)
    ensures |r| == |d.fields| + 1 && r[|d.fields|].tag == 0
    ensures forall i :: 0 <= i < |d.fields| ==> r[i] == RowOf(d.fields[i])
  {
    seq(|d.fields|, i requires 0 <= i < |d.fields| => RowOf(d.fields[i])) +
    [Common.Row(0, Common.Static, Common.Required, false, 0, 0, 0, 0)]
  }

  lemma RowsAreTable(d: Desc)
    requires DescOk(d)
    ensures Common.IsTable(RowsOf(d))
  {
  }
}
